/** The source pack: two writers (shellagent/apphost/source_snapshot.go and
    shellagent/apps_publish.go) and one reader. SHA-256 is an arbitrary function to 32 bytes. */
module SourcePack {
  import opened Options
  import opened Bytes
  import opened Texts

  type Hash = b: bytes | |b| == 32 witness seq(32, _ => 0 as byte)

  const MAGIC: bytes := ['D' as byte, 'Y' as byte, 'N' as byte, 'P' as byte, 'A' as byte, 'C' as byte, 'K' as byte, '1' as byte]
  const PREFIX := "sha256:"
  const TWO_64 := 0x1_0000_0000_0000_0000
  const MAX_SLICE := 0x7fff_ffff_ffff_ffff

  // ----- digests in hexadecimal

  function Digit(n: nat): (c: char)
    requires n < 16
    ensures Nibble(c) == Some(n)
  {
    if n < 10 then '0' + n as char else 'a' + (n - 10) as char
  }

  function Hex(b: bytes): (s: string)
    ensures |s| == 2 * |b|
  {
    if b == [] then "" else [Digit(b[0] as nat / 16), Digit(b[0] as nat % 16)] + Hex(b[1..])
  }

  /** Decoding stops at the first malformed pair and keeps what came before it. */
  function Unhex(s: string): bytes {
    if |s| < 2 || Nibble(s[0]).None? || Nibble(s[1]).None? then []
    else [(16 * Nibble(s[0]).value + Nibble(s[1]).value) as byte] + Unhex(s[2..])
  }

  lemma {:induction false} UnhexOfHex(b: bytes)
    ensures Unhex(Hex(b)) == b
  {
    if b != [] {
      assert Hex(b)[2..] == Hex(b[1..]);
      UnhexOfHex(b[1..]);
    }
  }

  lemma DigitIs(n: nat)
    requires n < 16
    ensures Digit(n) == "0123456789abcdef"[n]
  {
    var digits := "0123456789abcdef";
    assert digits[..10] == "0123456789" && digits[10..] == "abcdef";
  }

  /** Two lower-case digits for each byte, the high one first. */
  lemma {:induction false} HexAt(b: bytes, i: nat)
    requires i < |b|
    ensures Hex(b)[2 * i] == "0123456789abcdef"[b[i] as nat / 16] && Hex(b)[2 * i + 1] == "0123456789abcdef"[b[i] as nat % 16]
  {
    hide Digit;
    DigitIs(b[i] as nat / 16);
    DigitIs(b[i] as nat % 16);
    if i > 0 {
      HexAt(b[1..], i - 1);
      assert Hex(b)[2..] == Hex(b[1..]);
      assert Hex(b)[2 * i] == Hex(b)[2..][2 * (i - 1)] && Hex(b)[2 * i + 1] == Hex(b)[2..][2 * (i - 1) + 1];
    }
  }

  /** Pair `i` of the text is two hexadecimal digits. */
  predicate Pair(s: string, i: nat) {
    2 * i + 1 < |s| && Nibble(s[2 * i]).Some? && Nibble(s[2 * i + 1]).Some?
  }

  /** A text is decoded up to its first malformed pair, or its end. */
  lemma {:induction false} UnhexMeans(s: string)
    ensures forall i :: 0 <= i < |Unhex(s)| ==>
      Pair(s, i) && Unhex(s)[i] as nat == 16 * Nibble(s[2 * i]).value + Nibble(s[2 * i + 1]).value
    ensures !Pair(s, |Unhex(s)|)
  {
    hide Nibble;
    if Pair(s, 0) {
      UnhexMeans(s[2..]);
      forall i | 0 < i <= |Unhex(s)| ensures Pair(s, i) <==> Pair(s[2..], i - 1) {
      }
    }
  }

  /** The name an object goes by: the table's key and the digest field of a snapshot file. */
  function Key(digest: bytes): string {
    PREFIX + Hex(digest)
  }

  function TrimPrefix(s: string): string {
    if PREFIX <= s then s[|PREFIX|..] else s
  }

  lemma RawOfKey(digest: bytes)
    ensures Unhex(TrimPrefix(Key(digest))) == digest
  {
    assert Key(digest)[|PREFIX|..] == Hex(digest);
    UnhexOfHex(digest);
  }

  lemma KeyInjective(a: bytes, b: bytes)
    ensures Key(a) == Key(b) ==> a == b
  {
    RawOfKey(a);
    RawOfKey(b);
  }

  // ----- the format

  datatype Entry = Entry(digest: Hash, data: bytes)

  function Record(e: Entry): (r: bytes)
    ensures |r| == 40 + |e.data|
  {
    e.digest + BigEndian(|e.data|, 8) + e.data
  }

  function Records(entries: seq<Entry>): (r: bytes)
    ensures |r| >= 40 * |entries|
  {
    if entries == [] then [] else Record(entries[0]) + Records(entries[1..])
  }

  function Pack(entries: seq<Entry>): (p: bytes)
    ensures |p| == 12 + |Records(entries)|
  {
    MAGIC + BigEndian(|entries|, 4) + Records(entries)
  }

  /** Every object hashes to its digest, and no digest comes twice or is already `taken`. */
  ghost predicate Genuine(entries: seq<Entry>, hash: bytes -> Hash, taken: set<string>) {
    entries == [] ||
    (Key(entries[0].digest) !in taken && hash(entries[0].data) == entries[0].digest &&
     Genuine(entries[1..], hash, taken + {Key(entries[0].digest)}))
  }

  /** The same, position by position. */
  lemma {:induction false} GenuineMeans(entries: seq<Entry>, hash: bytes -> Hash, taken: set<string>)
    ensures Genuine(entries, hash, taken) <==>
            (forall i :: 0 <= i < |entries| ==> hash(entries[i].data) == entries[i].digest && Key(entries[i].digest) !in taken) &&
            (forall i, j :: 0 <= i < j < |entries| ==> entries[i].digest != entries[j].digest)
  {
    hide Key;
    if entries != [] {
      var first, rest := entries[0], entries[1..];
      GenuineMeans(rest, hash, taken + {Key(first.digest)});
      forall i | 1 <= i < |entries|
        ensures entries[i] == rest[i - 1]
        ensures Key(entries[i].digest) == Key(first.digest) ==> entries[i].digest == first.digest
      {
        KeyInjective(entries[i].digest, first.digest);
      }
      assert forall i :: 0 <= i < |rest| ==> rest[i] == entries[i + 1];
    }
  }

  /** The table that results from adding the entries in turn. */
  function Table(entries: seq<Entry>, objects: map<string, bytes>): map<string, bytes> {
    if entries == [] then objects else Table(entries[1..], objects[Key(entries[0].digest) := entries[0].data])
  }

  lemma {:induction false} TableMeans(entries: seq<Entry>, hash: bytes -> Hash, objects: map<string, bytes>)
    requires Genuine(entries, hash, objects.Keys)
    ensures forall k :: k in objects ==> k in Table(entries, objects) && Table(entries, objects)[k] == objects[k]
    ensures forall i :: 0 <= i < |entries| ==>
      Key(entries[i].digest) in Table(entries, objects) && Table(entries, objects)[Key(entries[i].digest)] == entries[i].data
    ensures |Table(entries, objects)| == |objects| + |entries|
  {
    hide Key;
    if entries != [] {
      var k := Key(entries[0].digest);
      var next := objects[k := entries[0].data];
      assert next.Keys == objects.Keys + {k};
      assert |next| == |next.Keys| == |objects.Keys| + 1;
      TableMeans(entries[1..], hash, next);
      assert k in next && next[k] == entries[0].data;
      assert forall i :: 1 <= i < |entries| ==> entries[i] == entries[1..][i - 1];
    }
  }

  // ----- the reader

  /** `Panics` is the slice expression of shellagent/apphost/source_snapshot.go:180 with its bounds crossed. */
  datatype Outcome = Objects(objects: map<string, bytes>) | Invalid | Ended | Unverified(digest: string) | Trailing | Panics

  /** The reader from `offset` on, with `left` records still announced. */
  ghost function DecodeFrom(pack: bytes, offset: nat, left: nat, objects: map<string, bytes>, hash: bytes -> Hash): Outcome
    requires offset <= |pack|
    decreases left
  {
    if left == 0 then
      if offset == |pack| then Objects(objects) else Trailing
    else if offset + 40 > |pack| then Ended
    else
      var key := Key(pack[offset..offset + 32]);
      var size := Value(pack[offset + 32..offset + 40]);
      var start := offset + 40;
      if (start + size) % TWO_64 > |pack| then Ended
      else if start + size > |pack| then Panics
      else
        var data := pack[start..start + size];
        if key in objects || Key(hash(data)) != key then Unverified(key)
        else DecodeFrom(pack, start + size, left - 1, objects[key := data], hash)
  }

  ghost function Decode(pack: bytes, hash: bytes -> Hash): Outcome {
    if |pack| < 12 || pack[..8] != MAGIC then Invalid else DecodeFrom(pack, 12, Value(pack[8..12]), map[], hash)
  }

  /** The reader's loop. `int(size)` of a size of 2^63 and more is negative, so a sum that wraps
      passes the length test and then crosses the bounds of the slice. */
  method DecodeSourcePack(pack: bytes, hash: bytes -> Hash) returns (outcome: Outcome)
    requires |pack| <= MAX_SLICE
    ensures outcome == Decode(pack, hash)
  {
    hide Key, Value, Pow256;
    if |pack| < 12 || pack[..8] != MAGIC {
      return Invalid;
    }
    var count := Value(pack[8..12]);
    var offset, index := 12, 0;
    var objects: map<string, bytes> := map[];
    while index < count
      invariant index <= count && offset <= |pack|
      invariant Decode(pack, hash) == DecodeFrom(pack, offset, count - index, objects, hash)
    {
      if offset + 40 > |pack| {
        return Ended;
      }
      var digest := Key(pack[offset..offset + 32]);
      var size := Value(pack[offset + 32..offset + 40]);
      FieldSizes();
      offset := offset + 40;
      if (offset + size) % TWO_64 > |pack| {
        return Ended;
      }
      var high := offset + if size <= MAX_SLICE then size else size - TWO_64;
      if high < offset {
        return Panics;
      }
      var data := pack[offset..high];
      offset := high;
      if digest in objects || Key(hash(data)) != digest {
        return Unverified(digest);
      }
      objects := objects[digest := data];
      index := index + 1;
    }
    if offset != |pack| {
      return Trailing;
    }
    return Objects(objects);
  }

  // ----- the reader against the format

  /** What one record costs and means, wherever it starts. */
  lemma RecordAt(pack: bytes, offset: nat, e: Entry)
    requires |pack| <= MAX_SLICE && offset + |Record(e)| <= |pack|
    ensures pack[offset..offset + |Record(e)|] == Record(e) <==>
            pack[offset..offset + 32] == e.digest && Value(pack[offset + 32..offset + 40]) == |e.data| &&
            pack[offset + 40..offset + 40 + |e.data|] == e.data
  {
    hide Value, BigEndian, Pow256;
    FieldSizes();
    ValueOfBigEndian(|e.data|, 8);
    var (r, len) := (pack[offset..offset + |Record(e)|], pack[offset + 32..offset + 40]);
    BigEndianOfValue(len);
    assert r == pack[offset..offset + 32] + len + pack[offset + 40..offset + 40 + |e.data|];
    Fields(r, e.digest, BigEndian(|e.data|, 8), e.data);
  }

  lemma Fields(r: bytes, a: bytes, b: bytes, c: bytes)
    requires |a| == 32 && |b| == 8
    ensures r == a + b + c ==> r[..32] == a && r[32..40] == b && r[40..] == c
  {
  }

  /** The reader over one record of the format. */
  lemma DecodeOne(pack: bytes, offset: nat, left: nat, e: Entry, objects: map<string, bytes>, hash: bytes -> Hash)
    requires |pack| <= MAX_SLICE && left > 0
    requires offset + |Record(e)| <= |pack| && pack[offset..offset + |Record(e)|] == Record(e)
    ensures DecodeFrom(pack, offset, left, objects, hash) ==
            if Key(e.digest) in objects || hash(e.data) != e.digest then Unverified(Key(e.digest))
            else DecodeFrom(pack, offset + |Record(e)|, left - 1, objects[Key(e.digest) := e.data], hash)
  {
    hide Record, Key, Value, BigEndian, Pow256;
    var length := |Record(e)|;
    assert length == 40 + |e.data|;
    RecordAt(pack, offset, e);
    KeyInjective(hash(e.data), e.digest);
  }

  lemma FirstOfRecords(pack: bytes, offset: nat, entries: seq<Entry>)
    requires entries != [] && offset + |Records(entries)| <= |pack| && pack[offset..offset + |Records(entries)|] == Records(entries)
    ensures
      var (next, end) := (offset + |Record(entries[0])|, offset + |Records(entries)|);
      next <= end && pack[offset..next] == Record(entries[0]) && pack[next..end] == Records(entries[1..])
  {
    hide Record;
    var (next, end) := (offset + |Record(entries[0])|, offset + |Records(entries)|);
    assert pack[offset..next] == pack[offset..end][..next - offset];
    assert pack[next..end] == pack[offset..end][next - offset..];
  }

  /** The size field of a record that starts at `at`. */
  function SizeAt(pack: bytes, at: nat): nat
    requires at <= |pack| - 40
  {
    Value(pack[at + 32..at + 40])
  }

  /** The record the reader takes next, when its data are all there. */
  lemma NextRecord(pack: bytes, offset: nat) returns (e: Entry, next: nat)
    requires |pack| <= MAX_SLICE && offset + 40 <= |pack| && offset + 40 + SizeAt(pack, offset) <= |pack|
    ensures next == offset + |Record(e)| <= |pack| && pack[offset..next] == Record(e)
  {
    var size := SizeAt(pack, offset);
    e := Entry(pack[offset..offset + 32], pack[offset + 40..offset + 40 + size]);
    next := offset + 40 + size;
    RecordAt(pack, offset, e);
    hide SizeAt;
  }

  lemma GenuineOne(entries: seq<Entry>, hash: bytes -> Hash, taken: set<string>)
    requires entries != []
    ensures Genuine(entries, hash, taken) <==>
            Key(entries[0].digest) !in taken && hash(entries[0].data) == entries[0].digest &&
            Genuine(entries[1..], hash, taken + {Key(entries[0].digest)})
  {
  }

  lemma TableOne(entries: seq<Entry>, objects: map<string, bytes>)
    requires entries != []
    ensures Table(entries, objects) == Table(entries[1..], objects[Key(entries[0].digest) := entries[0].data])
    ensures objects[Key(entries[0].digest) := entries[0].data].Keys == objects.Keys + {Key(entries[0].digest)}
  {
  }

  /** Reading the records of a list ends with its table, or refuses an object. */
  lemma {:induction false} DecodeOfRecords(pack: bytes, offset: nat, entries: seq<Entry>, objects: map<string, bytes>,
                                           hash: bytes -> Hash)
    requires |pack| == offset + |Records(entries)| <= MAX_SLICE && pack[offset..offset + |Records(entries)|] == Records(entries)
    ensures Genuine(entries, hash, objects.Keys) ==> DecodeFrom(pack, offset, |entries|, objects, hash) == Objects(Table(entries, objects))
    ensures !Genuine(entries, hash, objects.Keys) ==> DecodeFrom(pack, offset, |entries|, objects, hash).Unverified?
    decreases |entries|
  {
    hide Record, Key;
    if entries != [] {
      hide DecodeFrom, Genuine, Table, Records;
      FirstOfRecords(pack, offset, entries);
      var (e, next) := (entries[0], offset + |Record(entries[0])|);
      DecodeOne(pack, offset, |entries|, e, objects, hash);
      GenuineOne(entries, hash, objects.Keys);
      TableOne(entries, objects);
      DecodeOfRecords(pack, next, entries[1..], objects[Key(e.digest) := e.data], hash);
    }
  }

  /** The reader accepts the encoding of a list exactly when every object hashes to its digest and no
      digest comes twice, and then returns the list's own table. */
  lemma DecodeOfPack(entries: seq<Entry>, hash: bytes -> Hash)
    requires |entries| < 0x1_0000_0000 && |Pack(entries)| <= MAX_SLICE
    ensures Genuine(entries, hash, {}) ==> Decode(Pack(entries), hash) == Objects(Table(entries, map[]))
    ensures !Genuine(entries, hash, {}) ==> Decode(Pack(entries), hash).Unverified?
  {
    FieldSizes();
    ValueOfBigEndian(|entries|, 4);
    var pack := Pack(entries);
    assert pack[..8] == MAGIC && pack[8..12] == BigEndian(|entries|, 4) && pack[12..12 + |Records(entries)|] == Records(entries);
    var none: map<string, bytes> := map[];
    assert none.Keys == {};
    DecodeOfRecords(pack, 12, entries, none, hash);
  }

  /** The records an accepted pack holds from `offset` on. */
  lemma {:induction false} RecordsOfDecode(pack: bytes, offset: nat, left: nat, objects: map<string, bytes>, hash: bytes -> Hash)
      returns (entries: seq<Entry>)
    requires |pack| <= MAX_SLICE && offset <= |pack| && DecodeFrom(pack, offset, left, objects, hash).Objects?
    ensures |entries| == left && pack[offset..] == Records(entries)
    decreases left
  {
    hide Record, Key, SizeAt;
    if left == 0 {
      entries := [];
    } else {
      assert offset + 40 + SizeAt(pack, offset) <= |pack| by { DataThere(pack, offset, left, objects, hash); }
      var e, next := NextRecord(pack, offset);
      DecodeOne(pack, offset, left, e, objects, hash);
      hide DecodeFrom;
      var rest := RecordsOfDecode(pack, next, left - 1, objects[Key(e.digest) := e.data], hash);
      entries := [e] + rest;
      assert entries[1..] == rest;
      assert pack[offset..] == pack[offset..next] + pack[next..];
    }
  }

  lemma DataThere(pack: bytes, offset: nat, left: nat, objects: map<string, bytes>, hash: bytes -> Hash)
    requires offset <= |pack| && left > 0 && DecodeFrom(pack, offset, left, objects, hash).Objects?
    ensures offset + 40 <= |pack| && offset + 40 + SizeAt(pack, offset) <= |pack|
  {
  }

  ghost predicate IsPackOf(pack: bytes, entries: seq<Entry>, hash: bytes -> Hash, objects: map<string, bytes>) {
    |entries| < 0x1_0000_0000 && pack == Pack(entries) && Genuine(entries, hash, {}) && objects == Table(entries, map[])
  }

  /** Canonicity: the accepted packs are exactly the encodings of genuine entry lists, to the last
      byte, and what comes out is that list's table. */
  lemma AcceptedExactly(pack: bytes, hash: bytes -> Hash, objects: map<string, bytes>)
    requires |pack| <= MAX_SLICE
    ensures Decode(pack, hash) == Objects(objects) <==> exists entries :: IsPackOf(pack, entries, hash, objects)
  {
    hide Genuine, Table, Pack, Decode;
    if entries :| IsPackOf(pack, entries, hash, objects) {
      DecodeOfPack(entries, hash);
    }
    if Decode(pack, hash) == Objects(objects) {
      var entries := PackOfDecode(pack, hash);
      DecodeOfPack(entries, hash);
      assert IsPackOf(pack, entries, hash, objects);
    }
  }

  lemma PackOfDecode(pack: bytes, hash: bytes -> Hash) returns (entries: seq<Entry>)
    requires |pack| <= MAX_SLICE && Decode(pack, hash).Objects?
    ensures |entries| < 0x1_0000_0000 && pack == Pack(entries)
  {
    hide DecodeFrom, Records;
    FieldSizes();
    var count := Value(pack[8..12]);
    entries := RecordsOfDecode(pack, 12, count, map[], hash);
    BigEndianOfValue(pack[8..12]);
    assert pack == pack[..8] + pack[8..12] + pack[12..];
  }

  /** What the reader says at `at`, where no genuine record of those still announced begins. */
  ghost predicate Stops(pack: bytes, at: nat, left: nat, objects: map<string, bytes>, hash: bytes -> Hash, outcome: Outcome)
    requires at <= |pack|
  {
    if left == 0 then outcome == if at == |pack| then Objects(objects) else Trailing
    else if at + 40 > |pack| then outcome == Ended
    else
      var end := at + 40 + SizeAt(pack, at);
      if end >= 0x1_0000_0000_0000_0000 then outcome == Panics
      else if end > |pack| then outcome == Ended
      else
        var digest := pack[at..at + 32];
        outcome == Unverified(Key(digest)) && (Key(digest) in objects || hash(pack[at + 40..end]) != digest)
  }

  /** The reader's next record is there and genuine. */
  ghost predicate Continues(pack: bytes, at: nat, left: nat, objects: map<string, bytes>, hash: bytes -> Hash) {
    && left > 0 && at + 40 <= |pack| && at + 40 + SizeAt(pack, at) <= |pack|
    && Key(pack[at..at + 32]) !in objects && hash(pack[at + 40..at + 40 + SizeAt(pack, at)]) == pack[at..at + 32]
  }

  lemma StopsHere(pack: bytes, at: nat, left: nat, objects: map<string, bytes>, hash: bytes -> Hash)
    requires |pack| <= MAX_SLICE && at <= |pack| && !Continues(pack, at, left, objects, hash)
    ensures Stops(pack, at, left, objects, hash, DecodeFrom(pack, at, left, objects, hash))
  {
    hide Key, Value, Pow256;
    FieldSizes();
    if left > 0 && at + 40 <= |pack| && at + 40 + SizeAt(pack, at) <= |pack| {
      KeyInjective(hash(pack[at + 40..at + 40 + SizeAt(pack, at)]), pack[at..at + 32]);
    }
  }

  lemma NothingRead(objects: map<string, bytes>, hash: bytes -> Hash)
    ensures Records([]) == [] && Genuine([], hash, objects.Keys) && Table([], objects) == objects
  {
  }

  lemma {:induction false} StopsAfter(pack: bytes, offset: nat, left: nat, objects: map<string, bytes>,
                                      hash: bytes -> Hash) returns (entries: seq<Entry>)
    requires |pack| <= MAX_SLICE && offset <= |pack|
    ensures var at := offset + |Records(entries)|;
      && |entries| <= left && at <= |pack| && pack[offset..at] == Records(entries) && Genuine(entries, hash, objects.Keys)
      && Stops(pack, at, left - |entries|, Table(entries, objects), hash, DecodeFrom(pack, offset, left, objects, hash))
    decreases left
  {
    hide Record, Key, DecodeFrom, Records, Genuine, Table, Stops;
    if !Continues(pack, offset, left, objects, hash) {
      entries := [];
      StopsHere(pack, offset, left, objects, hash);
      NothingRead(objects, hash);
    } else {
      var e, next := NextRecord(pack, offset);
      DecodeOne(pack, offset, left, e, objects, hash);
      RecordAt(pack, offset, e);
      hide SizeAt;
      assert (objects[Key(e.digest) := e.data]).Keys == objects.Keys + {Key(e.digest)};
      var rest := StopsAfter(pack, next, left - 1, objects[Key(e.digest) := e.data], hash);
      entries := [e] + rest;
      StopsCons(pack, offset, e, rest, hash, objects);
    }
  }

  lemma StopsCons(pack: bytes, offset: nat, e: Entry, rest: seq<Entry>, hash: bytes -> Hash, objects: map<string, bytes>)
    requires Key(e.digest) !in objects && hash(e.data) == e.digest
    requires var next := offset + |Record(e)|;
      && next + |Records(rest)| <= |pack| && pack[offset..next] == Record(e) && pack[next..next + |Records(rest)|] == Records(rest)
    requires Genuine(rest, hash, objects.Keys + {Key(e.digest)})
    ensures var (at, all) := (offset + |Record(e)| + |Records(rest)|, [e] + rest);
      && |Records(all)| == |Record(e)| + |Records(rest)| && pack[offset..at] == Records(all) && Genuine(all, hash, objects.Keys)
      && Table(all, objects) == Table(rest, objects[Key(e.digest) := e.data])
  {
    hide Record, Key, Genuine, Records, Table;
    RecordsCons(e, rest);
    GenuineOne([e] + rest, hash, objects.Keys);
    TableOne([e] + rest, objects);
    assert ([e] + rest)[1..] == rest;
    var next := offset + |Record(e)|;
    var at := next + |Records(rest)|;
    assert pack[offset..at] == pack[offset..next] + pack[next..at];
  }

  /** Every outcome, decided by what follows the genuine records a pack begins with: nothing more is
      announced, the bytes end, an announced size wraps past 2^64, or an object repeats or does not
      hash to its digest. */
  lemma OutcomeDecided(pack: bytes, hash: bytes -> Hash) returns (entries: seq<Entry>)
    requires |pack| <= MAX_SLICE
    ensures if |pack| < 12 || pack[..8] != MAGIC then Decode(pack, hash) == Invalid
      else
        var at := 12 + |Records(entries)|;
        && |entries| <= Value(pack[8..12]) && at <= |pack| && pack[12..at] == Records(entries) && Genuine(entries, hash, {})
        && Stops(pack, at, Value(pack[8..12]) - |entries|, Table(entries, map[]), hash, Decode(pack, hash))
  {
    hide DecodeFrom, Value, Stops, Genuine, Table;
    entries := [];
    if |pack| >= 12 && pack[..8] == MAGIC {
      var none: map<string, bytes> := map[];
      assert none.Keys == {};
      entries := StopsAfter(pack, 12, Value(pack[8..12]), none, hash);
    }
  }

  /** From `offset` on: some genuine records, then one whose announced size wraps past 2^64. */
  ghost predicate WrapsAfter(pack: bytes, offset: nat, left: nat, entries: seq<Entry>, hash: bytes -> Hash, taken: set<string>) {
    var at := offset + |Records(entries)|;
    |entries| < left && at + 40 <= |pack| && pack[offset..at] == Records(entries) && Genuine(entries, hash, taken) &&
    SizeAt(pack, at) >= TWO_64 - (at + 40)
  }

  lemma {:induction false} WrappingPanics(pack: bytes, offset: nat, left: nat, entries: seq<Entry>,
                                          objects: map<string, bytes>, hash: bytes -> Hash)
    requires |pack| <= MAX_SLICE && offset <= |pack| && WrapsAfter(pack, offset, left, entries, hash, objects.Keys)
    ensures DecodeFrom(pack, offset, left, objects, hash).Panics?
    decreases |entries|
  {
    hide Record, Key;
    if entries == [] {
      FieldSizes();
    } else {
      hide DecodeFrom, WrapsAfter;
      var (e, next) := (entries[0], offset + |Record(entries[0])|);
      WrapsRest(pack, offset, left, entries, hash, objects.Keys);
      DecodeOne(pack, offset, left, e, objects, hash);
      TableOne(entries, objects);
      WrappingPanics(pack, next, left - 1, entries[1..], objects[Key(e.digest) := e.data], hash);
    }
  }

  lemma WrapsRest(pack: bytes, offset: nat, left: nat, entries: seq<Entry>, hash: bytes -> Hash, taken: set<string>)
    requires entries != [] && WrapsAfter(pack, offset, left, entries, hash, taken)
    ensures
      var e := entries[0];
      Key(e.digest) !in taken && hash(e.data) == e.digest &&
      offset + |Record(e)| <= |pack| && pack[offset..offset + |Record(e)|] == Record(e) &&
      WrapsAfter(pack, offset + |Record(e)|, left - 1, entries[1..], hash, taken + {Key(e.digest)})
  {
    hide Record, Key, SizeAt, Genuine;
    assert Records(entries) == Record(entries[0]) + Records(entries[1..]);
    hide Records;
    FirstOfRecords(pack, offset, entries);
    GenuineOne(entries, hash, taken);
  }

  lemma {:induction false} PanicWraps(pack: bytes, offset: nat, left: nat, objects: map<string, bytes>,
                                      hash: bytes -> Hash) returns (entries: seq<Entry>)
    requires |pack| <= MAX_SLICE && offset <= |pack| && DecodeFrom(pack, offset, left, objects, hash).Panics?
    ensures WrapsAfter(pack, offset, left, entries, hash, objects.Keys)
    decreases left
  {
    hide Record, Key;
    FieldSizes();
    if offset + 40 + SizeAt(pack, offset) > |pack| {
      entries := [];
    } else {
      hide SizeAt;
      var e, next := NextRecord(pack, offset);
      DecodeOne(pack, offset, left, e, objects, hash);
      hide DecodeFrom, WrapsAfter;
      TableOne([e], objects);
      var rest := PanicWraps(pack, next, left - 1, objects[Key(e.digest) := e.data], hash);
      entries := [e] + rest;
      WrapsCons(pack, offset, left, e, rest, hash, objects.Keys);
    }
  }

  lemma WrapsCons(pack: bytes, offset: nat, left: nat, e: Entry, rest: seq<Entry>, hash: bytes -> Hash, taken: set<string>)
    requires left > 0 && Key(e.digest) !in taken && hash(e.data) == e.digest
    requires offset + |Record(e)| <= |pack| && pack[offset..offset + |Record(e)|] == Record(e)
    requires WrapsAfter(pack, offset + |Record(e)|, left - 1, rest, hash, taken + {Key(e.digest)})
    ensures WrapsAfter(pack, offset, left, [e] + rest, hash, taken)
  {
    hide Record, Key, SizeAt, Genuine, Records;
    RecordsCons(e, rest);
    GenuineOne([e] + rest, hash, taken);
    assert ([e] + rest)[1..] == rest;
    var next := offset + |Record(e)|;
    var at := next + |Records(rest)|;
    assert pack[offset..at] == pack[offset..next] + pack[next..at];
  }

  lemma RecordsCons(e: Entry, rest: seq<Entry>)
    ensures Records([e] + rest) == Record(e) + Records(rest)
  {
    assert ([e] + rest)[1..] == rest;
  }

  ghost predicate Wraps(pack: bytes, hash: bytes -> Hash) {
    |pack| >= 12 && pack[..8] == MAGIC && exists entries :: WrapsAfter(pack, 12, Value(pack[8..12]), entries, hash, {})
  }

  /** The reader panics exactly on packs in which, after genuine records, a size is announced that
      takes the offset past 2^64. */
  lemma PanicsExactly(pack: bytes, hash: bytes -> Hash)
    requires |pack| <= MAX_SLICE
    ensures Decode(pack, hash).Panics? <==> Wraps(pack, hash)
  {
    hide DecodeFrom, WrapsAfter, Value;
    var none: map<string, bytes> := map[];
    assert none.Keys == {};
    if Decode(pack, hash).Panics? {
      var entries := PanicWraps(pack, 12, Value(pack[8..12]), none, hash);
    }
    if Wraps(pack, hash) {
      var entries :| WrapsAfter(pack, 12, Value(pack[8..12]), entries, hash, {});
      WrappingPanics(pack, 12, Value(pack[8..12]), entries, none, hash);
    }
  }

  /** And such a pack exists: 52 bytes, one record, a size of 2^64 - 1. */
  lemma WrappedSizePanics(hash: bytes -> Hash) returns (pack: bytes)
    ensures |pack| == 52 && Decode(pack, hash).Panics?
  {
    FieldSizes();
    var size := BigEndian(TWO_64 - 1, 8);
    ValueOfBigEndian(TWO_64 - 1, 8);
    ValueOfBigEndian(1, 4);
    pack := MAGIC + BigEndian(1, 4) + seq(32, _ => 0 as byte) + size;
    assert pack[..8] == MAGIC && pack[8..12] == BigEndian(1, 4) && pack[44..52] == size;
  }

  // ----- the writers

  /** A snapshot file's digest and size fields; the size is a signed 64-bit field. */
  datatype File = File(digest: string, size: int)

  function Unsigned(n: int): nat {
    n % TWO_64
  }

  /** The 40-byte header: the digest cut or zero-padded to 32 bytes, then the size. */
  function Header(file: File): (h: bytes)
    ensures |h| == 40
  {
    var raw := Unhex(TrimPrefix(file.digest)) + seq(32, _ => 0 as byte);
    raw[..32] + BigEndian(Unsigned(file.size), 8)
  }

  function Blob(blobs: map<string, bytes>, digest: string): bytes {
    if digest in blobs then blobs[digest] else []
  }

  function Sections(files: seq<File>, blobs: map<string, bytes>): bytes {
    if files == [] then [] else Header(files[0]) + Blob(blobs, files[0].digest) + Sections(files[1..], blobs)
  }

  /** The section of one file, field by field: its digest, cut or padded with zeros to 32 bytes, its
      size in 64 bits, and its blob if there is one. */
  ghost predicate SectionOf(part: bytes, file: File, blobs: map<string, bytes>) {
    var raw := Unhex(if "sha256:" <= file.digest then file.digest[7..] else file.digest);
    && |part| >= 40
    && (forall k :: 0 <= k < 32 ==> part[k] == if k < |raw| then raw[k] else 0)
    && part[32..40] == BigEndian(file.size % 0x1_0000_0000_0000_0000, 8)
    && part[40..] == if file.digest in blobs then blobs[file.digest] else []
  }

  lemma SectionIs(file: File, blobs: map<string, bytes>)
    ensures SectionOf(Header(file) + Blob(blobs, file.digest), file, blobs)
  {
    hide Unhex, BigEndian;
    var part := Header(file) + Blob(blobs, file.digest);
    assert part[..40] == Header(file) && part[40..] == Blob(blobs, file.digest);
    assert part[..40][32..40] == part[32..40];
    forall k | 0 <= k < 32 ensures part[k] == part[..40][k] {
    }
  }

  /** What the writer writes after its header is one section for each file, in order. */
  lemma {:induction false} SectionsAre(files: seq<File>, blobs: map<string, bytes>) returns (parts: seq<bytes>)
    ensures |parts| == |files| && Sections(files, blobs) == Concat(parts)
    ensures forall i :: 0 <= i < |files| ==> SectionOf(parts[i], files[i], blobs)
  {
    hide SectionOf, Header, Blob;
    if files == [] {
      parts := [];
    } else {
      var rest := SectionsAre(files[1..], blobs);
      parts := [Header(files[0]) + Blob(blobs, files[0].digest)] + rest;
      SectionIs(files[0], blobs);
      assert parts[1..] == rest;
      assert forall i :: 0 < i < |files| ==> parts[i] == rest[i - 1] && files[i] == files[1..][i - 1];
    }
  }

  /** The eight bytes of `DYNPACK1`, the count in 32 bits, and one section for each file in order. */
  ghost predicate Encodes(buffer: bytes, files: seq<File>, blobs: map<string, bytes>) {
    exists parts: seq<bytes> ::
      && |parts| == |files| && buffer == [68, 89, 78, 80, 65, 67, 75, 49] + BigEndian(|files|, 4) + Concat(parts)
      && forall i :: 0 <= i < |files| ==> SectionOf(parts[i], files[i], blobs)
  }

  lemma EncodedMeans(files: seq<File>, blobs: map<string, bytes>)
    ensures Encodes(MAGIC + BigEndian(|files|, 4) + Sections(files, blobs), files, blobs)
  {
    hide SectionOf, Concat, Sections, BigEndian;
    assert MAGIC == [68, 89, 78, 80, 65, 67, 75, 49];
    var parts := SectionsAre(files, blobs);
  }

  /** The snapshot writer; the count keeps its low 32 bits. */
  method EncodeSourcePack(files: seq<File>, blobs: map<string, bytes>) returns (buffer: bytes)
    ensures buffer == MAGIC + BigEndian(|files|, 4) + Sections(files, blobs)
    ensures Encodes(buffer, files, blobs)
  {
    hide Encodes;
    EncodedMeans(files, blobs);
    hide BigEndian, Header, Blob;
    buffer := MAGIC + BigEndian(|files|, 4);
    ghost var start := buffer;
    for i := 0 to |files|
      invariant buffer + Sections(files[i..], blobs) == start + Sections(files, blobs)
    {
      var file := files[i];
      assert files[i..][0] == file && files[i..][1..] == files[i + 1..];
      ghost var rest := Sections(files[i + 1..], blobs);
      assert buffer + (Header(file) + Blob(blobs, file.digest) + rest) == buffer + Header(file) + Blob(blobs, file.digest) + rest;
      buffer := buffer + Header(file);
      buffer := buffer + Blob(blobs, file.digest);
    }
  }

  /** A file whose digest is written the way the reader writes it and whose size is its blob's. */
  ghost predicate Matching(file: File, blobs: map<string, bytes>) {
    (exists d: Hash :: file.digest == Key(d)) && file.digest in blobs && file.size == |blobs[file.digest]| <= MAX_SLICE
  }

  ghost function EntryOf(file: File, blobs: map<string, bytes>): (e: Entry)
    requires Matching(file, blobs)
    ensures Key(e.digest) == file.digest && e.data == Blob(blobs, file.digest)
  {
    var d: Hash :| file.digest == Key(d);
    Entry(d, blobs[file.digest])
  }

  ghost function EntriesOf(files: seq<File>, blobs: map<string, bytes>): (entries: seq<Entry>)
    requires forall f :: f in files ==> Matching(f, blobs)
    ensures |entries| == |files|
    ensures forall i :: 0 <= i < |files| ==> Key(entries[i].digest) == files[i].digest && entries[i].data == Blob(blobs, files[i].digest)
    ensures forall i :: 0 <= i < |files| ==> entries[i] == EntryOf(files[i], blobs)
  {
    seq(|files|, i requires 0 <= i < |files| => EntryOf(files[i], blobs))
  }

  lemma RecordOfFile(file: File, blobs: map<string, bytes>)
    requires Matching(file, blobs)
    ensures Header(file) + Blob(blobs, file.digest) == Record(EntryOf(file, blobs))
  {
    hide Unhex, TrimPrefix, Key, BigEndian, EntryOf;
    var e := EntryOf(file, blobs);
    RawOfKey(e.digest);
    assert (e.digest + seq(32, _ => 0 as byte))[..32] == e.digest;
  }

  lemma {:induction false} RecordsOfFiles(files: seq<File>, blobs: map<string, bytes>)
    requires forall f :: f in files ==> Matching(f, blobs)
    ensures Sections(files, blobs) == Records(EntriesOf(files, blobs))
  {
    hide Header, Record, EntryOf;
    if files != [] {
      RecordOfFile(files[0], blobs);
      RecordsOfFiles(files[1..], blobs);
      assert EntriesOf(files, blobs)[1..] == EntriesOf(files[1..], blobs);
    }
  }

  ghost predicate HashesMatch(files: seq<File>, blobs: map<string, bytes>, hash: bytes -> Hash)
  {
    forall f :: f in files ==> f.digest == Key(hash(Blob(blobs, f.digest)))
  }

  predicate DistinctDigests(files: seq<File>) {
    forall i, j :: 0 <= i < j < |files| ==> files[i].digest != files[j].digest
  }

  ghost predicate HoldsBlobs(objects: map<string, bytes>, files: seq<File>, blobs: map<string, bytes>)
  {
    |objects| == |files| && forall f :: f in files ==> f.digest in objects && objects[f.digest] == Blob(blobs, f.digest)
  }

  lemma GenuineFiles(files: seq<File>, blobs: map<string, bytes>, hash: bytes -> Hash)
    requires forall f :: f in files ==> Matching(f, blobs)
    ensures Genuine(EntriesOf(files, blobs), hash, {}) <==> HashesMatch(files, blobs, hash) && DistinctDigests(files)
  {
    hide Key, EntryOf;
    var entries := EntriesOf(files, blobs);
    GenuineMeans(entries, hash, {});
    forall i | 0 <= i < |files|
      ensures hash(entries[i].data) == entries[i].digest <==> files[i].digest == Key(hash(Blob(blobs, files[i].digest)))
    {
      KeyInjective(entries[i].digest, hash(Blob(blobs, files[i].digest)));
    }
    forall i, j | 0 <= i < j < |files| ensures entries[i].digest == entries[j].digest <==> files[i].digest == files[j].digest {
      KeyInjective(entries[i].digest, entries[j].digest);
    }
  }

  /** Reading what the snapshot writer wrote for matching files: accepted exactly when the blobs
      hash to their names and no name comes twice, and then every blob comes back and nothing else. */
  lemma EncodeRoundTrip(files: seq<File>, blobs: map<string, bytes>, hash: bytes -> Hash, pack: bytes)
    requires |files| < 0x1_0000_0000 && |pack| <= MAX_SLICE
    requires forall f :: f in files ==> Matching(f, blobs)
    requires pack == MAGIC + BigEndian(|files|, 4) + Sections(files, blobs)
    ensures Decode(pack, hash).Objects? <==> HashesMatch(files, blobs, hash) && DistinctDigests(files)
    ensures Decode(pack, hash).Objects? ==> HoldsBlobs(Decode(pack, hash).objects, files, blobs)
  {
    hide *;
    RecordsOfFiles(files, blobs);
    var entries := EntriesOf(files, blobs);
    PackIs(entries, pack);
    DecodeOfPack(entries, hash);
    GenuineFiles(files, blobs, hash);
    if Genuine(entries, hash, {}) {
      TableHolds(files, blobs, hash);
    }
  }

  lemma PackIs(entries: seq<Entry>, pack: bytes)
    requires pack == MAGIC + BigEndian(|entries|, 4) + Records(entries)
    ensures pack == Pack(entries)
  {
  }

  lemma TableHolds(files: seq<File>, blobs: map<string, bytes>, hash: bytes -> Hash)
    requires forall f :: f in files ==> Matching(f, blobs)
    requires Genuine(EntriesOf(files, blobs), hash, {})
    ensures HoldsBlobs(Table(EntriesOf(files, blobs), map[]), files, blobs)
  {
    hide Genuine, Table, Matching, EntryOf, Key, Blob;
    var entries := EntriesOf(files, blobs);
    var none: map<string, bytes> := map[];
    assert none.Keys == {};
    TableMeans(entries, hash, none);
  }

  // ----- the publishing writer

  datatype LocalFile = LocalFile(digest: string, size: int, path: string)

  datatype Upload = Packed(raw: bytes) | UnknownBlob | Unreadable

  function Wanted(missing: seq<string>, byDigest: map<string, LocalFile>, read: string -> Option<bytes>): Upload {
    if missing == [] then Packed([])
    else if missing[0] !in byDigest then UnknownBlob
    else
      var file := byDigest[missing[0]];
      match read(file.path)
      case None => Unreadable
      case Some(data) =>
        match Wanted(missing[1..], byDigest, read)
        case Packed(rest) => Packed(Unhex(TrimPrefix(file.digest)) + BigEndian(Unsigned(file.size), 8) + data + rest)
        case failed => failed
  }

  /** A requested object is known and can be read. */
  ghost predicate Ready(d: string, byDigest: map<string, LocalFile>, read: string -> Option<bytes>) {
    d in byDigest && read(byDigest[d].path).Some?
  }

  /** The first object that is not ready decides: not known, or not readable. */
  ghost predicate FailsAt(missing: seq<string>, i: nat, byDigest: map<string, LocalFile>, read: string -> Option<bytes>) {
    i < |missing| && !Ready(missing[i], byDigest, read) && forall j :: 0 <= j < i ==> Ready(missing[j], byDigest, read)
  }

  /** The section of one object: its digest as decoded, the size it was listed with, and what was read. */
  ghost predicate UploadedSection(part: bytes, d: string, byDigest: map<string, LocalFile>, read: string -> Option<bytes>)
    requires Ready(d, byDigest, read)
  {
    var file := byDigest[d];
    part == Unhex(if "sha256:" <= file.digest then file.digest[7..] else file.digest)
      + BigEndian(file.size % 0x1_0000_0000_0000_0000, 8) + read(file.path).value
  }

  /** What is uploaded: a section for every requested object, in order, when all are ready; else the
      failure of the first that is not. */
  ghost predicate Uploads(wanted: Upload, head: bytes, missing: seq<string>, byDigest: map<string, LocalFile>,
                          read: string -> Option<bytes>) {
    && (wanted.Packed? <==> forall d :: d in missing ==> Ready(d, byDigest, read))
    && (wanted.Packed? ==> exists parts: seq<bytes> ::
      && |parts| == |missing| && wanted.raw == head + Concat(parts)
      && forall i :: 0 <= i < |missing| ==> UploadedSection(parts[i], missing[i], byDigest, read))
    && (forall i: nat :: FailsAt(missing, i, byDigest, read) ==>
      wanted == if missing[i] in byDigest then Unreadable else UnknownBlob)
  }

  lemma {:induction false} WantedReady(missing: seq<string>, byDigest: map<string, LocalFile>, read: string -> Option<bytes>)
    ensures Wanted(missing, byDigest, read).Packed? <==> forall d :: d in missing ==> Ready(d, byDigest, read)
  {
    hide Unhex, BigEndian, TrimPrefix, Unsigned;
    if missing != [] {
      WantedReady(missing[1..], byDigest, read);
      assert missing == [missing[0]] + missing[1..];
      assert forall d :: d in missing <==> d == missing[0] || d in missing[1..];
      assert missing[0] in missing;
      assert Wanted(missing, byDigest, read).Packed? <==>
        Ready(missing[0], byDigest, read) && Wanted(missing[1..], byDigest, read).Packed?;
    }
  }

  lemma {:induction false} WantedFails(missing: seq<string>, i: nat, byDigest: map<string, LocalFile>, read: string -> Option<bytes>)
    requires FailsAt(missing, i, byDigest, read)
    ensures Wanted(missing, byDigest, read) == if missing[i] in byDigest then Unreadable else UnknownBlob
  {
    hide Unhex, BigEndian, TrimPrefix, Unsigned;
    if i > 0 {
      assert forall j :: 0 <= j < i - 1 ==> missing[1..][j] == missing[j + 1];
      WantedFails(missing[1..], i - 1, byDigest, read);
      assert Ready(missing[0], byDigest, read);
    }
  }

  lemma {:induction false} WantedParts(missing: seq<string>, byDigest: map<string, LocalFile>, read: string -> Option<bytes>)
      returns (parts: seq<bytes>)
    requires Wanted(missing, byDigest, read).Packed? && forall d :: d in missing ==> Ready(d, byDigest, read)
    ensures |parts| == |missing| && Wanted(missing, byDigest, read).raw == Concat(parts)
    ensures forall i :: 0 <= i < |missing| ==> UploadedSection(parts[i], missing[i], byDigest, read)
  {
    hide Unhex, BigEndian, Concat;
    parts := [];
    if missing == [] {
      ConcatNothing();
    } else {
      var rest := WantedParts(missing[1..], byDigest, read);
      var file := byDigest[missing[0]];
      var part := Unhex(TrimPrefix(file.digest)) + BigEndian(Unsigned(file.size), 8) + read(file.path).value;
      parts := [part] + rest;
      ConcatCons(part, rest);
      assert UploadedSection(part, missing[0], byDigest, read);
      hide UploadedSection;
      assert forall i :: 0 < i < |missing| ==> parts[i] == rest[i - 1] && missing[i] == missing[1..][i - 1];
    }
  }

  lemma ConcatNothing()
    ensures Concat([]) == []
  {
  }

  lemma ConcatCons(part: bytes, tail: seq<bytes>)
    ensures Concat([part] + tail) == part + Concat(tail)
  {
    assert ([part] + tail)[1..] == tail;
  }

  /** No later file has its digest. */
  ghost predicate LastOf(files: seq<LocalFile>, i: nat)
    requires i < |files|
  {
    forall j :: i < j < |files| ==> files[j].digest != files[i].digest
  }

  /** The last file with each digest. */
  ghost predicate Indexes(byDigest: map<string, LocalFile>, files: seq<LocalFile>) {
    (forall d :: d in byDigest ==> exists i :: 0 <= i < |files| && LastOf(files, i) && files[i].digest == d && files[i] == byDigest[d]) &&
    (forall i :: 0 <= i < |files| ==> files[i].digest in byDigest)
  }

  lemma IndexNext(byDigest: map<string, LocalFile>, files: seq<LocalFile>, file: LocalFile)
    requires Indexes(byDigest, files)
    ensures Indexes(byDigest[file.digest := file], files + [file])
  {
    var (next, all) := (byDigest[file.digest := file], files + [file]);
    forall d | d in next ensures exists i :: 0 <= i < |all| && LastOf(all, i) && all[i].digest == d && all[i] == next[d] {
      if d == file.digest {
        assert LastOf(all, |files|) && all[|files|] == file;
      } else {
        var i :| 0 <= i < |files| && LastOf(files, i) && files[i].digest == d && files[i] == byDigest[d];
        assert LastOf(all, i) && all[i] == files[i];
      }
    }
  }

  method IndexByDigest(files: seq<LocalFile>) returns (byDigest: map<string, LocalFile>)
    ensures Indexes(byDigest, files)
  {
    byDigest := map[];
    for i := 0 to |files|
      invariant Indexes(byDigest, files[..i])
    {
      IndexNext(byDigest, files[..i], files[i]);
      byDigest := byDigest[files[i].digest := files[i]];
      assert files[..i + 1] == files[..i] + [files[i]];
    }
    assert files[..|files|] == files;
  }

  /** What `upload` must be when the records still wanted come after `raw`. */
  ghost function After(raw: bytes, wanted: Upload): Upload {
    if wanted.Packed? then Packed(raw + wanted.raw) else wanted
  }

  lemma AfterOne(raw: bytes, missing: seq<string>, byDigest: map<string, LocalFile>, read: string -> Option<bytes>)
    requires missing != [] && missing[0] in byDigest && read(byDigest[missing[0]].path).Some?
    ensures
      var file := byDigest[missing[0]];
      var more := raw + Unhex(TrimPrefix(file.digest)) + BigEndian(Unsigned(file.size), 8) + read(file.path).value;
      After(raw, Wanted(missing, byDigest, read)) == After(more, Wanted(missing[1..], byDigest, read))
  {
    hide Unhex, TrimPrefix, BigEndian, Unsigned;
    var file := byDigest[missing[0]];
    var wanted := Wanted(missing[1..], byDigest, read);
    if wanted.Packed? {
      Regroup(raw, Unhex(TrimPrefix(file.digest)), BigEndian(Unsigned(file.size), 8), read(file.path).value, wanted.raw);
    }
  }

  lemma Regroup(a: bytes, b: bytes, c: bytes, d: bytes, e: bytes)
    ensures a + (b + c + d + e) == a + b + c + d + e
  {
  }

  lemma UploadMeans(missing: seq<string>, byDigest: map<string, LocalFile>, read: string -> Option<bytes>)
    ensures Uploads(After(MAGIC + BigEndian(|missing|, 4), Wanted(missing, byDigest, read)),
      [68, 89, 78, 80, 65, 67, 75, 49] + BigEndian(|missing|, 4), missing, byDigest, read)
  {
    hide Unhex, BigEndian, Wanted, Concat, UploadedSection, Ready;
    WantedReady(missing, byDigest, read);
    forall i: nat | FailsAt(missing, i, byDigest, read)
      ensures Wanted(missing, byDigest, read) == if missing[i] in byDigest then Unreadable else UnknownBlob
    {
      WantedFails(missing, i, byDigest, read);
    }
    assert MAGIC == [68, 89, 78, 80, 65, 67, 75, 49];
    if Wanted(missing, byDigest, read).Packed? {
      var parts := WantedParts(missing, byDigest, read);
    }
  }

  method UploadPublishSources(files: seq<LocalFile>, missing: seq<string>, read: string -> Option<bytes>)
      returns (upload: Upload, byDigest: map<string, LocalFile>)
    ensures Indexes(byDigest, files)
    ensures upload == After(MAGIC + BigEndian(|missing|, 4), Wanted(missing, byDigest, read))
    ensures Uploads(upload, [68, 89, 78, 80, 65, 67, 75, 49] + BigEndian(|missing|, 4), missing, byDigest, read)
  {
    hide Unhex, TrimPrefix, BigEndian, Unsigned, After, Indexes, Uploads;
    byDigest := IndexByDigest(files);
    UploadMeans(missing, byDigest, read);
    var raw := MAGIC + BigEndian(|missing|, 4);
    ghost var result := After(raw, Wanted(missing, byDigest, read));
    for i := 0 to |missing|
      invariant After(raw, Wanted(missing[i..], byDigest, read)) == result
    {
      assert missing[i..][0] == missing[i] && missing[i..][1..] == missing[i + 1..];
      if missing[i] !in byDigest {
        AfterFailure(raw, UnknownBlob);
        return UnknownBlob, byDigest;
      }
      var file := byDigest[missing[i]];
      var data := read(file.path);
      if data.None? {
        AfterFailure(raw, Unreadable);
        return Unreadable, byDigest;
      }
      AfterOne(raw, missing[i..], byDigest, read);
      raw := raw + Unhex(TrimPrefix(file.digest));
      raw := raw + BigEndian(Unsigned(file.size), 8);
      raw := raw + data.value;
    }
    AfterAll(raw);
    return Packed(raw), byDigest;
  }

  lemma AfterFailure(raw: bytes, upload: Upload)
    requires !upload.Packed?
    ensures After(raw, upload) == upload
  {
  }

  lemma AfterAll(raw: bytes)
    ensures After(raw, Packed([])) == Packed(raw)
  {
    assert raw + [] == raw;
  }

  /** What the publishing writer must find for each requested digest: a known file whose size is
      still right. */
  ghost predicate Available(missing: seq<string>, byDigest: map<string, LocalFile>, read: string -> Option<bytes>,
                            blobs: map<string, bytes>) {
    forall d :: d in missing ==>
      d in byDigest && byDigest[d].digest == d && Matching(File(d, byDigest[d].size), blobs) &&
        read(byDigest[d].path) == Some(Blob(blobs, d))
  }

  function FilesOf(missing: seq<string>, byDigest: map<string, LocalFile>): (files: seq<File>)
    requires forall d :: d in missing ==> d in byDigest
    ensures |files| == |missing|
    ensures forall i :: 0 <= i < |files| ==> files[i] == File(missing[i], byDigest[missing[i]].size)
  {
    seq(|missing|, i requires 0 <= i < |missing| => File(missing[i], byDigest[missing[i]].size))
  }

  lemma PublishedSection(file: LocalFile, data: bytes, blobs: map<string, bytes>)
    requires Matching(File(file.digest, file.size), blobs) && data == Blob(blobs, file.digest)
    ensures Unhex(TrimPrefix(file.digest)) + BigEndian(Unsigned(file.size), 8) + data == Header(File(file.digest, file.size)) + data
  {
    hide Unhex, TrimPrefix, Key, BigEndian, EntryOf;
    var e := EntryOf(File(file.digest, file.size), blobs);
    RawOfKey(e.digest);
    assert (e.digest + seq(32, _ => 0 as byte))[..32] == e.digest;
  }

  /** Both writers produce the same bytes. */
  lemma {:induction false} WritersAgree(missing: seq<string>, byDigest: map<string, LocalFile>,
                                        read: string -> Option<bytes>, blobs: map<string, bytes>)
    requires Available(missing, byDigest, read, blobs)
    ensures Wanted(missing, byDigest, read) == Packed(Sections(FilesOf(missing, byDigest), blobs))
  {
    hide Header, Matching, Unhex, TrimPrefix, BigEndian;
    if missing != [] {
      var file := byDigest[missing[0]];
      var files := FilesOf(missing, byDigest);
      assert files[1..] == FilesOf(missing[1..], byDigest);
      WritersAgree(missing[1..], byDigest, read, blobs);
      PublishedSection(file, Blob(blobs, missing[0]), blobs);
    }
  }

  predicate Unrepeated(missing: seq<string>) {
    forall i, j :: 0 <= i < j < |missing| ==> missing[i] != missing[j]
  }

  /** What an upload of available files holds, read back: accepted exactly when the requested names
      differ and are their contents' hashes, and then every requested blob is there and nothing else. */
  lemma UploadRoundTrip(missing: seq<string>, byDigest: map<string, LocalFile>, read: string -> Option<bytes>,
                        blobs: map<string, bytes>,
                        hash: bytes -> Hash, upload: Upload)
    requires Available(missing, byDigest, read, blobs) && |missing| < 0x1_0000_0000
    requires upload == After(MAGIC + BigEndian(|missing|, 4), Wanted(missing, byDigest, read))
    requires upload.Packed? ==> |upload.raw| <= MAX_SLICE
    ensures upload.Packed?
    ensures Decode(upload.raw, hash).Objects? <==> Unrepeated(missing) && forall d :: d in missing ==> d == Key(hash(Blob(blobs, d)))
    ensures Decode(upload.raw, hash).Objects? ==>
      var objects := Decode(upload.raw, hash).objects;
      |objects| == |missing| && forall d :: d in missing ==> d in objects && objects[d] == Blob(blobs, d)
  {
    hide Decode, Matching, Sections, Wanted, Key, Blob, BigEndian;
    WritersAgree(missing, byDigest, read, blobs);
    var files := FilesOf(missing, byDigest);
    FilesAreMissing(missing, byDigest, blobs, hash);
    forall f | f in files ensures Matching(f, blobs) {
      var i :| 0 <= i < |files| && files[i] == f;
      assert missing[i] in missing;
    }
    EncodeRoundTrip(files, blobs, hash, upload.raw);
    if Decode(upload.raw, hash).Objects? {
      forall d | d in missing ensures d in Decode(upload.raw, hash).objects && Decode(upload.raw, hash).objects[d] == Blob(blobs, d) {
        var i :| 0 <= i < |missing| && missing[i] == d;
        assert files[i] in files;
      }
    }
  }

  lemma FilesAreMissing(missing: seq<string>, byDigest: map<string, LocalFile>, blobs: map<string, bytes>, hash: bytes -> Hash)
    requires forall d :: d in missing ==> d in byDigest
    ensures DistinctDigests(FilesOf(missing, byDigest)) <==> Unrepeated(missing)
    ensures HashesMatch(FilesOf(missing, byDigest), blobs, hash) <==> forall d :: d in missing ==> d == Key(hash(Blob(blobs, d)))
  {
    hide Key, Blob;
    var files := FilesOf(missing, byDigest);
    assert forall i, j :: 0 <= i < j < |missing| ==> (files[i].digest == files[j].digest <==> missing[i] == missing[j]);
    if HashesMatch(files, blobs, hash) {
      forall d | d in missing ensures d == Key(hash(Blob(blobs, d))) {
        var i :| 0 <= i < |missing| && missing[i] == d;
        assert files[i] in files;
      }
    }
    if forall d :: d in missing ==> d == Key(hash(Blob(blobs, d))) {
      forall f | f in files ensures f.digest == Key(hash(Blob(blobs, f.digest))) {
        var i :| 0 <= i < |files| && files[i] == f;
        assert missing[i] in missing;
      }
    }
  }

  /** Two files of equal content, here both empty, make a pack that the reader refuses. */
  lemma EqualFilesAreRefused(hash: bytes -> Hash) returns (files: seq<File>, blobs: map<string, bytes>, pack: bytes)
    ensures |files| == 2 && (forall f :: f in files ==> Matching(f, blobs)) && HashesMatch(files, blobs, hash)
    ensures pack == MAGIC + BigEndian(|files|, 4) + Sections(files, blobs) && Decode(pack, hash).Unverified?
  {
    hide Decode, Key, Genuine;
    var file := File(Key(hash([])), 0);
    files, blobs := [file, file], map[file.digest := []];
    assert Matching(file, blobs);
    RecordsOfFiles(files, blobs);
    var entries := EntriesOf(files, blobs);
    pack := Pack(entries);
    assert Records(entries) == Record(entries[0]) + (Record(entries[1]) + Records(entries[1..][1..]));
    GenuineFiles(files, blobs, hash);
    assert files[0].digest == files[1].digest;
    DecodeOfPack(entries, hash);
  }
}
