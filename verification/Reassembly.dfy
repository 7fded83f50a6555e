/** The receiving side of `DGD1` datagrams: a table of partial messages with expiry, a cap of
    256 entries with oldest-first eviction, and a size limit (shellagent/network_bridge.go). */
module Reassembly {
  import opened Options
  import opened Bytes
  import opened Datagrams

  const EXPIRY_MS := 2000
  const MAX_PENDING := 256

  /** A partial message. A missing fragment is empty, as Go's nil slice is. */
  datatype Assembly = Assembly(fragments: seq<bytes>, updatedAt: int)

  type Table = map<bytes, Assembly>

  // ----- table keys

  const COLON: byte := 58

  /** Decimal digits, as Go's %d prints a number. */
  function Decimal(n: nat): (d: bytes)
    ensures COLON !in d
  {
    var digit := (48 + n % 10) as byte;
    if n < 10 then [digit] else Decimal(n / 10) + [digit]
  }

  function DecimalValue(d: bytes): int {
    if d == [] then 0 else DecimalValue(d[..|d| - 1]) * 10 + d[|d| - 1] as int - 48
  }

  lemma {:induction false} DecimalRoundTrip(n: nat)
    ensures DecimalValue(Decimal(n)) == n
  {
    if n >= 10 {
      DecimalRoundTrip(n / 10);
      assert Decimal(n)[..|Decimal(n)| - 1] == Decimal(n / 10);
    }
  }

  function Key(id: bytes, messageId: nat): (k: bytes)
    ensures k != []
  {
    id + [COLON] + Decimal(messageId)
  }

  /** Keys name one message even when the bridge id itself contains colons or digits. */
  lemma KeyInjective(a: bytes, m: nat, b: bytes, n: nat)
    requires Key(a, m) == Key(b, n)
    ensures a == b && m == n
  {
    LastColon(a, Decimal(m), b, Decimal(n));
    DecimalRoundTrip(m);
    DecimalRoundTrip(n);
  }

  lemma LastColon(a: bytes, d: bytes, b: bytes, e: bytes)
    requires a + [COLON] + d == b + [COLON] + e
    requires COLON !in d && COLON !in e
    ensures a == b && d == e
  {
    var s, t := a + [COLON] + d, b + [COLON] + e;
    assert s[|a|] == COLON && forall i :: |a| < i < |s| ==> s[i] != COLON;
    assert t[|b|] == COLON && forall i :: |b| < i < |t| ==> t[i] != COLON;
    assert |a| == |b|;
    assert s[..|a|] == a && s[|a| + 1..] == d;
    assert t[..|b|] == b && t[|b| + 1..] == e;
  }

  // ----- one frame's effect on the table

  /** The entries that have not expired. */
  function Live(t: Table, now: int): (r: Table)
    ensures r.Keys <= t.Keys
  {
    map k | k in t && now - t[k].updatedAt <= EXPIRY_MS :: t[k]
  }

  /** `v` is a key whose entry nothing else is older than. Go's map order breaks the ties. */
  ghost predicate Oldest(t: Table, v: bytes) {
    v in t && forall k :: k in t ==> t[v].updatedAt <= t[k].updatedAt
  }

  function Blank(count: nat): seq<bytes> {
    seq(count, _ => [])
  }

  /** The table with an assembly of `count` fragments under `key`, evicting `victim` if it must. */
  function Opened(t: Table, key: bytes, count: nat, now: int, victim: bytes): Table {
    if key in t && |t[key].fragments| == count then t
    else
      var room := if key !in t && |t| >= MAX_PENDING then t - {victim} else t;
      room[key := Assembly(Blank(count), now)]
  }

  function Stored(t: Table, key: bytes, index: nat, body: bytes, now: int): Table
    requires key in t && index < |t[key].fragments|
  {
    t[key := Assembly(t[key].fragments[index := body], now)]
  }

  datatype Scan = Incomplete | Oversize | Complete

  /** The scan over the fragments in order: whichever comes first of a gap and an overflow decides. */
  function ScanFrom(parts: seq<bytes>, total: nat): Scan {
    if parts == [] then Complete
    else if parts[0] == [] then Incomplete
    else if total + |parts[0]| > MAX_BODY then Oversize
    else ScanFrom(parts[1..], total + |parts[0]|)
  }

  /** An overflow is found exactly when the slots before the first gap exceed 65535 bytes; the scan
      completes exactly when there is no gap and all slots together fit. */
  lemma {:induction false} ScanMeans(parts: seq<bytes>, total: nat)
    requires total <= 65535
    ensures ScanFrom(parts, total) == Oversize <==>
      exists n: nat :: n <= |parts| && [] !in parts[..n] && total + |Concat(parts[..n])| > 65535
    ensures ScanFrom(parts, total) == Complete <==> [] !in parts && total + |Concat(parts)| <= 65535
  {
    assert parts[..0] == [];
    if parts != [] {
      assert parts == [parts[0]] + parts[1..];
      forall n: nat | 0 < n <= |parts| ensures parts[..n] == [parts[0]] + parts[1..][..n - 1] {
      }
      assert parts[..1] == [parts[0]] + [];
      if parts[0] != [] && total + |parts[0]| <= 65535 {
        ScanMeans(parts[1..], total + |parts[0]|);
        TakeMore(parts, total);
      }
    }
  }

  lemma TakeMore(parts: seq<bytes>, total: nat)
    requires parts != [] && parts[0] != [] && total + |parts[0]| <= 65535
    ensures (exists n: nat :: n <= |parts| && [] !in parts[..n] && total + |Concat(parts[..n])| > 65535) <==>
      exists n: nat :: n <= |parts[1..]| && [] !in parts[1..][..n] && total + |parts[0]| + |Concat(parts[1..][..n])| > 65535
  {
    var rest := parts[1..];
    if n: nat :| n <= |parts| && [] !in parts[..n] && total + |Concat(parts[..n])| > 65535 {
      assert n > 0 && parts[..n] == [parts[0]] + rest[..n - 1];
      assert parts[..n][1..] == rest[..n - 1];
    }
    if n: nat :| n <= |rest| && [] !in rest[..n] && total + |parts[0]| + |Concat(rest[..n])| > 65535 {
      assert parts[..n + 1] == [parts[0]] + rest[..n];
      assert parts[..n + 1][1..] == rest[..n];
    }
  }

  type Delivery = Option<(bytes, bytes)>

  /** What one received frame does: the new table and what is delivered, if anything. */
  function Step(t: Table, frame: bytes, now: int, victim: bytes): (Table, Delivery) {
    match Decode(frame)
    case None => (t, None)
    case Some(f) =>
      if f.count == 1 then (t, Some((f.id, f.body))) else AddFragment(t, f, now, victim)
  }

  function Updated(t: Table, f: Fragment, now: int, victim: bytes): Table
    requires f.index < f.count
  {
    var key := Key(f.id, f.messageId);
    Stored(Opened(Live(t, now), key, f.count, now, victim), key, f.index, f.body, now)
  }

  function AddFragment(t: Table, f: Fragment, now: int, victim: bytes): (Table, Delivery)
    requires f.index < f.count
  {
    var key := Key(f.id, f.messageId);
    var updated := Updated(t, f, now, victim);
    match ScanFrom(updated[key].fragments, 0)
    case Incomplete => (updated, None)
    case Oversize => (updated - {key}, None)
    case Complete => (updated - {key}, Some((f.id, Concat(updated[key].fragments))))
  }

  /** A table entry is at most two seconds old. */
  ghost predicate Young(t: Table, key: bytes, now: int) {
    key in t && now - t[key].updatedAt <= 2000
  }

  /** The other entries: what is left is at most two seconds old and as it was, and everything that
      young is left, but for an oldest one when 256 of them are in a new entry's way. */
  ghost predicate OthersKept(t: Table, key: bytes, now: int, victim: bytes, t': Table) {
    var full := !Young(t, key, now) && |set k | k in t && Young(t, k, now)| >= 256;
    && (forall k :: k in t' && k != key ==> Young(t, k, now) && t'[k] == t[k])
    && (forall k :: Young(t, k, now) && k != key && !(full && k == victim) ==> k in t')
    && (full ==> Young(t, victim, now) && victim !in t' && forall k :: Young(t, k, now) ==> t[victim].updatedAt <= t[k].updatedAt)
  }

  /** The fragments of the message's own entry: the old ones if it was that young and of this size,
      else none, and the new one in its place. */
  ghost predicate OwnSlots(t: Table, key: bytes, f: Fragment, now: int, slots: seq<bytes>) {
    && |slots| == f.count && f.index < f.count && slots[f.index] == f.body
    && forall k :: 0 <= k < |slots| && k != f.index ==>
      slots[k] == if Young(t, key, now) && |t[key].fragments| == f.count then t[key].fragments[k] else []
  }

  /** Complete and small enough, the message is delivered and its entry goes; too large, it goes;
      else it stays. */
  ghost predicate Decided(key: bytes, f: Fragment, now: int, slots: seq<bytes>, t': Table, d: Delivery) {
    if [] !in slots && |Concat(slots)| <= 65535 then
      d == Some((f.id, Concat(slots))) && key !in t'
    else if exists n: nat :: n <= |slots| && [] !in slots[..n] && |Concat(slots[..n])| > 65535 then
      d == None && key !in t'
    else d == None && key in t' && t'[key] == Assembly(slots, now)
  }

  lemma LiveMeans(t: Table, now: int)
    ensures Live(t, now).Keys == set k | k in t && Young(t, k, now)
    ensures forall k :: k in Live(t, now) <==> Young(t, k, now)
    ensures forall k :: k in Live(t, now) ==> Live(t, now)[k] == t[k]
  {
  }

  lemma UpdatedKeepsOthers(t: Table, f: Fragment, now: int, victim: bytes)
    requires f.index < f.count
    requires Key(f.id, f.messageId) !in Live(t, now) && |Live(t, now)| >= MAX_PENDING ==> Oldest(Live(t, now), victim)
    ensures OthersKept(t, Key(f.id, f.messageId), now, victim, Updated(t, f, now, victim))
    ensures OthersKept(t, Key(f.id, f.messageId), now, victim, Updated(t, f, now, victim) - {Key(f.id, f.messageId)})
  {
    hide Key, Live, Young;
    LiveMeans(t, now);
    var key, live := Key(f.id, f.messageId), Live(t, now);
    var updated := Updated(t, f, now, victim);
    assert forall k :: k in updated && k != key ==> k in live && updated[k] == live[k];
    assert forall k :: k in live && k != key && !(key !in live && |live| >= 256 && k == victim) ==> k in updated;
  }

  lemma UpdatedHasSlots(t: Table, f: Fragment, now: int, victim: bytes)
    requires f.index < f.count
    ensures Key(f.id, f.messageId) in Updated(t, f, now, victim)
    ensures var a := Updated(t, f, now, victim)[Key(f.id, f.messageId)];
      a.updatedAt == now && OwnSlots(t, Key(f.id, f.messageId), f, now, a.fragments)
  {
    hide Key, Live, Young;
    LiveMeans(t, now);
  }

  /** What a fragment of a longer message does to the table and delivers. */
  lemma FragmentReceived(t: Table, f: Fragment, now: int, victim: bytes)
    requires f.index < f.count
    requires Key(f.id, f.messageId) !in Live(t, now) && |Live(t, now)| >= MAX_PENDING ==> Oldest(Live(t, now), victim)
    ensures var (t', d) := AddFragment(t, f, now, victim);
      var slots := Updated(t, f, now, victim)[Key(f.id, f.messageId)].fragments;
      && OthersKept(t, Key(f.id, f.messageId), now, victim, t')
      && OwnSlots(t, Key(f.id, f.messageId), f, now, slots)
      && Decided(Key(f.id, f.messageId), f, now, slots, t', d)
  {
    hide Key, ScanFrom, Concat, Live, Young, OthersKept, OwnSlots, Updated;
    UpdatedKeepsOthers(t, f, now, victim);
    UpdatedHasSlots(t, f, now, victim);
    ScanMeans(Updated(t, f, now, victim)[Key(f.id, f.messageId)].fragments, 0);
  }

  /** Whether this frame needs an entry evicted. */
  predicate Evicts(t: Table, frame: bytes, now: int) {
    match Decode(frame)
    case None => false
    case Some(f) => f.count != 1 && Key(f.id, f.messageId) !in Live(t, now) && |Live(t, now)| >= MAX_PENDING
  }

  /** The victims the eviction loop can choose, whatever order the map is walked in. */
  ghost predicate LegalVictim(t: Table, frame: bytes, now: int, victim: bytes) {
    Evicts(t, frame, now) ==> Oldest(Live(t, now), victim)
  }

  // ----- the code

  class Receiver {
    var pending: Table

    /** No key is empty, which is how the eviction loop tells "none yet" apart. */
    ghost predicate Valid()
      reads this
    {
      [] !in pending
    }

    constructor ()
      ensures Valid() && pending == map[]
    {
      pending := map[];
    }

    /** Drop the entries older than two seconds. */
    method Expire(now: int)
      modifies this
      ensures pending == Live(old(pending), now)
      ensures forall k :: k in pending <==> k in old(pending) && now - old(pending)[k].updatedAt <= 2000
      ensures forall k :: k in pending ==> pending[k] == old(pending)[k]
    {
      var keys := pending.Keys;
      ghost var before := pending;
      while keys != {}
        invariant keys <= before.Keys
        invariant pending == map k | k in before && (k in keys || now - before[k].updatedAt <= EXPIRY_MS) :: before[k]
        decreases |keys|
      {
        var key :| key in keys;
        if now - pending[key].updatedAt > EXPIRY_MS {
          pending := pending - {key};
        }
        keys := keys - {key};
      }
    }

    /** Find an entry to evict. */
    method FindOldest() returns (oldest: bytes)
      requires Valid() && |pending| > 0
      ensures Oldest(pending, oldest)
    {
      var oldestTime := 0;
      var keys := pending.Keys;
      assert |keys| > 0;
      oldest := [];
      while keys != {}
        invariant keys <= pending.Keys
        invariant oldest == [] ==> keys == pending.Keys
        invariant oldest != [] ==> oldest in pending && oldestTime == pending[oldest].updatedAt
        invariant oldest != [] ==> forall k :: k in pending && k !in keys ==> oldestTime <= pending[k].updatedAt
        decreases |keys|
      {
        var key :| key in keys;
        if oldest == [] || pending[key].updatedAt < oldestTime {
          oldest, oldestTime := key, pending[key].updatedAt;
        }
        keys := keys - {key};
      }
    }

    /** Find the fragment scan's verdict: gaps first, then the size limit, in index order. */
    method ScanParts(parts: seq<bytes>) returns (verdict: Scan)
      ensures verdict == ScanFrom(parts, 0)
    {
      var total: nat := 0;
      for i := 0 to |parts|
        invariant ScanFrom(parts, 0) == ScanFrom(parts[i..], total)
      {
        assert parts[i..][1..] == parts[i + 1..];
        if parts[i] == [] {
          return Incomplete;
        }
        total := total + |parts[i]|;
        if total > MAX_BODY {
          return Oversize;
        }
      }
      return Complete;
    }

    method Join(parts: seq<bytes>) returns (body: bytes)
      ensures body == Concat(parts)
    {
      body := [];
      for i := 0 to |parts|
        invariant body + Concat(parts[i..]) == Concat(parts)
      {
        assert parts[i..][1..] == parts[i + 1..];
        body := body + parts[i];
      }
    }

    /** Put one received frame into the table; deliver the message it completes. `slots` are the
        fragments of its entry once it is in. */
    method Receive(frame: bytes, now: int) returns (delivered: Delivery, ghost victim: bytes, ghost slots: seq<bytes>)
      requires Valid()
      modifies this
      ensures Valid()
      ensures LegalVictim(old(pending), frame, now, victim)
      ensures (pending, delivered) == Step(old(pending), frame, now, victim)
      // Noise and messages of one fragment do not touch the table.
      ensures Decode(frame) == None ==> pending == old(pending) && delivered == None
      ensures Decode(frame).Some? && Decode(frame).value.count == 1 ==>
        pending == old(pending) && delivered == Some((Decode(frame).value.id, Decode(frame).value.body))
      ensures Decode(frame).Some? && Decode(frame).value.count != 1 ==>
        var f := Decode(frame).value;
        var key := Key(f.id, f.messageId);
        && OthersKept(old(pending), key, now, victim, pending)
        && OwnSlots(old(pending), key, f, now, slots)
        && Decided(key, f, now, slots, pending, delivered)
    {
      hide Decode, Key, OthersKept, OwnSlots, Decided, Young, Concat;
      victim := [];
      slots := [];
      var decoded := Decode(frame);
      if decoded == None {
        return None, victim, slots;
      }
      var f := decoded.value;
      if f.count == 1 {
        return Some((f.id, f.body)), victim, slots;
      }
      Expire(now);
      var key := Key(f.id, f.messageId);
      if key !in pending || |pending[key].fragments| != f.count {
        if key !in pending && |pending| >= MAX_PENDING {
          var oldest := FindOldest();
          victim := oldest;
          pending := pending - {oldest};
        }
        pending := pending[key := Assembly(Blank(f.count), now)];
      }
      pending := pending[key := Assembly(pending[key].fragments[f.index := f.body], now)];
      var parts := pending[key].fragments;
      slots := parts;
      FragmentReceived(old(pending), f, now, victim);
      var verdict := ScanParts(parts);
      match verdict
      case Incomplete => delivered := None;
      case Oversize =>
        pending := pending - {key};
        delivered := None;
      case Complete =>
        pending := pending - {key};
        var body := Join(parts);
        delivered := Some((f.id, body));
    }
  }
}
