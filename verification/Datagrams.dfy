/** UDP datagrams cut into 1000-byte `DGD1` frames: the encoder, the frame decoder, and
    their inverse laws (shellagent/network_bridge.go). */
module Datagrams {
  import opened Options
  import opened Bytes

  const PACKET_BYTES := 1000
  const HEADER_BYTES := 14
  const MAX_BODY := 65535
  const MAX_FRAGMENTS := 128
  const MAGIC: bytes := [68, 71, 68, 49]  // "DGD1"

  datatype Fragment = Fragment(id: bytes, messageId: nat, index: nat, count: nat, body: bytes)

  /** One message as its sender sees it. */
  datatype Message = Message(id: bytes, messageId: nat, body: bytes)

  // ----- cutting a body into parts

  function FragmentBytes(id: bytes): int {
    PACKET_BYTES - HEADER_BYTES - |id|
  }

  /** What the encoder accepts: anything else it answers with no frames at all. */
  predicate Encodable(id: bytes, body: bytes) {
    |id| != 0 && |id| <= 0xffff && |body| <= MAX_BODY && FragmentBytes(id) >= 1
  }

  function Max(a: int, b: int): int {
    if a < b then b else a
  }

  function Min(a: int, b: int): int {
    if a < b then a else b
  }

  /** How many pieces of at most `size` bytes a body needs; an empty body is still one piece. */
  function PieceCount(length: nat, size: nat): (n: nat)
    requires size > 0
    ensures n >= 1
  {
    Max(1, (length + size - 1) / size)
  }

  /** The body cut greedily from the front: the meaning the encoder's offsets must agree with. */
  function Parts(body: bytes, size: nat): (parts: seq<bytes>)
    requires size > 0
    ensures |parts| >= 1
    ensures Concat(parts) == body
    ensures forall k :: 0 <= k < |parts| ==> |parts[k]| <= size
    ensures |parts| > 1 ==> forall k :: 0 <= k < |parts| ==> parts[k] != []
    decreases |body|
  {
    if |body| <= size then [body] else [body[..size]] + Parts(body[size..], size)
  }

  /** The greedy cut has exactly the number of pieces the encoder computes. */
  lemma {:induction false} PartsCount(body: bytes, size: nat)
    requires size > 0
    ensures |Parts(body, size)| == PieceCount(|body|, size)
    decreases |body|
  {
    if |body| > size {
      PartsCount(body[size..], size);
      PieceStep(|body|, size);
    } else {
      DivideUp(|body|, size, 1);
    }
  }

  /** The piece of at most `size` bytes that starts at `at`. */
  function Piece(body: bytes, at: nat, size: nat): bytes
    requires at <= |body|
  {
    body[at..Min(|body|, at + size)]
  }

  lemma PieceShift(body: bytes, at: nat, size: nat)
    requires at + size <= |body|
    ensures Piece(body[size..], at, size) == Piece(body, at + size, size)
  {
  }

  /** Piece `k` of the greedy cut lies where the encoder's offsets put it. */
  lemma {:induction false} PartAt(body: bytes, size: nat, k: nat, at: nat)
    requires size > 0 && k < |Parts(body, size)| && at == k * size
    ensures at <= |body| && Parts(body, size)[k] == Piece(body, at, size)
    decreases k
  {
    hide Piece;
    if k == 0 {
      FirstPart(body, size);
    } else {
      Predecessor(k, size);
      PartAt(body[size..], size, k - 1, at - size);
      PieceShift(body, at - size, size);
    }
  }

  lemma FirstPart(body: bytes, size: nat)
    requires size > 0
    ensures Parts(body, size)[0] == Piece(body, 0, size)
  {
  }

  lemma Predecessor(k: nat, size: nat)
    requires k > 0
    ensures k * size - size == (k - 1) * size >= 0
  {
  }

  lemma PieceStep(length: nat, size: nat)
    requires 0 < size < length
    ensures PieceCount(length, size) == 1 + PieceCount(length - size, size)
  {
    var x := length - 1;
    Quotient(x + size, size, x / size + 1, x % size);
    DivideUp(length - size, size, 0);
  }

  lemma Quotient(x: nat, size: nat, q: int, r: int)
    requires size > 0 && 0 <= r < size && x == q * size + r
    ensures x / size == q
  {
    var d := x / size - q;
    assert d * size == r - x % size;
    assert d >= 1 ==> d * size >= size;
    assert d <= -1 ==> d * size <= -1 * size;
  }

  lemma DivideUp(length: nat, size: nat, limit: nat)
    requires 0 < size
    ensures (length + size - 1) / size <= limit <==> length <= limit * size
  {
    var q := (length + size - 1) / size;
    assert q * size <= length + size - 1 < q * size + size;
    if q <= limit {
      assert q * size <= limit * size;
    } else {
      assert (limit + 1) * size <= q * size;
    }
  }

  // ----- frames

  /** The bytes of one frame. */
  function Frame(f: Fragment): bytes {
    MAGIC + BigEndian(f.messageId, 4) + BigEndian(f.index, 2) + BigEndian(f.count, 2) + BigEndian(|f.id|, 2) + f.id + f.body
  }

  function PartsOf(m: Message): seq<bytes>
    requires Encodable(m.id, m.body)
  {
    Parts(m.body, FragmentBytes(m.id))
  }

  function FragmentOf(m: Message, k: nat): Fragment
    requires Encodable(m.id, m.body) && k < |PartsOf(m)|
  {
    Fragment(m.id, m.messageId, k, |PartsOf(m)|, PartsOf(m)[k])
  }

  /** Every frame of a message, in order. */
  function Frames(m: Message): seq<bytes> {
    if Encodable(m.id, m.body) then seq(|PartsOf(m)|, k requires 0 <= k < |PartsOf(m)| => Frame(FragmentOf(m, k))) else []
  }

  /** The fragments the decoder can produce. */
  predicate WellFormed(f: Fragment) {
    && f.messageId < 0x1_0000_0000
    && 0 < f.count <= MAX_FRAGMENTS
    && f.index < f.count
    && f.id != []
    && HEADER_BYTES + |f.id| + |f.body| <= PACKET_BYTES
  }

  function Decode(frame: bytes): (d: Option<Fragment>)
    ensures d.Some? ==> d.value.index < d.value.count <= 128
  {
    if |frame| < HEADER_BYTES || |frame| > PACKET_BYTES || frame[..4] != MAGIC then None
    else
      var index := Value(frame[8..10]);
      var count := Value(frame[10..12]);
      var idLength := Value(frame[12..14]);
      if count == 0 || count > MAX_FRAGMENTS || index >= count || idLength == 0 || HEADER_BYTES + idLength > |frame| then None
      else Some(Fragment(frame[HEADER_BYTES..HEADER_BYTES + idLength], Value(frame[4..8]), index, count, frame[HEADER_BYTES + idLength..]))
  }

  lemma FrameFields(f: Fragment)
    ensures var frame := Frame(f);
      && |frame| == HEADER_BYTES + |f.id| + |f.body|
      && frame[..4] == [68, 71, 68, 49]
      && frame[4..8] == BigEndian(f.messageId, 4)
      && frame[8..10] == BigEndian(f.index, 2)
      && frame[10..12] == BigEndian(f.count, 2)
      && frame[12..14] == BigEndian(|f.id|, 2)
      && frame[14..14 + |f.id|] == f.id
      && frame[14 + |f.id|..] == f.body
  {
    hide BigEndian;
  }

  /** A well-formed fragment survives the wire. */
  lemma DecodeOfFrame(f: Fragment)
    requires WellFormed(f)
    ensures Decode(Frame(f)) == Some(f)
  {
    hide BigEndian, Value, Frame;
    FrameFields(f);
    FieldSizes();
    ValueOfBigEndian(f.messageId, 4);
    ValueOfBigEndian(f.index, 2);
    ValueOfBigEndian(f.count, 2);
    ValueOfBigEndian(|f.id|, 2);
  }

  /** Every accepted frame is the one encoding of what it decodes to, and nothing else is accepted. */
  lemma FrameOfDecode(frame: bytes)
    ensures Decode(frame).Some? ==> WellFormed(Decode(frame).value) && Frame(Decode(frame).value) == frame
    ensures Decode(frame).Some? <==> exists f :: WellFormed(f) && Frame(f) == frame
  {
    if Decode(frame).Some? {
      var f := Decode(frame).value;
      FieldSizes();
      BigEndianOfValue(frame[4..8]);
      BigEndianOfValue(frame[8..10]);
      BigEndianOfValue(frame[10..12]);
      BigEndianOfValue(frame[12..14]);
      assert frame == frame[..4] + frame[4..8] + frame[8..10] + frame[10..12] + frame[12..14] + f.id + f.body;
    }
    if f :| WellFormed(f) && Frame(f) == frame {
      DecodeOfFrame(f);
    }
  }

  // ----- the encoder's and the decoder's limits together

  /** The decoder takes every frame of a message, unless the message needs more than 128
      fragments; then it takes none. */
  lemma FramesDecode(m: Message, k: nat)
    requires Encodable(m.id, m.body) && m.messageId < 0x1_0000_0000 && k < |PartsOf(m)|
    ensures Decode(Frames(m)[k]) == if |PartsOf(m)| <= MAX_FRAGMENTS then Some(FragmentOf(m, k)) else None
  {
    var f := FragmentOf(m, k);
    FieldSizes();
    if |PartsOf(m)| <= MAX_FRAGMENTS {
      DecodeOfFrame(f);
    } else {
      PartsCount(m.body, FragmentBytes(m.id));
      CountFits(|m.body|, FragmentBytes(m.id));
      ValueOfBigEndian(f.count, 2);
      FrameFields(f);
    }
  }

  /** The encoder's own guard on 0xffff fragments can never fire. */
  lemma CountFits(length: nat, size: nat)
    requires 0 < size && length <= MAX_BODY
    ensures PieceCount(length, size) <= 0xffff
  {
    if length > 0 {
      DivideUp(length, size, 0xffff);
    }
  }

  /** A message gets through exactly when its body fits 128 fragments; every body up to 65535
      bytes does exactly for ids of 1 to 474 bytes. */
  lemma ReassemblyBound(m: Message)
    requires Encodable(m.id, m.body)
    ensures |PartsOf(m)| <= MAX_FRAGMENTS <==> |m.body| <= MAX_FRAGMENTS * FragmentBytes(m.id)
    ensures |m.id| <= 474 ==> |PartsOf(m)| <= MAX_FRAGMENTS
    ensures |m.id| > 474 && |m.body| == MAX_BODY ==> |PartsOf(m)| > MAX_FRAGMENTS
  {
    PartsCount(m.body, FragmentBytes(m.id));
    DivideUp(|m.body|, FragmentBytes(m.id), MAX_FRAGMENTS);
  }

  // ----- the encoder

  /** One frame, built in a buffer of its final size. */
  method BuildFrame(f: Fragment) returns (frame: array<byte>)
    ensures fresh(frame) && frame[..] == Frame(f)
  {
    frame := new byte[HEADER_BYTES + |f.id| + |f.body|](_ => 0);
    CopyInto(frame, 0, MAGIC);
    assert frame[..4] == MAGIC;
    CopyInto(frame, 4, BigEndian(f.messageId, 4));
    assert frame[..8] == MAGIC + BigEndian(f.messageId, 4);
    CopyInto(frame, 8, BigEndian(f.index, 2));
    CopyInto(frame, 10, BigEndian(f.count, 2));
    assert frame[..12] == MAGIC + BigEndian(f.messageId, 4) + BigEndian(f.index, 2) + BigEndian(f.count, 2);
    CopyInto(frame, 12, BigEndian(|f.id|, 2));
    CopyInto(frame, HEADER_BYTES, f.id);
    assert frame[..HEADER_BYTES + |f.id|] == MAGIC + BigEndian(f.messageId, 4) + BigEndian(f.index, 2) +
      BigEndian(f.count, 2) + BigEndian(|f.id|, 2) + f.id;
    CopyInto(frame, HEADER_BYTES + |f.id|, f.body);
  }

  /** Frame `index` of a message, from the offset the encoder computes for it. */
  method FrameAt(m: Message, index: nat, fragmentCount: nat, fragmentBytes: nat) returns (frame: array<byte>)
    requires Encodable(m.id, m.body) && fragmentBytes == FragmentBytes(m.id)
    requires index < fragmentCount == |PartsOf(m)|
    ensures fresh(frame) && frame[..] == Frames(m)[index]
  {
    hide Parts, Frame;
    var start := index * fragmentBytes;
    PartAt(m.body, fragmentBytes, index, start);
    var end := Min(|m.body|, start + fragmentBytes);
    var fragment := Fragment(m.id, m.messageId, index, fragmentCount, m.body[start..end]);
    assert fragment == FragmentOf(m, index);
    frame := BuildFrame(fragment);
  }

  method FramesFrom(m: Message, fragmentBytes: nat, fragmentCount: nat) returns (frames: seq<bytes>)
    requires Encodable(m.id, m.body) && fragmentBytes == FragmentBytes(m.id)
    requires fragmentCount == PieceCount(|m.body|, fragmentBytes)
    ensures frames == Frames(m)
  {
    hide Parts, Frame, PieceCount;
    PartsCount(m.body, fragmentBytes);
    frames := [];
    for index := 0 to fragmentCount
      invariant frames == Frames(m)[..index]
    {
      var frame := FrameAt(m, index, fragmentCount, fragmentBytes);
      frames := frames + [frame[..]];
    }
  }

  /** The message counter after one packet: it moves only when frames are produced, and wraps at 2^32. */
  function AfterPacket(counter: nat, id: bytes, body: bytes): nat {
    if Encodable(id, body) then (counter + 1) % 0x1_0000_0000 else counter
  }

  /** The sending side, with its process-wide message counter. */
  class Sender {
    var counter: nat

    ghost predicate Valid()
      reads this
    {
      counter < 0x1_0000_0000
    }

    constructor ()
      ensures Valid() && counter == 0
    {
      counter := 0;
    }

    /** Encode one packet. */
    method Encode(id: bytes, body: bytes) returns (frames: seq<bytes>)
      requires Valid()
      modifies this
      ensures Valid()
      ensures counter == AfterPacket(old(counter), id, body)
      ensures frames == Frames(Message(id, counter, body))
      ensures frames != [] <==> 1 <= |id| <= 985 && |body| <= 65535
      ensures counter == if frames != [] then (old(counter) + 1) % 0x1_0000_0000 else old(counter)
    {
      var fragmentBytes := FragmentBytes(id);
      if |id| == 0 || |id| > 0xffff || |body| > MAX_BODY || fragmentBytes < 1 {
        return [];
      }
      var fragmentCount := PieceCount(|body|, fragmentBytes);
      CountFits(|body|, fragmentBytes);
      if fragmentCount > 0xffff {
        assert false;
      }
      counter := (counter + 1) % 0x1_0000_0000;
      frames := FramesFrom(Message(id, counter, body), fragmentBytes, fragmentCount);
    }
  }

  /** The messages that successive `Encode` calls send, from a counter value on. */
  function SentMessages(counter: nat, packets: seq<(bytes, bytes)>): seq<Message>
    decreases |packets|
  {
    if packets == [] then []
    else
      var (id, body) := packets[0];
      var next := AfterPacket(counter, id, body);
      (if Encodable(id, body) then [Message(id, next, body)] else []) + SentMessages(next, packets[1..])
  }

  lemma {:induction false} SentCount(counter: nat, packets: seq<(bytes, bytes)>)
    ensures |SentMessages(counter, packets)| <= |packets|
    decreases |packets|
  {
    hide Encodable, AfterPacket;
    if packets != [] {
      SentCount(AfterPacket(counter, packets[0].0, packets[0].1), packets[1..]);
    }
  }

  lemma SentFirst(counter: nat, packets: seq<(bytes, bytes)>)
    requires packets != []
    ensures
      var (id, body) := packets[0];
      var next := AfterPacket(counter, id, body);
      SentMessages(counter, packets) ==
      (if Encodable(id, body) then [Message(id, next, body)] else []) + SentMessages(next, packets[1..])
  {
    hide Encodable, AfterPacket;
    var next := AfterPacket(counter, packets[0].0, packets[0].1);
    assert [] + SentMessages(next, packets[1..]) == SentMessages(next, packets[1..]);
  }

  /** The messages are numbered on from the counter. */
  lemma {:induction false} SentNumbers(counter: nat, packets: seq<(bytes, bytes)>, k: nat)
    requires counter < 0x1_0000_0000 && k < |SentMessages(counter, packets)|
    ensures
      var m := SentMessages(counter, packets)[k];
      m.messageId == (counter + 1 + k) % 0x1_0000_0000 && Encodable(m.id, m.body)
    decreases |packets|
  {
    assert packets != [];
    SentFirst(counter, packets);
    hide SentMessages, Encodable;
    var (id, body) := packets[0];
    var next := AfterPacket(counter, id, body);
    if Encodable(id, body) {
      if k > 0 {
        SentNumbers(next, packets[1..], k - 1);
        Wrapped(counter, k);
      }
    } else {
      SentNumbers(next, packets[1..], k);
    }
  }

  lemma Wrapped(counter: nat, k: nat)
    requires k > 0
    ensures ((counter + 1) % 0x1_0000_0000 + k) % 0x1_0000_0000 == (counter + 1 + k) % 0x1_0000_0000
  {
  }

  /** Two messages of one sender share a message id exactly when a multiple of 2^32 messages lies
      between them, so any 2^32 successive ones are told apart. */
  lemma MessageIdsRepeat(counter: nat, packets: seq<(bytes, bytes)>, i: nat, j: nat)
    requires counter < 0x1_0000_0000 && i <= j < |SentMessages(counter, packets)|
    ensures
      var sent := SentMessages(counter, packets);
      sent[i].messageId == sent[j].messageId <==> (j - i) % 0x1_0000_0000 == 0
  {
    SentNumbers(counter, packets, i);
    SentNumbers(counter, packets, j);
    SameRemainder(counter + 1 + i, counter + 1 + j);
  }

  lemma SameRemainder(a: nat, b: nat)
    requires a <= b
    ensures a % 0x1_0000_0000 == b % 0x1_0000_0000 <==> (b - a) % 0x1_0000_0000 == 0
  {
  }
}
