/** Framing messages on the native host's byte stream (shellagent/native_host.go): four bytes of
    length, one byte of kind, the payload. The length counts the kind byte. */
module NativeFrames {
  import opened Options
  import opened Bytes

  const MAX_READ := 20 * 1024 * 1024
  const MAX_FRAME := MAX_READ + 1024 * 1024
  const TEXT_KIND: byte := 1
  const BINARY_KIND: byte := 2

  datatype Kind = Text | Binary

  datatype Message = Message(kind: Kind, payload: bytes)

  datatype Error = Cancelled | StreamEnded | InvalidLength | InvalidKind

  datatype Result = Received(message: Message) | Failed(error: Error)

  predicate Fits(m: Message) {
    |m.payload| + 1 <= MAX_FRAME
  }

  function KindByte(kind: Kind): byte {
    if kind.Binary? then BINARY_KIND else TEXT_KIND
  }

  function Frame(m: Message): (f: bytes)
    ensures |f| == 5 + |m.payload|
  {
    BigEndian(|m.payload| + 1, 4) + [KindByte(m.kind)] + m.payload
  }

  function Frames(messages: seq<Message>): bytes {
    if messages == [] then [] else Frame(messages[0]) + Frames(messages[1..])
  }

  // ----- reading, as a function of the bytes still to come

  /** One read: its result and the bytes left on the stream. */
  function Parse(s: bytes): (r: (Result, bytes))
    ensures |r.1| <= |s| && (r.0.Received? ==> |r.1| < |s|)
  {
    if |s| < 5 then (Failed(StreamEnded), [])
    else
      var length := Value(s[..4]);
      if length < 1 || length > MAX_FRAME then (Failed(InvalidLength), s[5..])
      else if |s| < 4 + length then (Failed(StreamEnded), [])
      else
        var (payload, rest) := (s[5..4 + length], s[4 + length..]);
        if s[4] == TEXT_KIND then (Received(Message(Text, payload)), rest)
        else if s[4] == BINARY_KIND then (Received(Message(Binary, payload)), rest)
        else (Failed(InvalidKind), rest)
  }

  /** Reading until the first failure: the messages, the failure, and the bytes left. */
  function ParseAll(s: bytes): (seq<Message>, Error, bytes)
    decreases |s|
  {
    match Parse(s)
    case (Failed(error), rest) => ([], error, rest)
    case (Received(m), rest) =>
      var (messages, error, left) := ParseAll(rest);
      ([m] + messages, error, left)
  }

  /** The same when the context is done after `live` reads. */
  function ParseUpTo(s: bytes, live: nat): (seq<Message>, Error, bytes)
    decreases live
  {
    if live == 0 then ([], Cancelled, s)
    else
      match Parse(s)
      case (Failed(error), rest) => ([], error, rest)
      case (Received(m), rest) =>
        var (messages, error, left) := ParseUpTo(rest, live - 1);
        ([m] + messages, error, left)
  }

  /** The payloads of the text messages. */
  function Texts(messages: seq<Message>): seq<bytes> {
    if messages == [] then []
    else (if messages[0].kind.Text? then [messages[0].payload] else []) + Texts(messages[1..])
  }

  lemma TextsCons(m: Message, rest: seq<Message>)
    ensures Texts([m] + rest) == if m.kind.Text? then [m.payload] + Texts(rest) else Texts(rest)
  {
    assert ([m] + rest)[1..] == rest;
    assert [] + Texts(rest) == Texts(rest);
  }

  lemma TextsStep(texts: seq<bytes>, m: Message, rest: seq<Message>)
    ensures texts + Texts([m] + rest) == (if m.kind.Text? then texts + [m.payload] else texts) + Texts(rest)
  {
    TextsCons(m, rest);
    hide Texts;
    assert texts + ([m.payload] + Texts(rest)) == texts + [m.payload] + Texts(rest);
  }

  lemma NoTexts(texts: seq<bytes>)
    ensures texts + Texts([]) == texts && [] + texts == texts
  {
  }

  /** A context that outlives the stream reads it all; another reads the first messages of it. */
  lemma {:induction false} ParseUpToIsPrefix(s: bytes, live: nat)
    ensures live > |ParseAll(s).0| ==> ParseUpTo(s, live) == ParseAll(s)
    ensures live <= |ParseAll(s).0| ==> ParseUpTo(s, live).0 == ParseAll(s).0[..live] && ParseUpTo(s, live).1 == Cancelled
    decreases live
  {
    hide Parse;
    if live > 0 && Parse(s).0.Received? {
      var (m, rest) := (Parse(s).0.message, Parse(s).1);
      ParseUpToIsPrefix(rest, live - 1);
      var messages := ParseAll(rest).0;
      assert live <= |[m] + messages| ==> ([m] + messages)[..live] == [m] + messages[..live - 1];
    }
  }

  // ----- the bytes of a frame

  /** A frame byte by byte: the length of kind and payload, 1 for text and 2 for binary, the payload. */
  lemma FrameLayout(m: Message)
    ensures var (f, n) := (Frame(m), |m.payload| + 1);
      && f[..4] == [(n / 256 / 256 / 256 % 256) as byte, (n / 256 / 256 % 256) as byte, (n / 256 % 256) as byte, (n % 256) as byte]
      && f[4] == (if m.kind.Binary? then 2 else 1) && f[5..] == m.payload
    ensures Fits(m) <==> |m.payload| <= 22020095
  {
    FieldBytes(|m.payload| + 1);
    hide BigEndian;
  }

  /** One read of a stream: the first thing wrong with its bytes, and where it leaves the stream. */
  ghost predicate ReadsOne(s: bytes, result: Result, rest: bytes) {
    if |s| < 5 then result == Failed(StreamEnded) && rest == []
    else
      var length := ((s[0] as nat * 256 + s[1] as nat) * 256 + s[2] as nat) * 256 + s[3] as nat;
      if length == 0 || length > 22020096 then result == Failed(InvalidLength) && rest == s[5..]
      else if |s| < 4 + length then result == Failed(StreamEnded) && rest == []
      else
        && rest == s[4 + length..]
        && result == if s[4] == 1 then Received(Message(Text, s[5..4 + length]))
        else if s[4] == 2 then Received(Message(Binary, s[5..4 + length])) else Failed(InvalidKind)
  }

  lemma ParseMeans(s: bytes)
    ensures ReadsOne(s, Parse(s).0, Parse(s).1)
  {
    hide Value;
    if |s| >= 5 {
      FieldValue(s[..4]);
    }
  }

  // ----- the writer and the reader agree

  /** The reader takes exactly what the writer emits: a message is read off a stream if and only if
      it is within the writer's limit and the stream begins with its frame. */
  lemma ReadsExactlyFrames(s: bytes, m: Message)
    ensures Parse(s).0 == Received(m) <==> Fits(m) && Frame(m) <= s
    ensures Parse(s).0 == Received(m) ==> s == Frame(m) + Parse(s).1
  {
    hide Value, BigEndian, Pow256;
    FieldSizes();
    if Fits(m) && Frame(m) <= s {
      var length := |m.payload| + 1;
      ValueOfBigEndian(length, 4);
      assert s[..5 + |m.payload|] == Frame(m);
      assert s[..4] == Frame(m)[..4] == BigEndian(length, 4);
      assert s[4] == Frame(m)[4] == KindByte(m.kind);
      assert s[5..4 + length] == Frame(m)[5..] == m.payload;
      assert Parse(s).0 == Received(m);
    }
    if Parse(s).0 == Received(m) {
      BigEndianOfValue(s[..4]);
      assert s == s[..4] + [s[4]] + s[5..4 + Value(s[..4])] + s[4 + Value(s[..4])..];
    }
  }

  lemma ParseFrame(m: Message, t: bytes)
    requires Fits(m)
    ensures Parse(Frame(m) + t) == (Received(m), t)
  {
    hide Frame, Parse;
    ReadsExactlyFrames(Frame(m) + t, m);
    var rest := Parse(Frame(m) + t).1;
    assert rest == (Frame(m) + rest)[|Frame(m)|..] == (Frame(m) + t)[|Frame(m)|..] == t;
  }

  /** Everything written within the limit is read back in order, and what follows is read as if
      the frames had not been there. */
  lemma {:induction false} ParseFrames(messages: seq<Message>, t: bytes)
    requires forall m :: m in messages ==> Fits(m)
    ensures ParseAll(Frames(messages) + t) == (messages + ParseAll(t).0, ParseAll(t).1, ParseAll(t).2)
  {
    hide Parse, Frame;
    if messages == [] {
      assert Frames(messages) + t == t && messages + ParseAll(t).0 == ParseAll(t).0;
    } else {
      var m, rest := messages[0], messages[1..];
      assert Frames(messages) + t == Frame(m) + (Frames(rest) + t);
      ParseFrame(m, Frames(rest) + t);
      ParseFrames(rest, t);
      assert [m] + (rest + ParseAll(t).0) == messages + ParseAll(t).0;
    }
  }

  lemma StreamRoundTrip(messages: seq<Message>)
    requires forall m :: m in messages ==> Fits(m)
    ensures ParseAll(Frames(messages)) == (messages, StreamEnded, [])
  {
    assert Frames(messages) + [] == Frames(messages) && messages + [] == messages;
    ParseFrames(messages, []);
  }

  /** Whatever a stream holds, the messages read from it account for its bytes up to the failure. */
  lemma {:induction false} ReadAccountsForBytes(s: bytes)
    ensures forall m :: m in ParseAll(s).0 ==> Fits(m)
    ensures Frames(ParseAll(s).0) <= s
    ensures Parse(s[|Frames(ParseAll(s).0)|..]) == (Failed(ParseAll(s).1), ParseAll(s).2)
    decreases |s|
  {
    hide Parse, Frame;
    if Parse(s).0.Received? {
      var (m, rest) := (Parse(s).0.message, Parse(s).1);
      ReadsExactlyFrames(s, m);
      ReadAccountsForBytes(rest);
      var messages := ParseAll(rest).0;
      assert ParseAll(s).0 == [m] + messages && ([m] + messages)[1..] == messages;
      assert Frames(ParseAll(s).0) == Frame(m) + Frames(messages);
      assert s[|Frame(m)| + |Frames(messages)|..] == rest[|Frames(messages)|..];
      assert rest == Frames(messages) + rest[|Frames(messages)|..];
      assert s == (Frame(m) + Frames(messages)) + rest[|Frames(messages)|..];
    } else {
      assert s[0..] == s;
    }
  }

  // ----- the socket

  method BuildFrame(m: Message) returns (frame: array<byte>)
    ensures fresh(frame) && frame[..] == Frame(m)
  {
    hide BigEndian;
    frame := new byte[5 + |m.payload|];
    CopyInto(frame, 0, BigEndian(|m.payload| + 1, 4));
    ghost var length := frame[..4];
    assert length == BigEndian(|m.payload| + 1, 4);
    frame[4] := if m.kind == Binary then BINARY_KIND else TEXT_KIND;
    ghost var head := frame[..5];
    assert head == frame[..4] + [frame[4]] && frame[..4] == length;
    CopyInto(frame, 5, m.payload);
    assert frame[..] == head + m.payload;
  }

  lemma TakeSome(got: bytes, buffered: bytes, take: nat, rest: bytes)
    requires take <= |buffered|
    ensures got + buffered[..take] + (buffered[take..] + rest) == got + (buffered + rest)
  {
    assert buffered == buffered[..take] + buffered[take..];
  }

  /** One end of a connection. What the peer wrote arrives in pieces of any sizes. */
  class FrameSocket {
    var buffered: bytes
    var arrivals: seq<bytes>
    var sent: bytes

    constructor (pieces: seq<bytes>)
      ensures Incoming() == Concat(pieces) && sent == []
    {
      buffered, arrivals, sent := [], pieces, [];
      new;
      assert [] + Concat(pieces) == Concat(pieces);
    }

    /** The bytes still to be read, however they are cut. */
    ghost function Incoming(): bytes
      reads this
    {
      buffered + Concat(arrivals)
    }

    /** Read exactly `n` bytes, or everything and fail. */
    method ReadFull(n: nat) returns (data: Option<bytes>)
      modifies `buffered, `arrivals
      ensures n <= |old(Incoming())| ==> data == Some(old(Incoming())[..n]) && Incoming() == old(Incoming())[n..]
      ensures n > |old(Incoming())| ==> data.None? && Incoming() == []
    {
      var got: bytes := [];
      while |got| < n
        invariant |got| <= n
        invariant got + Incoming() == old(Incoming())
        decreases n - |got|, |arrivals|
      {
        if buffered == [] {
          if arrivals == [] {
            return None;
          }
          buffered, arrivals := arrivals[0], arrivals[1..];
        } else {
          var take := if |buffered| < n - |got| then |buffered| else n - |got|;
          TakeSome(got, buffered, take, Concat(arrivals));
          got, buffered := got + buffered[..take], buffered[take..];
        }
      }
      return Some(got);
    }

    method Read(cancelled: bool) returns (result: Result)
      modifies `buffered, `arrivals
      ensures cancelled ==> result == Failed(Cancelled) && Incoming() == old(Incoming())
      ensures !cancelled ==> (result, Incoming()) == Parse(old(Incoming()))
      ensures !cancelled ==> ReadsOne(old(Incoming()), result, Incoming())
    {
      hide Value, Pow256, ReadsOne;
      ParseMeans(Incoming());
      if cancelled {
        return Failed(Cancelled);
      }
      ghost var all := Incoming();
      var header := ReadFull(5);
      if header.None? {
        return Failed(StreamEnded);
      }
      assert header.value[..4] == all[..4] && header.value[4] == all[4];
      var length := Value(header.value[..4]);
      if length < 1 || length > MAX_FRAME {
        return Failed(InvalidLength);
      }
      var payload := ReadFull(length - 1);
      if payload.None? {
        return Failed(StreamEnded);
      }
      assert all[5..][..length - 1] == all[5..4 + length] && all[5..][length - 1..] == all[4 + length..];
      if header.value[4] == TEXT_KIND {
        return Received(Message(Text, payload.value));
      }
      if header.value[4] == BINARY_KIND {
        return Received(Message(Binary, payload.value));
      }
      return Failed(InvalidKind);
    }

    /** The connection takes `room` more bytes before it fails: a frame it cannot take whole is cut
        there, and the writer is told. */
    method Write(cancelled: bool, m: Message, room: nat) returns (ok: bool)
      modifies `sent
      ensures cancelled || |m.payload| > 22020095 ==> !ok && sent == old(sent)
      ensures !cancelled && Fits(m) ==> (ok <==> |Frame(m)| <= room)
      ensures !cancelled && Fits(m) ==> sent == old(sent) + if ok then Frame(m) else Frame(m)[..room]
    {
      hide BigEndian;
      if cancelled || |m.payload| + 1 > MAX_FRAME {
        return false;
      }
      var frame := BuildFrame(m);
      ok := frame.Length <= room;
      sent := sent + if ok then frame[..] else frame[..room];
    }

    /** The control loop's reading: the texts in order, other messages dropped, up to the failure that
        ends it; the context is done after `live` reads. */
    method ReadTexts(live: nat) returns (texts: seq<bytes>, error: Error)
      modifies `buffered, `arrivals
      ensures
        var (messages, failure, left) := ParseUpTo(old(Incoming()), live);
        (texts, error, Incoming()) == (Texts(messages), failure, left)
    {
      hide Parse, Texts, Concat;
      texts := [];
      ghost var all := ParseUpTo(Incoming(), live);
      NoTexts(Texts(all.0));
      var done := 0;
      while true
        invariant done <= live
        invariant texts + Texts(ParseUpTo(Incoming(), live - done).0) == Texts(all.0)
        invariant (ParseUpTo(Incoming(), live - done).1, ParseUpTo(Incoming(), live - done).2) == (all.1, all.2)
        decreases |Incoming()|
      {
        var result := Read(done == live);
        if result.Failed? {
          NoTexts(texts);
          return texts, result.error;
        }
        done := done + 1;
        ghost var rest := ParseUpTo(Incoming(), live - done).0;
        TextsStep(texts, result.message, rest);
        if result.message.kind != Text {
          continue;
        }
        texts := texts + [result.message.payload];
      }
    }
  }
}
