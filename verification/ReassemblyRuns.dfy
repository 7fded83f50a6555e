/** Reassembly over whole runs: what is delivered was sent, and what is fully received in time
    is delivered (shellagent/network_bridge.go). */
module ReassemblyRuns {
  import opened Options
  import opened Bytes
  import opened Datagrams
  import opened Reassembly

  /** One arrival. `victim` is the entry the eviction loop picks, should it have to. */
  datatype Event = Event(frame: bytes, now: int, victim: bytes)

  /** The table after a run. */
  function After(start: Table, events: seq<Event>): Table {
    if events == [] then start
    else
      var last := events[|events| - 1];
      Step(After(start, events[..|events| - 1]), last.frame, last.now, last.victim).0
  }

  /** The table just before event `i`. */
  function Before(start: Table, events: seq<Event>, i: nat): Table
    requires i <= |events|
  {
    After(start, events[..i])
  }

  /** What event `i` of a run delivers. */
  function Delivered(start: Table, events: seq<Event>, i: nat): Delivery
    requires i < |events|
  {
    Step(Before(start, events, i), events[i].frame, events[i].now, events[i].victim).1
  }

  ghost predicate LegalRun(start: Table, events: seq<Event>) {
    forall i :: 0 <= i < |events| ==> LegalVictim(Before(start, events, i), events[i].frame, events[i].now, events[i].victim)
  }

  lemma NextTable(start: Table, events: seq<Event>, i: nat)
    requires i < |events|
    ensures Before(start, events, i + 1) == Step(Before(start, events, i), events[i].frame, events[i].now, events[i].victim).0
  {
    assert events[..i + 1][..i] == events[..i];
  }

  // ----- soundness

  /** The messages a peer sent, told apart by bridge id and message id. */
  ghost predicate Distinct(sent: set<Message>) {
    && (forall m :: m in sent ==> Encodable(m.id, m.body) && m.messageId < 0x1_0000_0000)
    && (forall m, n :: m in sent && n in sent && m.id == n.id && m.messageId == n.messageId ==> m == n)
  }

  ghost predicate SentFrame(sent: set<Message>, frame: bytes) {
    exists m :: m in sent && frame in Frames(m)
  }

  lemma FramesCount(m: Message)
    requires Encodable(m.id, m.body)
    ensures |Frames(m)| == |PartsOf(m)|
  {
  }

  /** An assembly that holds nothing but fragments of `m`, each in its own slot. */
  ghost predicate Holds(a: Assembly, m: Message)
    requires Encodable(m.id, m.body)
  {
    && |a.fragments| == |PartsOf(m)|
    && |PartsOf(m)| > 1
    && forall k :: 0 <= k < |a.fragments| ==> a.fragments[k] == [] || a.fragments[k] == PartsOf(m)[k]
  }

  ghost predicate Faithful(sent: set<Message>, t: Table)
    requires Distinct(sent)
  {
    && |t| <= MAX_PENDING
    && forall key :: key in t ==> exists m :: m in sent && key == Key(m.id, m.messageId) && Holds(t[key], m)
  }

  /** A scan over slots that are empty or right finds a gap, or a body that fits. */
  lemma {:induction false} ScanHeld(parts: seq<bytes>, full: seq<bytes>, total: nat)
    requires |parts| == |full|
    requires forall k :: 0 <= k < |full| ==> full[k] != [] && (parts[k] == [] || parts[k] == full[k])
    requires total + |Concat(full)| <= MAX_BODY
    ensures ScanFrom(parts, total) == if [] in parts then Incomplete else Complete
    ensures [] !in parts ==> parts == full
  {
    if parts != [] {
      assert parts == [parts[0]] + parts[1..];
      if parts[0] != [] {
        ScanHeld(parts[1..], full[1..], total + |parts[0]|);
      }
    }
  }

  lemma SubsetSize<T>(a: set<T>, b: set<T>)
    requires a <= b
    ensures |a| <= |b|
  {
    assert |b - a| == |b| - |a|;
  }

  /** Expiry and eviction only forget; opening an entry keeps the cap. */
  lemma OpenedSize(t: Table, key: bytes, count: nat, now: int, victim: bytes)
    requires |t| <= MAX_PENDING
    requires key !in t && |t| >= MAX_PENDING ==> victim in t
    ensures |Opened(t, key, count, now, victim)| <= MAX_PENDING
  {
    var o := Opened(t, key, count, now, victim);
    if key in t {
      assert o.Keys == t.Keys;
    } else if |t| >= MAX_PENDING {
      assert (t - {victim}).Keys == t.Keys - {victim};
      assert o.Keys == t.Keys - {victim} + {key};
    } else {
      assert o.Keys == t.Keys + {key};
    }
  }

  /** The entry a fragment of a sent message goes to holds that message, before and after. */
  lemma OwnEntry(sent: set<Message>, t: Table, m: Message, k: nat, now: int, victim: bytes)
    requires Distinct(sent) && Faithful(sent, t) && m in sent
    requires 1 < |PartsOf(m)| && k < |PartsOf(m)|
    ensures Key(m.id, m.messageId) in Updated(t, FragmentOf(m, k), now, victim)
    ensures Holds(Updated(t, FragmentOf(m, k), now, victim)[Key(m.id, m.messageId)], m)
  {
    hide Parts, Key;
    var f := FragmentOf(m, k);
    var key := Key(m.id, m.messageId);
    var live := Live(t, now);
    if key in live {
      var n :| n in sent && key == Key(n.id, n.messageId) && Holds(t[key], n);
      KeyInjective(m.id, m.messageId, n.id, n.messageId);
    }
    assert Holds(Opened(live, key, f.count, now, victim)[key], m);
  }

  /** One frame of a sent message keeps the table faithful. */
  lemma FaithfulUpdate(sent: set<Message>, t: Table, m: Message, k: nat, now: int, victim: bytes)
    requires Distinct(sent) && Faithful(sent, t) && m in sent
    requires 1 < |PartsOf(m)| && k < |PartsOf(m)|
    requires Key(m.id, m.messageId) !in Live(t, now) && |Live(t, now)| >= MAX_PENDING ==> Oldest(Live(t, now), victim)
    ensures Faithful(sent, Updated(t, FragmentOf(m, k), now, victim))
  {
    hide Parts, Key, Holds;
    var f := FragmentOf(m, k);
    var key := Key(m.id, m.messageId);
    var live := Live(t, now);
    OwnEntry(sent, t, m, k, now, victim);
    SubsetSize(live.Keys, t.Keys);
    OpenedSize(live, key, f.count, now, victim);
    var updated := Updated(t, f, now, victim);
    assert updated.Keys == Opened(live, key, f.count, now, victim).Keys;
    forall other | other in updated
      ensures exists n :: n in sent && other == Key(n.id, n.messageId) && Holds(updated[other], n)
    {
      if other != key {
        assert updated[other] == t[other];
      }
    }
  }

  lemma FaithfulRemoval(sent: set<Message>, t: Table, key: bytes)
    requires Distinct(sent) && Faithful(sent, t)
    ensures Faithful(sent, t - {key})
  {
    hide Parts, Key, Holds, Distinct;
    SubsetSize((t - {key}).Keys, t.Keys);
  }

  /** One frame of a sent message delivers that message or nothing. */
  lemma SoundFragment(sent: set<Message>, t: Table, m: Message, k: nat, now: int, victim: bytes)
    requires Distinct(sent) && Faithful(sent, t) && m in sent
    requires 1 < |PartsOf(m)| && k < |PartsOf(m)|
    requires Key(m.id, m.messageId) !in Live(t, now) && |Live(t, now)| >= MAX_PENDING ==> Oldest(Live(t, now), victim)
    ensures Faithful(sent, AddFragment(t, FragmentOf(m, k), now, victim).0)
    ensures var d := AddFragment(t, FragmentOf(m, k), now, victim).1; d == None || d == Some((m.id, m.body))
  {
    hide Parts, Key, Updated, Faithful;
    OwnEntry(sent, t, m, k, now, victim);
    FaithfulUpdate(sent, t, m, k, now, victim);
    var updated := Updated(t, FragmentOf(m, k), now, victim);
    var key := Key(m.id, m.messageId);
    ScanHeld(updated[key].fragments, PartsOf(m), 0);
    FaithfulRemoval(sent, updated, key);
  }

  lemma SoundStep(sent: set<Message>, t: Table, e: Event)
    requires Distinct(sent) && Faithful(sent, t)
    requires SentFrame(sent, e.frame)
    requires LegalVictim(t, e.frame, e.now, e.victim)
    ensures Faithful(sent, Step(t, e.frame, e.now, e.victim).0)
    ensures var d := Step(t, e.frame, e.now, e.victim).1;
      d.Some? ==> exists m :: m in sent && e.frame in Frames(m) && d.value == (m.id, m.body)
  {
    hide Parts, Decode, AddFragment, Faithful;
    var m :| m in sent && e.frame in Frames(m);
    FramesCount(m);
    var k :| 0 <= k < |Frames(m)| && Frames(m)[k] == e.frame;
    FramesDecode(m, k);
    if Decode(e.frame).Some? {
      if |PartsOf(m)| == 1 {
        OnePart(m);
      } else {
        SoundFragment(sent, t, m, k, e.now, e.victim);
      }
    }
  }

  lemma FaithfulEmpty(sent: set<Message>)
    requires Distinct(sent)
    ensures Faithful(sent, map[])
  {
  }

  lemma {:induction false} FaithfulRun(sent: set<Message>, events: seq<Event>, i: nat)
    requires Distinct(sent) && LegalRun(map[], events) && i <= |events|
    requires forall e :: e in events ==> SentFrame(sent, e.frame)
    ensures Faithful(sent, Before(map[], events, i))
  {
    hide Step, Faithful, Distinct, Frames, LegalVictim;
    if i > 0 {
      FaithfulRun(sent, events, i - 1);
      NextTable(map[], events, i - 1);
      SoundStep(sent, Before(map[], events, i - 1), events[i - 1]);
    } else {
      assert events[..0] == [];
      FaithfulEmpty(sent);
    }
  }

  /** Whatever is lost, duplicated, reordered, expired or evicted on the way: a delivery is
      exactly a message that was sent, made of the last frame's own message, and the table
      never holds more than 256 partial messages. */
  lemma ReassemblySound(sent: set<Message>, events: seq<Event>, i: nat)
    requires Distinct(sent) && LegalRun(map[], events) && i < |events|
    requires forall e :: e in events ==> SentFrame(sent, e.frame)
    ensures |Before(map[], events, i + 1)| <= MAX_PENDING
    ensures var d := Delivered(map[], events, i);
      d.Some? ==> exists m :: m in sent && events[i].frame in Frames(m) && d.value == (m.id, m.body)
  {
    FaithfulRun(sent, events, i);
    FaithfulRun(sent, events, i + 1);
    SoundStep(sent, Before(map[], events, i), events[i]);
  }

  /** At most 2^32 messages of one sender are told apart, whatever packets it was given. */
  lemma SenderIsDistinct(counter: nat, packets: seq<(bytes, bytes)>)
    requires counter < 0x1_0000_0000 && |SentMessages(counter, packets)| <= 0x1_0000_0000
    ensures Distinct(set m | m in SentMessages(counter, packets))
  {
    hide SentMessages, Encodable;
    var list := SentMessages(counter, packets);
    forall m | m in list ensures Encodable(m.id, m.body) && m.messageId < 0x1_0000_0000 {
      var i :| 0 <= i < |list| && list[i] == m;
      SentNumbers(counter, packets, i);
    }
    forall m, n | m in list && n in list && m.messageId == n.messageId ensures m == n {
      var i :| 0 <= i < |list| && list[i] == m;
      var j :| 0 <= j < |list| && list[j] == n;
      MessageIdsRepeat(counter, packets, if i < j then i else j, if i < j then j else i);
    }
  }

  /** Soundness for the frames of one sender's first 2^32 messages. */
  lemma SenderSound(counter: nat, packets: seq<(bytes, bytes)>, events: seq<Event>, i: nat)
    requires counter < 0x1_0000_0000 && |packets| <= 0x1_0000_0000
    requires LegalRun(map[], events) && i < |events|
    requires forall e :: e in events ==> exists m :: m in SentMessages(counter, packets) && e.frame in Frames(m)
    ensures var d := Delivered(map[], events, i);
      d.Some? ==> exists m :: m in SentMessages(counter, packets) && events[i].frame in Frames(m) && d.value == (m.id, m.body)
  {
    hide SentMessages, Frames, Delivered, LegalRun, Distinct;
    SentCount(counter, packets);
    SenderIsDistinct(counter, packets);
    var sent := set m | m in SentMessages(counter, packets);
    forall e | e in events ensures SentFrame(sent, e.frame) {
      var m :| m in SentMessages(counter, packets) && e.frame in Frames(m);
      assert m in sent;
    }
    ReassemblySound(sent, events, i);
  }

  // ----- completeness

  /** The event carries a frame of `m`. */
  ghost predicate Mine(m: Message, e: Event) {
    e.frame in Frames(m)
  }

  /** The fragment number a frame of `m` carries. */
  function IndexOf(e: Event): nat
    requires Decode(e.frame).Some?
  {
    Decode(e.frame).value.index
  }

  /** An event that has nothing to do with `m`'s entry: noise, a one-fragment message, or
      another message. */
  predicate Foreign(m: Message, e: Event) {
    match Decode(e.frame)
    case None => true
    case Some(f) => f.count == 1 || Key(f.id, f.messageId) != Key(m.id, m.messageId)
  }

  /** Which fragments of `m` have arrived before event `i`. */
  ghost function Got(m: Message, events: seq<Event>, i: nat): set<nat>
    requires i <= |events|
  {
    set j | 0 <= j < i && Mine(m, events[j]) && Decode(events[j].frame).Some? :: IndexOf(events[j])
  }

  ghost predicate All(m: Message, got: set<nat>)
    requires Encodable(m.id, m.body)
  {
    forall k: nat :: k < |PartsOf(m)| ==> k in got
  }

  /** When a frame of `m` last arrived before event `i`. */
  ghost function LastTouch(m: Message, events: seq<Event>, i: nat): int
    requires i <= |events|
  {
    if i == 0 then 0 else if Mine(m, events[i - 1]) then events[i - 1].now else LastTouch(m, events, i - 1)
  }

  /** The table can take this frame without giving up `m`'s entry: it has room, or the frame
      belongs to an entry it has, or some entry is older than `m`'s. */
  ghost predicate SparesEntry(t: Table, m: Message, e: Event) {
    var key := Key(m.id, m.messageId);
    var live := Live(t, e.now);
    Evicts(t, e.frame, e.now) && key in live ==> exists k :: k in live && live[k].updatedAt < live[key].updatedAt
  }

  /** `m`'s part of the table when exactly the fragments `got` have arrived. */
  ghost predicate Collected(t: Table, m: Message, got: set<nat>, touched: int)
    requires Encodable(m.id, m.body)
  {
    var key := Key(m.id, m.messageId);
    if got == {} then key !in t
    else
      && key in t
      && t[key].updatedAt == touched
      && |t[key].fragments| == |PartsOf(m)|
      && forall k: nat :: k < |PartsOf(m)| ==> t[key].fragments[k] == if k in got then PartsOf(m)[k] else []
  }

  /** Another frame leaves `m`'s entry as it is while the entry is fresh and spared. */
  lemma ForeignStep(t: Table, m: Message, e: Event, got: set<nat>, touched: int)
    requires Encodable(m.id, m.body) && Collected(t, m, got, touched)
    requires Foreign(m, e) && SparesEntry(t, m, e) && LegalVictim(t, e.frame, e.now, e.victim)
    requires got != {} ==> e.now - touched <= EXPIRY_MS
    ensures Collected(Step(t, e.frame, e.now, e.victim).0, m, got, touched)
  {
    hide Parts, Decode, Key, ScanFrom;
  }

  /** A frame of `m` fills its slot and marks the time. */
  lemma OwnUpdate(t: Table, m: Message, k: nat, now: int, victim: bytes, got: set<nat>, touched: int)
    requires Encodable(m.id, m.body) && 1 < |PartsOf(m)|
    requires Collected(t, m, got, touched) && k < |PartsOf(m)|
    requires got != {} ==> now - touched <= EXPIRY_MS
    ensures Collected(Updated(t, FragmentOf(m, k), now, victim), m, got + {k}, now)
  {
    hide Parts, Key;
    var key := Key(m.id, m.messageId);
    var live := Live(t, now);
    assert got != {} ==> key in live && live[key] == t[key];
    var parts := Updated(t, FragmentOf(m, k), now, victim)[key].fragments;
    assert |parts| == |PartsOf(m)|;
    assert k in got + {k};
  }

  /** The scan completes exactly when no fragment is missing, and then finds the whole body. */
  lemma OwnScan(t: Table, m: Message, got: set<nat>, touched: int)
    requires Encodable(m.id, m.body) && 1 < |PartsOf(m)| && got != {}
    requires Collected(t, m, got, touched)
    ensures var parts := t[Key(m.id, m.messageId)].fragments;
      if All(m, got) then ScanFrom(parts, 0) == Complete && Concat(parts) == m.body else ScanFrom(parts, 0) == Incomplete
  {
    hide Parts, Key;
    var parts := t[Key(m.id, m.messageId)].fragments;
    ScanHeld(parts, PartsOf(m), 0);
    if !All(m, got) {
      var missing: nat :| missing < |PartsOf(m)| && missing !in got;
      assert parts[missing] == [];
    } else {
      assert forall j :: 0 <= j < |parts| ==> parts[j] == PartsOf(m)[j];
    }
  }

  /** A frame of `m` fills its slot; the last missing one delivers the whole body. */
  lemma OwnStep(t: Table, m: Message, k: nat, e: Event, got: set<nat>, touched: int)
    requires Encodable(m.id, m.body) && m.messageId < 0x1_0000_0000 && 1 < |PartsOf(m)| <= MAX_FRAGMENTS
    requires Collected(t, m, got, touched)
    requires k < |PartsOf(m)| && e.frame == Frames(m)[k]
    requires got != {} ==> e.now - touched <= EXPIRY_MS
    ensures var (t', d) := Step(t, e.frame, e.now, e.victim);
      if All(m, got + {k}) then d == Some((m.id, m.body)) && Key(m.id, m.messageId) !in t'
      else d == None && Collected(t', m, got + {k}, e.now)
  {
    hide Parts, Key, Updated, All, Frames, Decode;
    FramesDecode(m, k);
    OwnUpdate(t, m, k, e.now, e.victim, got, touched);
    OwnScan(Updated(t, FragmentOf(m, k), e.now, e.victim), m, got + {k}, e.now);
  }

  /** A run that brings in `m` from a table without it: every event is a frame of `m` or is
      foreign and spares its entry; the clock does not go back; two successive frames of `m`
      are at most two seconds apart; and only the last event completes the set. */
  ghost predicate Completes(start: Table, events: seq<Event>, m: Message) {
    && Encodable(m.id, m.body) && m.messageId < 0x1_0000_0000
    && Key(m.id, m.messageId) !in start
    && LegalRun(start, events)
    && |events| > 0 && Mine(m, events[|events| - 1])
    && (forall i :: 0 <= i < |events| ==>
      Mine(m, events[i]) || (Foreign(m, events[i]) && SparesEntry(Before(start, events, i), m, events[i])))
    && (forall i :: 0 < i < |events| ==> events[i - 1].now <= events[i].now)
    && (forall i :: 0 <= i < |events| && Mine(m, events[i]) && Got(m, events, i) != {} ==>
      events[i].now - LastTouch(m, events, i) <= EXPIRY_MS)
    && !All(m, Got(m, events, |events| - 1)) && All(m, Got(m, events, |events|))
  }

  lemma GotNext(m: Message, events: seq<Event>, i: nat)
    requires i < |events|
    ensures Got(m, events, i + 1) ==
      Got(m, events, i) + if Mine(m, events[i]) && Decode(events[i].frame).Some? then {IndexOf(events[i])} else {}
  {
    hide Mine, Decode;
    if Mine(m, events[i]) && Decode(events[i].frame).Some? {
      assert IndexOf(events[i]) in Got(m, events, i + 1);
    }
  }

  /** Between two frames of `m` every other arrival is inside the two seconds as well. */
  lemma {:induction false} StillFresh(start: Table, events: seq<Event>, m: Message, i: nat)
    requires Completes(start, events, m) && i < |events|
    requires Got(m, events, i) != {}
    ensures events[i].now - LastTouch(m, events, i) <= EXPIRY_MS
    decreases |events| - i
  {
    hide Mine, Decode, Foreign, SparesEntry, LegalRun, All, Got, Before, Key, Encodable;
    if !Mine(m, events[i]) {
      GotNext(m, events, i);
      StillFresh(start, events, m, i + 1);
    }
  }

  lemma CollectedNext(start: Table, events: seq<Event>, m: Message, i: nat)
    requires Completes(start, events, m) && i < |events| - 1
    requires 1 < |PartsOf(m)| <= MAX_FRAGMENTS
    requires !All(m, Got(m, events, i + 1))
    requires Collected(Before(start, events, i), m, Got(m, events, i), LastTouch(m, events, i))
    ensures Collected(Before(start, events, i + 1), m, Got(m, events, i + 1), LastTouch(m, events, i + 1))
    ensures Mine(m, events[i]) ==> Delivered(start, events, i) == None
  {
    hide Step, Frames, Decode, Foreign, SparesEntry, LegalVictim, Collected, Got, After, Parts, All, Key;
    var e := events[i];
    NextTable(start, events, i);
    GotNext(m, events, i);
    var got, touched := Got(m, events, i), LastTouch(m, events, i);
    if got != {} {
      StillFresh(start, events, m, i);
    }
    if Mine(m, e) {
      var k :| 0 <= k < |Frames(m)| && Frames(m)[k] == e.frame;
      FramesCount(m);
      FramesDecode(m, k);
      OwnStep(Before(start, events, i), m, k, e, got, touched);
    } else {
      ForeignStep(Before(start, events, i), m, e, got, touched);
      assert Got(m, events, i + 1) == got;
    }
  }

  lemma {:induction false} CollectedBefore(start: Table, events: seq<Event>, m: Message, i: nat)
    requires Completes(start, events, m) && i < |events|
    requires 1 < |PartsOf(m)| <= MAX_FRAGMENTS
    ensures Collected(Before(start, events, i), m, Got(m, events, i), LastTouch(m, events, i))
    ensures i > 0 && Mine(m, events[i - 1]) ==> Delivered(start, events, i - 1) == None
  {
    hide Step, Frames, Decode, Foreign, SparesEntry, LegalVictim, Parts;
    assert Got(m, events, i) <= Got(m, events, |events| - 1);
    if i == 0 {
      assert events[..0] == [];
      assert Got(m, events, 0) == {};
    } else {
      CollectedBefore(start, events, m, i - 1);
      CollectedNext(start, events, m, i - 1);
    }
  }

  /** A message that fits 128 fragments is delivered whole, at its last missing fragment and not
      before, however its fragments are ordered, repeated and interleaved with other traffic.
      With an id of 1 to 474 bytes that is every body up to 65535 bytes. */
  lemma ReassemblyComplete(start: Table, events: seq<Event>, m: Message)
    requires Completes(start, events, m)
    requires |m.body| <= MAX_FRAGMENTS * FragmentBytes(m.id)
    ensures Delivered(start, events, |events| - 1) == Some((m.id, m.body))
    ensures Key(m.id, m.messageId) !in After(start, events)
    ensures forall i :: 0 <= i < |events| - 1 && Mine(m, events[i]) ==> Delivered(start, events, i) == None
  {
    hide Parts, Delivered, After, Key, Mine, LegalRun, Got, All, Foreign, SparesEntry, LastTouch;
    ReassemblyBound(m);
    assert |PartsOf(m)| >= 1;
    hide Completes, PartsOf;
    if |PartsOf(m)| == 1 {
      SingleComplete(start, events, m);
      assert forall i :: 0 <= i < |events| - 1 ==> !Mine(m, events[i]);
    } else {
      LastFragment(start, events, m);
      forall i | 0 <= i < |events| - 1 && Mine(m, events[i]) ensures Delivered(start, events, i) == None {
        NotBefore(start, events, m, i);
      }
    }
  }

  lemma LastFragment(start: Table, events: seq<Event>, m: Message)
    requires Completes(start, events, m) && 1 < |PartsOf(m)| <= MAX_FRAGMENTS
    ensures Delivered(start, events, |events| - 1) == Some((m.id, m.body))
    ensures Key(m.id, m.messageId) !in After(start, events)
  {
    hide Parts, Decode, SparesEntry, LegalRun, Step, Got, LastTouch, Key, All, Foreign;
    var n := |events| - 1;
    FramesCount(m);
    var k :| 0 <= k < |Frames(m)| && Frames(m)[k] == events[n].frame;
    FramesDecode(m, k);
    assert events[..n + 1] == events;
    NextTable(start, events, n);
    GotNext(m, events, n);
    CollectedBefore(start, events, m, n);
    if Got(m, events, n) != {} {
      StillFresh(start, events, m, n);
    }
    OwnStep(Before(start, events, n), m, k, events[n], Got(m, events, n), LastTouch(m, events, n));
  }

  lemma NotBefore(start: Table, events: seq<Event>, m: Message, i: nat)
    requires Completes(start, events, m) && 1 < |PartsOf(m)| <= MAX_FRAGMENTS
    requires i < |events| - 1 && Mine(m, events[i])
    ensures Delivered(start, events, i) == None
  {
    hide Parts, Decode, SparesEntry, LegalRun, Step, Got, LastTouch, Key, All, Foreign, Collected, Before, Delivered;
    CollectedBefore(start, events, m, i + 1);
  }

  /** Besides `m` there are fewer than 256 partial messages, the one this frame belongs to included. */
  predicate HasRoom(t: Table, m: Message, e: Event) {
    match Decode(e.frame)
    case None => true
    case Some(f) => f.count == 1 || |Live(t, e.now).Keys + {Key(f.id, f.messageId)} - {Key(m.id, m.messageId)}| < MAX_PENDING
  }

  lemma RoomSpares(t: Table, m: Message, e: Event)
    requires HasRoom(t, m, e) && Foreign(m, e)
    ensures SparesEntry(t, m, e)
  {
    hide Key, Live, Decode;
    var (live, key) := (Live(t, e.now), Key(m.id, m.messageId));
    if Evicts(t, e.frame, e.now) && key in live {
      var f := Decode(e.frame).value;
      OthersCount(live.Keys, Key(f.id, f.messageId), key);
    }
  }

  lemma OthersCount(live: set<bytes>, other: bytes, key: bytes)
    requires key in live
    ensures other !in live ==> |live + {other} - {key}| == |live|
  {
    if other !in live {
      assert |live + {other}| == |live| + 1;
      assert |live + {other} - {key}| == |live + {other}| - 1;
    }
  }

  /** `Completes` with room in place of sparing. */
  ghost predicate CompletesWithRoom(start: Table, events: seq<Event>, m: Message) {
    && Encodable(m.id, m.body) && m.messageId < 0x1_0000_0000
    && Key(m.id, m.messageId) !in start
    && LegalRun(start, events)
    && |events| > 0 && Mine(m, events[|events| - 1])
    && (forall i :: 0 <= i < |events| ==> Mine(m, events[i]) || (Foreign(m, events[i]) && HasRoom(Before(start, events, i), m, events[i])))
    && (forall i :: 0 < i < |events| ==> events[i - 1].now <= events[i].now)
    && (forall i :: 0 <= i < |events| && Mine(m, events[i]) && Got(m, events, i) != {} ==>
      events[i].now - LastTouch(m, events, i) <= EXPIRY_MS)
    && !All(m, Got(m, events, |events| - 1)) && All(m, Got(m, events, |events|))
  }

  /** Completeness with its bounds spelled out: with an id of 1 to 474 bytes and any body up to 65535
      bytes, all fragments in any order, successive ones at most two seconds apart, and fewer than
      256 other partial messages, the message is delivered at its last missing fragment. */
  lemma CompleteWithRoom(start: Table, events: seq<Event>, m: Message)
    requires CompletesWithRoom(start, events, m) && |m.id| <= 474
    ensures Delivered(start, events, |events| - 1) == Some((m.id, m.body))
    ensures Key(m.id, m.messageId) !in After(start, events)
    ensures forall i :: 0 <= i < |events| - 1 && Mine(m, events[i]) ==> Delivered(start, events, i) == None
  {
    hide Parts, Decode, SparesEntry, LegalRun, Step, Got, LastTouch, Key, HasRoom, Foreign, Mine, All, Before, After, Delivered;
    ReassemblyBound(m);
    forall i | 0 <= i < |events|
      ensures Mine(m, events[i]) || (Foreign(m, events[i]) && SparesEntry(Before(start, events, i), m, events[i]))
    {
      if !Mine(m, events[i]) {
        RoomSpares(Before(start, events, i), m, events[i]);
      }
    }
    ReassemblyComplete(start, events, m);
  }

  lemma OnePart(m: Message)
    requires Encodable(m.id, m.body) && |PartsOf(m)| == 1
    ensures PartsOf(m) == [m.body]
  {
    assert PartsOf(m) == [PartsOf(m)[0]];
  }

  lemma SeenSingle(m: Message, events: seq<Event>, n: nat)
    requires Encodable(m.id, m.body) && m.messageId < 0x1_0000_0000 && |PartsOf(m)| == 1 && n <= |events|
    ensures (exists i :: 0 <= i < n && Mine(m, events[i])) ==> All(m, Got(m, events, n))
  {
    hide Parts, Decode;
    if i :| 0 <= i < n && Mine(m, events[i]) {
      FramesDecode(m, 0);
      assert events[i].frame == Frames(m)[0];
      assert IndexOf(events[i]) in Got(m, events, n);
    }
  }

  /** A message of one fragment never enters the table, so the event that brings it is its first. */
  lemma {:induction false} SingleComplete(start: Table, events: seq<Event>, m: Message)
    requires Completes(start, events, m) && |PartsOf(m)| == 1
    ensures Delivered(start, events, |events| - 1) == Some((m.id, m.body))
    ensures Key(m.id, m.messageId) !in After(start, events)
    ensures forall i :: 0 <= i < |events| - 1 ==> !Mine(m, events[i])
  {
    hide Parts, Key, Decode, SparesEntry, LegalRun, LegalVictim;
    var n := |events| - 1;
    OnePart(m);
    FramesDecode(m, 0);
    assert events[n].frame == Frames(m)[0];
    SeenSingle(m, events, n);
    AbsentKey(start, events, m, n);
    assert events[..n + 1] == events;
    NextTable(start, events, n);
  }

  lemma {:induction false} AbsentKey(start: Table, events: seq<Event>, m: Message, i: nat)
    requires Key(m.id, m.messageId) !in start && i <= |events|
    requires forall j :: 0 <= j < i ==> Foreign(m, events[j])
    ensures Key(m.id, m.messageId) !in Before(start, events, i)
  {
    hide Step, Foreign, Key, LegalVictim;
    if i > 0 {
      AbsentKey(start, events, m, i - 1);
      NextTable(start, events, i - 1);
      StaysAbsent(Before(start, events, i - 1), m, events[i - 1]);
    } else {
      assert events[..0] == [];
    }
  }

  /** A foreign frame never opens the entry of another message. */
  lemma StaysAbsent(t: Table, m: Message, e: Event)
    requires Foreign(m, e) && Key(m.id, m.messageId) !in t
    ensures Key(m.id, m.messageId) !in Step(t, e.frame, e.now, e.victim).0
  {
    hide Decode, Key;
  }

  // ----- expiry

  /** A frame of `m`, which has several fragments, carries a fragment of it. */
  lemma FragmentArrives(m: Message, e: Event) returns (k: nat)
    requires Encodable(m.id, m.body) && m.messageId < 0x1_0000_0000 && 1 < |PartsOf(m)| <= MAX_FRAGMENTS && Mine(m, e)
    ensures k < |PartsOf(m)| && Decode(e.frame) == Some(FragmentOf(m, k))
    ensures IndexOf(e) == k && FragmentOf(m, k).count == |PartsOf(m)|
  {
    hide Parts, Decode;
    FramesCount(m);
    k :| 0 <= k < |Frames(m)| && Frames(m)[k] == e.frame;
    FramesDecode(m, k);
  }

  /** The entry of `m` was last touched at `touched`, if there is one. */
  ghost predicate TouchedAt(t: Table, m: Message, touched: int) {
    var key := Key(m.id, m.messageId);
    key in t ==> t[key].updatedAt == touched
  }

  lemma OwnTouches(t: Table, m: Message, e: Event)
    requires Encodable(m.id, m.body) && m.messageId < 0x1_0000_0000 && 1 < |PartsOf(m)| <= MAX_FRAGMENTS && Mine(m, e)
    requires LegalVictim(t, e.frame, e.now, e.victim)
    ensures TouchedAt(Step(t, e.frame, e.now, e.victim).0, m, e.now)
    ensures Key(m.id, m.messageId) !in t ==> Step(t, e.frame, e.now, e.victim).1 == None
  {
    hide Parts, Decode, Key, OthersKept, Frames, Live;
    var k := FragmentArrives(m, e);
    LiveMeans(t, e.now);
    FragmentReceived(t, FragmentOf(m, k), e.now, e.victim);
    OnlyOne(t, m, k, e);
  }

  /** With no entry that young, a fragment of `m` is all its entry then holds. */
  lemma OnlyOne(t: Table, m: Message, k: nat, e: Event)
    requires Encodable(m.id, m.body) && m.messageId < 0x1_0000_0000 && 1 < |PartsOf(m)| <= MAX_FRAGMENTS
    requires k < |PartsOf(m)| && Decode(e.frame) == Some(FragmentOf(m, k))
    requires LegalVictim(t, e.frame, e.now, e.victim)
    ensures var (key, t') := (Key(m.id, m.messageId), Step(t, e.frame, e.now, e.victim).0);
      !Young(t, key, e.now) ==>
        && Step(t, e.frame, e.now, e.victim).1 == None
        && key in t' && t'[key].updatedAt == e.now && |t'[key].fragments| == |PartsOf(m)|
        && forall j :: 0 <= j < |t'[key].fragments| ==> t'[key].fragments[j] == if j == k then PartsOf(m)[k] else []
  {
    hide Parts, Decode, Key, Young, OthersKept, Live, ScanFrom, Concat;
    var f, key := FragmentOf(m, k), Key(m.id, m.messageId);
    LiveMeans(t, e.now);
    FragmentReceived(t, f, e.now, e.victim);
    var slots := Updated(t, f, e.now, e.victim)[key].fragments;
    if !Young(t, key, e.now) {
      var other := if k == 0 then 1 else 0;
      assert slots[other] == [];
      FirstGap(slots, other);
    }
  }

  /** A gap after at most one small fragment is no overflow. */
  lemma FirstGap(slots: seq<bytes>, gap: nat)
    requires gap < |slots| && gap <= 1 && slots[gap] == [] && forall j :: 0 <= j < |slots| ==> |slots[j]| <= MAX_BODY
    ensures forall n: nat :: n <= |slots| && [] !in slots[..n] ==> |Concat(slots[..n])| <= MAX_BODY
  {
    forall n: nat | n <= |slots| ensures [] !in slots[..n] ==> |Concat(slots[..n])| <= MAX_BODY {
      if n > gap {
        assert slots[..n][gap] == [];
      } else if n == 1 {
        assert slots[..1] == [slots[0]] + [];
      }
    }
  }

  lemma ForeignTouches(t: Table, m: Message, e: Event, touched: int)
    requires Foreign(m, e) && TouchedAt(t, m, touched) && LegalVictim(t, e.frame, e.now, e.victim)
    ensures TouchedAt(Step(t, e.frame, e.now, e.victim).0, m, touched)
  {
    hide Decode, Key, ScanFrom;
  }

  lemma {:induction false} LastTouched(start: Table, events: seq<Event>, m: Message, i: nat, j: nat)
    requires Encodable(m.id, m.body) && m.messageId < 0x1_0000_0000 && 1 < |PartsOf(m)| <= MAX_FRAGMENTS
    requires LegalRun(start, events) && i < j <= |events| && Mine(m, events[i])
    requires forall k :: i < k < j ==> Foreign(m, events[k])
    ensures TouchedAt(Before(start, events, j), m, events[i].now)
  {
    hide Step, Foreign, Key, Mine, TouchedAt, Before, Encodable, PartsOf, LegalVictim;
    NextTable(start, events, j - 1);
    if j == i + 1 {
      OwnTouches(Before(start, events, i), m, events[i]);
    } else {
      LastTouched(start, events, m, i, j - 1);
      ForeignTouches(Before(start, events, j - 1), m, events[j - 1], events[i].now);
    }
  }

  /** Two frames of a message of several fragments, more than two seconds apart with no frame of it
      between them: the second delivers nothing, and its entry then holds that fragment alone. */
  lemma LateFragmentStartsOver(start: Table, events: seq<Event>, m: Message, i: nat, j: nat, k: nat)
    requires Encodable(m.id, m.body) && m.messageId < 0x1_0000_0000 && 1 < |PartsOf(m)| <= MAX_FRAGMENTS
    requires LegalRun(start, events) && i < j < |events|
    requires Mine(m, events[i]) && k < |PartsOf(m)| && events[j].frame == Frames(m)[k]
    requires forall n :: i < n < j ==> Foreign(m, events[n])
    requires events[j].now - events[i].now > 2000
    ensures Delivered(start, events, j) == None
    ensures Key(m.id, m.messageId) !in Before(start, events, i) ==> Delivered(start, events, i) == None
    ensures var (key, after) := (Key(m.id, m.messageId), Before(start, events, j + 1));
      && key in after && after[key].updatedAt == events[j].now && |after[key].fragments| == |PartsOf(m)|
      && forall n :: 0 <= n < |PartsOf(m)| ==> after[key].fragments[n] == if n == k then PartsOf(m)[k] else []
  {
    hide Parts, PartsOf, Decode, Key, Foreign, Before, Step, Encodable, Mine, Frames, FragmentOf;
    LastTouched(start, events, m, i, j);
    NextTable(start, events, j);
    FramesDecode(m, k);
    var t := Before(start, events, j);
    assert !Young(t, Key(m.id, m.messageId), events[j].now);
    OnlyOne(t, m, k, events[j]);
    OwnTouches(Before(start, events, i), m, events[i]);
  }
}
