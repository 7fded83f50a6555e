/** The output budget that a process's stdout and stderr readers share (shellagent/proc/process.go):
    every interleaving of the two readers, each with its own Read, Take and Send steps. */
module OutputBudget {
  import opened Bytes

  const MAX_OUTPUT := 8 * 1024 * 1024

  function Min(a: int, b: int): int {
    if a < b then a else b
  }

  function Max(a: int, b: int): int {
    if a > b then a else b
  }

  /** How much of `count` bytes may still be sent. */
  function Allowed(remaining: int, count: nat): (allowed: nat)
    ensures allowed == Min(count, Max(0, remaining))
  {
    if remaining <= 0 then 0 else if count > remaining then remaining else count
  }

  // ----- the code

  class Budget {
    var remaining: int

    constructor (limit: int)
      ensures remaining == limit
    {
      remaining := limit;
    }

    method Take(requested: nat) returns (count: nat)
      modifies this
      ensures count == Allowed(old(remaining), requested)
      ensures remaining == old(remaining) - count
    {
      if remaining <= 0 {
        return 0;
      }
      count := requested;
      if count > remaining {
        count := remaining;
      }
      remaining := remaining - count;
    }
  }

  /** Cutting piece by piece is cutting the whole. */
  lemma CutAppend(before: bytes, buffer: bytes, limit: int)
    ensures
      var taken := before[..Allowed(limit, |before|)];
      taken + buffer[..Allowed(limit - |taken|, |buffer|)] == (before + buffer)[..Allowed(limit, |before + buffer|)]
  {
  }

  lemma OneConcat(piece: bytes)
    ensures Concat([piece]) == piece
  {
    assert [piece][1..] == [];
  }

  lemma EmptyConcat(chunks: seq<bytes>)
    ensures Concat([]) == [] && Concat(chunks[..0]) == []
  {
    assert chunks[..0] == [];
  }

  /** One reader left alone: what it sends is what it read, cut where the budget ends. */
  method CopyOutput(chunks: seq<bytes>, budget: Budget) returns (sent: seq<bytes>)
    modifies budget
    ensures Concat(sent) == Concat(chunks)[..Allowed(old(budget.remaining), |Concat(chunks)|)]
    ensures budget.remaining == old(budget.remaining) - |Concat(sent)|
    ensures forall piece :: piece in sent ==> piece != []
  {
    hide Concat;
    sent := [];
    var limit := budget.remaining;
    assert Concat(sent) == [] && Concat(chunks[..0]) == [] by { EmptyConcat(chunks); }
    for i := 0 to |chunks|
      invariant Concat(sent) == Concat(chunks[..i])[..Allowed(limit, |Concat(chunks[..i])|)]
      invariant budget.remaining == limit - |Concat(sent)|
      invariant forall piece :: piece in sent ==> piece != []
    {
      var buffer := chunks[i];
      assert chunks[..i + 1] == chunks[..i] + [buffer];
      ConcatAppend(chunks[..i], [buffer]);
      OneConcat(buffer);
      CutAppend(Concat(chunks[..i]), buffer, limit);
      if |buffer| > 0 {
        var allowed := budget.Take(|buffer|);
        if allowed > 0 {
          ConcatAppend(sent, [buffer[..allowed]]);
          OneConcat(buffer[..allowed]);
          sent := sent + [buffer[..allowed]];
        }
      }
    }
    assert chunks[..|chunks|] == chunks;
  }

  // ----- both readers, interleaved

  /** Where a reader is in its loop, with the chunk in its buffer. */
  datatype Phase = Idle | Holding(chunk: bytes) | Granted(chunk: bytes, allowed: nat)

  /** A reader and all it has read and sent. */
  datatype Reader = Reader(read: bytes, sent: bytes, phase: Phase)

  datatype State = State(remaining: int, out: Reader, err: Reader)

  datatype Action = Read(chunk: bytes) | Take | Send

  function Of(s: State, stdout: bool): Reader {
    if stdout then s.out else s.err
  }

  function With(s: State, stdout: bool, r: Reader, remaining: int): State {
    if stdout then State(remaining, r, s.err) else State(remaining, s.out, r)
  }

  predicate Enabled(s: State, stdout: bool, a: Action) {
    var phase := Of(s, stdout).phase;
    match a
    case Read(chunk) => phase.Idle? && chunk != []
    case Take => phase.Holding?
    case Send => phase.Granted?
  }

  function Do(s: State, stdout: bool, a: Action): State
    requires Enabled(s, stdout, a)
  {
    var r := Of(s, stdout);
    match a
    case Read(chunk) => With(s, stdout, Reader(r.read + chunk, r.sent, Holding(chunk)), s.remaining)
    case Take =>
      var allowed := Allowed(s.remaining, |r.phase.chunk|);
      With(s, stdout, r.(phase := Granted(r.phase.chunk, allowed)), s.remaining - allowed)
    case Send =>
      With(s, stdout, Reader(r.read, r.sent + r.phase.chunk[..Min(r.phase.allowed, |r.phase.chunk|)], Idle), s.remaining)
  }

  function Start(limit: int): State {
    State(limit, Reader([], [], Idle), Reader([], [], Idle))
  }

  /** What a reader read before the chunk in its buffer. */
  function Before(r: Reader): nat {
    var held := if r.phase.Idle? then 0 else |r.phase.chunk|;
    if held <= |r.read| then |r.read| - held else 0
  }

  /** What a reader has asked the budget for, and what it was given. */
  function Asked(r: Reader): nat {
    if r.phase.Holding? then Before(r) else |r.read|
  }

  function Given(r: Reader): nat {
    |r.sent| + if r.phase.Granted? then r.phase.allowed else 0
  }

  /** What was sent is a prefix of what was read, the chunk in the buffer is the end of what was
      read, and a reader was given less than it asked for only once the budget was empty. */
  predicate ReaderInv(r: Reader, remaining: int) {
    r.sent <= r.read[..Before(r)] &&
    (!r.phase.Idle? ==> |r.phase.chunk| <= |r.read| && r.phase.chunk == r.read[Before(r)..]) &&
    (r.phase.Granted? ==> r.phase.allowed <= |r.phase.chunk| && (r.phase.allowed > 0 ==> |r.sent| == Before(r))) &&
    (Given(r) < Asked(r) ==> remaining <= 0)
  }

  predicate Readers(s: State) {
    ReaderInv(s.out, s.remaining) && ReaderInv(s.err, s.remaining)
  }

  /** Nothing is lost between the budget and the readers. */
  predicate Accounts(limit: int, s: State) {
    s.remaining == limit - Given(s.out) - Given(s.err) &&
    Given(s.out) + Given(s.err) == Min(Max(0, limit), Asked(s.out) + Asked(s.err))
  }

  predicate Inv(limit: int, s: State) {
    Readers(s) && Accounts(limit, s)
  }

  lemma StepKeepsReader(s: State, stdout: bool, a: Action)
    requires Enabled(s, stdout, a) && ReaderInv(Of(s, stdout), s.remaining)
    ensures ReaderInv(Of(Do(s, stdout, a), stdout), Do(s, stdout, a).remaining)
  {
    var r := Of(s, stdout);
    var after := Of(Do(s, stdout, a), stdout);
    match a {
      case Read(chunk) => {
        assert after.read[..|r.read|] == r.read;
      }
      case Take => {
      }
      case Send => {
        var n := r.phase.allowed;
        assert r.read == r.read[..Before(r)] + r.phase.chunk;
        assert n == 0 ==> after.sent == r.sent;
      }
    }
  }

  /** Only Take moves the accounts: it asks for its chunk and is given what the budget allows. */
  lemma StepAccounts(s: State, stdout: bool, a: Action)
    requires Enabled(s, stdout, a) && ReaderInv(Of(s, stdout), s.remaining)
    ensures
      var (r, t) := (Of(s, stdout), Do(s, stdout, a));
      var (count, given) := if a.Take? then (|r.phase.chunk|, Allowed(s.remaining, |r.phase.chunk|)) else (0, 0);
      Asked(Of(t, stdout)) == Asked(r) + count && Given(Of(t, stdout)) == Given(r) + given &&
      t.remaining == s.remaining - given && Of(t, !stdout) == Of(s, !stdout)
  {
  }

  lemma StepKeepsAccounts(limit: int, s: State, stdout: bool, a: Action)
    requires Enabled(s, stdout, a) && Readers(s) && Accounts(limit, s)
    ensures Accounts(limit, Do(s, stdout, a))
  {
    StepAccounts(s, stdout, a);
    hide Do, Enabled, ReaderInv, Given, Asked;
  }

  lemma StepKeepsReaders(s: State, stdout: bool, a: Action)
    requires Enabled(s, stdout, a) && Readers(s)
    ensures Readers(Do(s, stdout, a))
  {
    StepKeepsReader(s, stdout, a);
    StepAccounts(s, stdout, a);
    hide Do, Enabled, Given, Asked;
  }

  lemma StepKeepsInv(limit: int, s: State, stdout: bool, a: Action)
    requires Inv(limit, s) && Enabled(s, stdout, a)
    ensures Inv(limit, Do(s, stdout, a))
  {
    hide Do, Enabled, Readers, Accounts;
    StepKeepsAccounts(limit, s, stdout, a);
    StepKeepsReaders(s, stdout, a);
  }

  predicate Runs(s: State, actions: seq<(bool, Action)>)
    decreases |actions|
  {
    actions == [] ||
    (Enabled(s, actions[0].0, actions[0].1) && Runs(Do(s, actions[0].0, actions[0].1), actions[1..]))
  }

  function Run(s: State, actions: seq<(bool, Action)>): State
    requires Runs(s, actions)
    decreases |actions|
  {
    if actions == [] then s else Run(Do(s, actions[0].0, actions[0].1), actions[1..])
  }

  lemma {:induction false} RunKeepsInv(limit: int, s: State, actions: seq<(bool, Action)>)
    requires Inv(limit, s) && Runs(s, actions)
    ensures Inv(limit, Run(s, actions))
    decreases |actions|
  {
    hide Inv, Enabled, Do;
    if actions != [] {
      StepKeepsInv(limit, s, actions[0].0, actions[0].1);
      RunKeepsInv(limit, Do(s, actions[0].0, actions[0].1), actions[1..]);
    }
  }

  /** What one stream's Read steps brought, in order. */
  function Brought(actions: seq<(bool, Action)>, stdout: bool): bytes {
    if actions == [] then []
    else (if actions[0].0 == stdout && actions[0].1.Read? then actions[0].1.chunk else []) + Brought(actions[1..], stdout)
  }

  /** A stream has read exactly what its own Read steps brought. */
  lemma {:induction false} ReadIsBrought(s: State, actions: seq<(bool, Action)>, stdout: bool)
    requires Runs(s, actions)
    ensures Of(Run(s, actions), stdout).read == Of(s, stdout).read + Brought(actions, stdout)
    decreases |actions|
  {
    if actions != [] {
      var next := Do(s, actions[0].0, actions[0].1);
      ReadIsBrought(next, actions[1..], stdout);
      var first := if actions[0].0 == stdout && actions[0].1.Read? then actions[0].1.chunk else [];
      assert Of(next, stdout).read == Of(s, stdout).read + first;
      assert Of(s, stdout).read + first + Brought(actions[1..], stdout) ==
        Of(s, stdout).read + (first + Brought(actions[1..], stdout));
    }
  }

  /** At every moment of every interleaving each stream has sent a prefix of what it read, and the
      two together no more than the limit. */
  lemma SentIsPrefix(limit: int, actions: seq<(bool, Action)>)
    requires Runs(Start(limit), actions)
    ensures
      var s := Run(Start(limit), actions);
      && s.out.sent <= Brought(actions, true) && s.err.sent <= Brought(actions, false)
      && |s.out.sent| + |s.err.sent| <= Max(0, limit)
  {
    ReadIsBrought(Start(limit), actions, true);
    ReadIsBrought(Start(limit), actions, false);
    RunKeepsInv(limit, Start(limit), actions);
  }

  /** When neither reader holds a chunk, exactly the smaller of the limit and everything read has
      been sent. */
  lemma SentInTotal(limit: int, actions: seq<(bool, Action)>)
    requires Runs(Start(limit), actions)
    ensures
      var s := Run(Start(limit), actions);
      s.out.phase.Idle? && s.err.phase.Idle? ==>
        |s.out.sent| + |s.err.sent| == Min(Max(0, limit), |Brought(actions, true)| + |Brought(actions, false)|)
  {
    ReadIsBrought(Start(limit), actions, true);
    ReadIsBrought(Start(limit), actions, false);
    RunKeepsInv(limit, Start(limit), actions);
  }
}
