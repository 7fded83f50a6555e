/** Session workers keyed by generation: polls start them, a stop forgets them, and each frees
    its own slot when it ends (shellagent/ice.go, shellagent/agent.go). Every lock region is a
    step; polls and stops may overlap. */
module IceSessions {
  import opened Options

  /** A worker goroutine: the session it answers, the generation it was started in, its context. */
  datatype Worker = Worker(session: string, generation: nat, context: nat)

  /** A stop in progress: past the first lock region, or past the second. */
  datatype Stop = Detached(context: Option<nat>) | Cleared(context: Option<nat>)

  datatype State = State(
    enabled: bool,
    context: Option<nat>,
    nextContext: nat,
    cancelled: set<nat>,
    generation: nat,
    active: Option<map<string, nat>>,
    workers: map<nat, Worker>,
    polls: map<nat, nat>,
    stops: map<nat, Stop>)

  const Init := State(false, None, 0, {}, 0, None, map[], map[], map[])

  datatype Action =
    | SetRelay(enabled: bool)
    | PollBegin(p: nat)                        // under the server mutex: read or create the context
    | PollSession(p: nat, session: string, w: nat)  // under iceMu, one session of the list
    | PollEnd(p: nat)
    | StopContext(q: nat)                      // under the server mutex
    | StopTable(q: nat)                        // under iceMu
    | StopCancel(q: nat)
    | WorkerDone(w: nat)                       // the deferred lock region

  predicate Enabled(s: State, a: Action) {
    match a
    case SetRelay(_) => true
    case PollBegin(p) => p !in s.polls
    case PollSession(p, session, w) => p in s.polls && w !in s.workers
    case PollEnd(p) => p in s.polls
    case StopContext(q) => q !in s.stops
    case StopTable(q) => q in s.stops && s.stops[q].Detached?
    case StopCancel(q) => q in s.stops && s.stops[q].Cleared?
    case WorkerDone(w) => w in s.workers
  }

  /** A Go map read: a nil map and a missing key give zero. */
  function Lookup(table: Option<map<string, nat>>, session: string): nat {
    if table.Some? && session in table.value then table.value[session] else 0
  }

  function Table(table: Option<map<string, nat>>): map<string, nat> {
    if table.Some? then table.value else map[]
  }

  function Do(s: State, a: Action): State
    requires Enabled(s, a)
  {
    match a
    case SetRelay(enabled) => s.(enabled := enabled)
    case PollBegin(p) =>
      if !s.enabled then s
      else if s.context.None? then s.(context := Some(s.nextContext), nextContext := s.nextContext + 1,
        polls := s.polls[p := s.nextContext])
      else s.(polls := s.polls[p := s.context.value])
    case PollSession(p, session, w) =>
      if session in Table(s.active) then s.(active := Some(Table(s.active)))
      else s.(active := Some(Table(s.active)[session := s.generation]),
              workers := s.workers[w := Worker(session, s.generation, s.polls[p])])
    case PollEnd(p) => s.(polls := s.polls - {p})
    case StopContext(q) => s.(stops := s.stops[q := Detached(s.context)], context := None)
    case StopTable(q) => s.(stops := s.stops[q := Cleared(s.stops[q].context)], generation := s.generation + 1, active := None)
    case StopCancel(q) =>
      s.(stops := s.stops - {q}, cancelled := s.cancelled + if s.stops[q].context.Some? then {s.stops[q].context.value} else {})
    case WorkerDone(w) =>
      var worker := s.workers[w];
      var s' := s.(workers := s.workers - {w});
      if Lookup(s.active, worker.session) == worker.generation && s.active.Some?
      then s'.(active := Some(s.active.value - {worker.session}))
      else s'
  }

  // ----- exclusivity

  /** The sessions with a live worker of the current generation. */
  function Current(workers: map<nat, Worker>, generation: nat): set<string> {
    set w | w in workers && workers[w].generation == generation :: workers[w].session
  }

  /** No two live workers answer the same session in the same generation. */
  predicate OnePerGeneration(workers: map<nat, Worker>) {
    forall w, v :: w in workers && v in workers && SameSlot(workers[w], workers[v]) ==> w == v
  }

  predicate SameSlot(w: Worker, v: Worker) {
    w.session == v.session && w.generation == v.generation
  }

  /** The table holds the current generation's live workers, each its own slot. */
  predicate Exclusive(s: State) {
    && OnePerGeneration(s.workers)
    && (forall w :: w in s.workers ==> s.workers[w].generation <= s.generation)
    && Table(s.active).Keys == Current(s.workers, s.generation)
    && (forall session :: session in Table(s.active) ==> Table(s.active)[session] == s.generation)
  }

  lemma WorkerAdded(workers: map<nat, Worker>, w: nat, worker: Worker)
    requires w !in workers && OnePerGeneration(workers)
    requires worker.session !in Current(workers, worker.generation)
    ensures Current(workers[w := worker], worker.generation) == Current(workers, worker.generation) + {worker.session}
    ensures OnePerGeneration(workers[w := worker])
  {
    var added := workers[w := worker];
    assert added[w] == worker;
    forall v | v in workers
      ensures added[v] == workers[v] && !SameSlot(workers[v], worker)
    {
    }
  }

  lemma WorkerRemoved(workers: map<nat, Worker>, w: nat, generation: nat)
    requires w in workers && OnePerGeneration(workers)
    ensures Current(workers - {w}, generation) ==
      Current(workers, generation) - if workers[w].generation == generation then {workers[w].session} else {}
    ensures OnePerGeneration(workers - {w})
  {
    var left := workers - {w};
    forall v | v in workers && v != w
      ensures v in left && left[v] == workers[v] && !SameSlot(workers[v], workers[w])
    {
    }
  }

  lemma NoneNewer(workers: map<nat, Worker>, generation: nat)
    requires forall w :: w in workers ==> workers[w].generation <= generation
    ensures Current(workers, generation + 1) == {}
  {
  }

  lemma StepKeepsExclusive(s: State, a: Action)
    requires Exclusive(s) && Enabled(s, a)
    ensures Exclusive(Do(s, a))
  {
    hide Current, OnePerGeneration;
    match a
    case PollSession(p, session, w) =>
      if session !in Table(s.active) {
        WorkerAdded(s.workers, w, Worker(session, s.generation, s.polls[p]));
      }
    case WorkerDone(w) => WorkerRemoved(s.workers, w, s.generation);
    case StopTable(_) => NoneNewer(s.workers, s.generation);
    case _ =>
  }

  // ----- contexts

  /** A context some stop has detached and will cancel. */
  predicate Doomed(s: State, c: nat) {
    exists q :: q in s.stops && s.stops[q].context == Some(c)
  }

  /** No context is lost: it is the current one, or cancelled, or in the hands of a stop. */
  predicate Tracked(s: State, c: nat) {
    c in s.cancelled || s.context == Some(c) || Doomed(s, c)
  }

  predicate AllTracked(s: State) {
    && (forall w :: w in s.workers ==> Tracked(s, s.workers[w].context))
    && (forall p :: p in s.polls ==> Tracked(s, s.polls[p]))
  }

  lemma StepKeepsContext(s: State, a: Action, c: nat)
    requires Enabled(s, a) && Tracked(s, c)
    ensures Tracked(Do(s, a), c)
  {
    var s' := Do(s, a);
    if Doomed(s, c) {
      var q :| q in s.stops && s.stops[q].context == Some(c);
      assert c !in s'.cancelled ==> q in s'.stops && s'.stops[q].context == Some(c);
    }
    if a.StopContext? && s.context == Some(c) {
      assert s'.stops[a.q].context == Some(c);
    }
  }

  lemma StepKeepsTracked(s: State, a: Action)
    requires Enabled(s, a) && AllTracked(s)
    ensures AllTracked(Do(s, a))
  {
    var s' := Do(s, a);
    forall c | Tracked(s, c)
      ensures Tracked(s', c)
    {
      StepKeepsContext(s, a, c);
    }
  }

  // ----- whole runs

  ghost predicate Runs(s: State, actions: seq<Action>, s': State)
    decreases |actions|
  {
    if actions == [] then s' == s
    else Enabled(s, actions[0]) && Runs(Do(s, actions[0]), actions[1..], s')
  }

  lemma {:induction false} RunKeeps(s: State, actions: seq<Action>, s': State)
    requires Exclusive(s) && AllTracked(s) && Runs(s, actions, s')
    ensures Exclusive(s') && AllTracked(s')
    decreases |actions|
  {
    hide Exclusive, AllTracked, Do, Enabled;
    if actions != [] {
      StepKeepsExclusive(s, actions[0]);
      StepKeepsTracked(s, actions[0]);
      RunKeeps(Do(s, actions[0]), actions[1..], s');
    }
  }

  /** In every interleaving: a session has at most one live worker of any one generation; its
      slot is taken exactly when its worker of the current generation lives; and a worker that
      ends frees its own slot, but an older one changes no slot. */
  lemma SessionsExclusive(actions: seq<Action>, s: State)
    requires Runs(Init, actions, s)
    ensures forall w, v :: w in s.workers && v in s.workers && SameSlot(s.workers[w], s.workers[v]) ==> w == v
    ensures Table(s.active).Keys == Current(s.workers, s.generation)
    ensures forall w :: w in s.workers ==>
      Table(Do(s, WorkerDone(w)).active) == Table(s.active) - if s.workers[w].generation == s.generation then {s.workers[w].session} else {}
  {
    assert Current(Init.workers, Init.generation) == {};
    RunKeeps(Init, actions, s);
    forall w | w in s.workers
      ensures Table(Do(s, WorkerDone(w)).active) ==
        Table(s.active) - if s.workers[w].generation == s.generation then {s.workers[w].session} else {}
    {
      SlotFreed(s, w);
    }
  }

  lemma SlotFreed(s: State, w: nat)
    requires Exclusive(s) && w in s.workers
    ensures Table(Do(s, WorkerDone(w)).active) ==
      Table(s.active) - if s.workers[w].generation == s.generation then {s.workers[w].session} else {}
  {
    assert s.workers[w].generation == s.generation ==> s.workers[w].session in Current(s.workers, s.generation);
  }

  /** The session has a live worker of the current generation. */
  ghost predicate Answered(s: State, session: string) {
    exists w :: w in s.workers && s.workers[w].session == session && s.workers[w].generation == s.generation
  }

  /** In every interleaving a poll starts a worker for a session exactly when the current generation
      has none, under the poll's own context, and then the session is answered. */
  lemma PollStarts(actions: seq<Action>, s: State, p: nat, session: string, w: nat)
    requires Runs(Init, actions, s) && Enabled(s, PollSession(p, session, w))
    ensures Answered(Do(s, PollSession(p, session, w)), session)
    ensures Do(s, PollSession(p, session, w)).workers ==
      if Answered(s, session) then s.workers else s.workers[w := Worker(session, s.generation, s.polls[p])]
  {
    assert Current(Init.workers, Init.generation) == {};
    RunKeeps(Init, actions, s);
    var t := Do(s, PollSession(p, session, w));
    if session in Table(s.active) {
      assert session in Current(s.workers, s.generation);
    } else {
      assert session !in Current(s.workers, s.generation);
      assert t.workers[w].session == session && t.workers[w].generation == t.generation;
    }
  }

  /** A poll gets a context only while the relay is on: the current one, or a new one that nothing has
      had before; and that context is neither cancelled nor in the hands of a stop. */
  lemma PollContext(actions: seq<Action>, s: State, p: nat)
    requires Runs(Init, actions, s) && Enabled(s, PollBegin(p))
    ensures var t := Do(s, PollBegin(p));
      if !s.enabled then t == s
      else
        && p in t.polls && t.context == Some(t.polls[p])
        && (s.context.Some? ==> t.polls[p] == s.context.value)
        && t.polls[p] !in t.cancelled && !Doomed(t, t.polls[p])
        && (s.context.None? ==> forall w :: w in s.workers ==> s.workers[w].context != t.polls[p])
  {
    assert Current(Init.workers, Init.generation) == {};
    RunKeeps(Init, actions, s);
    RunKeepsNumbered(Init, actions, s);
    StepKeepsNumbered(s, PollBegin(p));
    hide Exclusive;
  }

  /** What ends a poll, a worker and a stop's regions: the poll is over; the worker is; the first region
      takes the context, the second empties the table and starts a generation, the last cancels. */
  lemma EndsMean(s: State, a: Action)
    requires Enabled(s, a)
    ensures a.SetRelay? ==> Do(s, a).enabled == a.enabled
    ensures a.PollEnd? ==> Do(s, a).polls == s.polls - {a.p}
    ensures a.WorkerDone? ==> Do(s, a).workers == s.workers - {a.w}
    ensures a.StopContext? ==> Do(s, a).context.None? && Do(s, a).stops == s.stops[a.q := Detached(s.context)]
    ensures a.StopTable? ==> Table(Do(s, a).active) == map[] && Do(s, a).generation == s.generation + 1
    ensures a.StopCancel? ==> a.q !in Do(s, a).stops
    ensures a.StopCancel? && s.stops[a.q].context.Some? ==> s.stops[a.q].context.value in Do(s, a).cancelled
  {
  }

  lemma {:induction false} StaysDetached(s: State, actions: seq<Action>, s': State)
    requires s.context == None && !s.enabled && Runs(s, actions, s') && SetRelay(true) !in actions
    ensures s'.context == None && !s'.enabled
    decreases |actions|
  {
    if actions != [] {
      assert actions[0] in actions;
      StaysDetached(Do(s, actions[0]), actions[1..], s');
    }
  }

  /** Disabling the relay closes its sessions: once a stop has detached the context while the
      relay is off, and the stops under way have finished, every worker that is still live, of
      whatever generation, has a cancelled context. */
  lemma DisablingCancelsWorkers(before: seq<Action>, s: State, q: nat, later: seq<Action>, s': State)
    requires Runs(Init, before, s) && !s.enabled && q !in s.stops
    requires Runs(Do(s, StopContext(q)), later, s') && SetRelay(true) !in later && s'.stops == map[]
    ensures forall w :: w in s'.workers ==> s'.workers[w].context in s'.cancelled
    ensures forall p :: p in s'.polls ==> s'.polls[p] in s'.cancelled
  {
    assert Current(Init.workers, Init.generation) == {};
    RunKeeps(Init, before, s);
    StepKeepsExclusive(s, StopContext(q));
    StepKeepsTracked(s, StopContext(q));
    RunKeeps(Do(s, StopContext(q)), later, s');
    StaysDetached(Do(s, StopContext(q)), later, s');
  }

  lemma RunsStep(s: State, a: Action, rest: seq<Action>, s': State)
    requires Enabled(s, a) && Runs(Do(s, a), rest, s')
    ensures Runs(s, [a] + rest, s')
  {
    assert ([a] + rest)[1..] == rest;
  }

  // ----- what a stop misses

  /** Contexts are numbered in order, and nobody has cancelled or detached the current one. */
  predicate Numbered(s: State) {
    && (forall c :: c in s.cancelled ==> c < s.nextContext)
    && (forall q :: q in s.stops && s.stops[q].context.Some? ==> s.stops[q].context.value < s.nextContext)
    && (s.context.Some? ==> s.context.value < s.nextContext && s.context.value !in s.cancelled && !Doomed(s, s.context.value))
  }

  lemma StepKeepsNumbered(s: State, a: Action)
    requires Enabled(s, a) && Numbered(s)
    ensures Numbered(Do(s, a))
  {
    var s' := Do(s, a);
    if s'.context.Some? && Doomed(s', s'.context.value) {
      var q :| q in s'.stops && s'.stops[q].context == s'.context;
      assert q in s.stops && s.stops[q].context == s'.context;
    }
  }

  lemma {:induction false} RunKeepsNumbered(s: State, actions: seq<Action>, s': State)
    requires Numbered(s) && Runs(s, actions, s')
    ensures Numbered(s')
    decreases |actions|
  {
    hide Numbered, Do, Enabled;
    if actions != [] {
      StepKeepsNumbered(s, actions[0]);
      RunKeepsNumbered(Do(s, actions[0]), actions[1..], s');
    }
  }

  /** A live worker that is neither cancelled nor about to be by a stop under way, and whose session
      is not in the table. */
  predicate MissedWorker(s: State, w: nat) {
    w in s.workers && s.workers[w].context !in s.cancelled && !Doomed(s, s.workers[w].context) &&
    s.workers[w].session !in Table(s.active)
  }

  ghost predicate Missed(s: State) {
    exists w :: MissedWorker(s, w)
  }

  /** A stop about to enter its second lock region misses exactly the live workers under the context
      that is current at that moment, one created since the stop's first region. In every
      interleaving, relay on or off and whatever other stops are under way, it misses a worker
      exactly when there is such a one. */
  lemma StopMissesExactly(actions: seq<Action>, s: State, q: nat)
    requires Runs(Init, actions, s) && q in s.stops && s.stops[q].Detached?
    ensures
      var t := Do(Do(s, StopTable(q)), StopCancel(q));
      t.workers == s.workers &&
      (forall w :: w in s.workers ==> (MissedWorker(t, w) <==> s.context == Some(s.workers[w].context))) &&
      (Missed(t) <==> exists w :: w in s.workers && s.context == Some(s.workers[w].context))
  {
    assert Current(Init.workers, Init.generation) == {};
    RunKeeps(Init, actions, s);
    RunKeepsNumbered(Init, actions, s);
    var u := Do(s, StopTable(q));
    StepKeepsTracked(s, StopTable(q));
    StepKeepsNumbered(s, StopTable(q));
    var t := Do(u, StopCancel(q));
    StepKeepsTracked(u, StopCancel(q));
    StepKeepsNumbered(u, StopCancel(q));
    hide Numbered, Doomed, Tracked;
    forall w | w in s.workers ensures MissedWorker(t, w) <==> s.context == Some(s.workers[w].context) {
      OneFate(t, s.workers[w].context);
    }
  }

  /** A context is the current one, or it is cancelled or in the hands of a stop. */
  lemma OneFate(s: State, c: nat)
    requires Numbered(s) && Tracked(s, c)
    ensures s.context == Some(c) <==> c !in s.cancelled && !Doomed(s, c)
  {
  }

  /** It does happen while the relay stays on: a poll between the two lock regions starts a worker
      that the finished stop has neither cancelled nor kept in the table. */
  lemma EnabledStopCanMissWorker()
    ensures exists actions, s :: Runs(Init, actions, s) && s.enabled && s.stops == map[] && Missed(s)
  {
    var a0, a1, a2, a3, a4, a5 := SetRelay(true), StopContext(0), PollBegin(0), PollSession(0, "x", 0), StopTable(0), StopCancel(0);
    var s1 := Do(Init, a0);
    var s2 := Do(s1, a1);
    var s3 := Do(s2, a2);
    var s4 := Do(s3, a3);
    var s5 := Do(s4, a4);
    var s6 := Do(s5, a5);
    RunsStep(s5, a5, [], s6);
    RunsStep(s4, a4, [a5], s6);
    RunsStep(s3, a3, [a4, a5], s6);
    RunsStep(s2, a2, [a3, a4, a5], s6);
    RunsStep(s1, a1, [a2, a3, a4, a5], s6);
    RunsStep(Init, a0, [a1, a2, a3, a4, a5], s6);
    assert s6.workers[0] == Worker("x", 0, 0) && MissedWorker(s6, 0);
  }
}
