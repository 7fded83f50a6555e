/** Bridge accounting against the self-update reservation: every lock region and every atomic
    add is one step, and the steps of all goroutines interleave freely
    (shellagent/network_bridge.go, shellagent/agent.go, shellagent/updater.go). */
module BridgeUpdates {

  /** One bridge in one counted set. Bridge numbers are never reused. */
  datatype Record = Record(owner: nat, bridge: nat)

  /** What a goroutine is in the middle of. */
  datatype Thread =
    | Dialing(owner: nat)                    // open: holds the read lock, nothing put yet
    | Putting(record: Record)                // open: the record is in the set, not yet counted
    | Replying(record: Record)               // open: counted, the reply is being sent
    | Taking(record: Record, opening: bool)  // take: removed under the set's mutex, not yet subtracted
    | Closing(owner: nat, removed: set<Record>)  // closeAll: emptied, mutex released, not yet subtracted

  /** Where the one updater goroutine is; `force` is the argument `tryBeginUpdate` succeeded with. */
  datatype Updater =
    | Resting
    | Reserved(force: bool)    // tryBeginUpdate returned true
    | Applying(force: bool)    // the staged file verified; OnUpdate is running
    | Releasing(force: bool)   // a failure was seen; cancelUpdate is next
    | HandedOver(force: bool)  // OnUpdate succeeded

  datatype State = State(
    threads: map<nat, Thread>,
    records: set<Record>,
    counter: int,
    nextBridge: nat,
    updatePending: bool,
    updater: Updater)

  const Init := State(map[], {}, 0, 0, false, Resting)

  datatype Action =
    | OpenLock(t: nat, owner: nat)
    | DialFailed(t: nat)
    | PutInsert(t: nat)
    | PutCount(t: nat)
    | ReplySent(t: nat)
    | ReplyFailed(t: nat)
    | TakeRemove(t: nat, record: Record)
    | TakeSubtract(t: nat)
    | CloseClear(t: nat, owner: nat)
    | CloseSubtract(t: nat)
    | TryBegin(force: bool)
    | VerifyFailed
    | Verified
    | ApplyFailed
    | Applied
    | Cancel

  // ----- locks

  /** The goroutine holds the update lock for reading: an open holds it until its reply is sent. */
  predicate Reads(p: Thread) {
    p.Dialing? || p.Putting? || p.Replying? || (p.Taking? && p.opening)
  }

  predicate NoReaders(threads: map<nat, Thread>) {
    forall t :: t in threads ==> !Reads(threads[t])
  }

  /** The set's mutex is free: only a take keeps it across its atomic add. */
  predicate MutexFree(s: State, owner: nat) {
    forall t :: t in s.threads && s.threads[t].Taking? ==> s.threads[t].record.owner != owner
  }

  function InSet(records: set<Record>, owner: nat): set<Record> {
    set r | r in records && r.owner == owner
  }

  // ----- steps

  predicate Enabled(s: State, a: Action) {
    match a
    case OpenLock(t, owner) => t !in s.threads
    case DialFailed(t) => t in s.threads && s.threads[t].Dialing?
    case PutInsert(t) => t in s.threads && s.threads[t].Dialing? && MutexFree(s, s.threads[t].owner)
    case PutCount(t) => t in s.threads && s.threads[t].Putting?
    case ReplySent(t) => t in s.threads && s.threads[t].Replying?
    case ReplyFailed(t) => t in s.threads && s.threads[t].Replying? && MutexFree(s, s.threads[t].record.owner)
    case TakeRemove(t, record) => t !in s.threads && MutexFree(s, record.owner)
    case TakeSubtract(t) => t in s.threads && s.threads[t].Taking?
    case CloseClear(t, owner) => t !in s.threads && MutexFree(s, owner)
    case CloseSubtract(t) => t in s.threads && s.threads[t].Closing?
    case TryBegin(force) => s.updater.Resting? && NoReaders(s.threads)
    case VerifyFailed => s.updater.Reserved?
    case Verified => s.updater.Reserved?
    case ApplyFailed => s.updater.Applying?
    case Applied => s.updater.Applying?
    case Cancel => s.updater.Releasing? && NoReaders(s.threads)
  }

  /** `take`: nothing happens to a set that does not have the record. */
  function Take(s: State, t: nat, record: Record, opening: bool): State {
    if record in s.records then s.(threads := s.threads[t := Taking(record, opening)], records := s.records - {record})
    else s.(threads := s.threads - {t})
  }

  function Do(s: State, a: Action): State
    requires Enabled(s, a)
  {
    match a
    case OpenLock(t, owner) => if s.updatePending then s else s.(threads := s.threads[t := Dialing(owner)])
    case DialFailed(t) => s.(threads := s.threads - {t})
    case PutInsert(t) =>
      var record := Record(s.threads[t].owner, s.nextBridge);
      s.(threads := s.threads[t := Putting(record)], records := s.records + {record}, nextBridge := s.nextBridge + 1)
    case PutCount(t) => s.(threads := s.threads[t := Replying(s.threads[t].record)], counter := s.counter + 1)
    case ReplySent(t) => s.(threads := s.threads - {t})
    case ReplyFailed(t) => Take(s, t, s.threads[t].record, true)
    case TakeRemove(t, record) => Take(s, t, record, false)
    case TakeSubtract(t) => s.(threads := s.threads - {t}, counter := s.counter - 1)
    case CloseClear(t, owner) =>
      s.(threads := s.threads[t := Closing(owner, InSet(s.records, owner))], records := s.records - InSet(s.records, owner))
    case CloseSubtract(t) => s.(threads := s.threads - {t}, counter := s.counter - |s.threads[t].removed|)
    case TryBegin(force) =>
      if s.updatePending || (!force && s.counter != 0) then s else s.(updatePending := true, updater := Reserved(force))
    case VerifyFailed => s.(updater := Releasing(s.updater.force))
    case Verified => s.(updater := Applying(s.updater.force))
    case ApplyFailed => s.(updater := Releasing(s.updater.force))
    case Applied => s.(updater := HandedOver(s.updater.force))
    case Cancel => s.(updatePending := false, updater := Resting)
  }

  // ----- what is in flight

  /** The record this goroutine has put in a set and still has to count. */
  function Puts(p: Thread): set<Record> {
    if p.Putting? then {p.record} else {}
  }

  /** Records inserted by a `put` whose atomic add is still to come. */
  function Uncounted(threads: map<nat, Thread>): set<Record> {
    set t, r | t in threads && r in Puts(threads[t]) :: r
  }

  /** The records whose removal this goroutine still has to subtract. */
  function Owes(p: Thread): set<Record> {
    match p
    case Taking(r, _) => {r}
    case Closing(_, removed) => removed
    case _ => {}
  }

  function Owed(threads: map<nat, Thread>): set<Record> {
    set t, r | t in threads && r in Owes(threads[t]) :: r
  }

  /** The atomic counter is the number of records, less the puts and plus the removals in
      flight; and bridge numbers tell the records apart wherever they are. */
  predicate Balanced(records: set<Record>, uncounted: set<Record>, owed: set<Record>, counter: int, nextBridge: nat) {
    && counter == |records| - |uncounted| + |owed|
    && records !! owed
    && (forall r :: r in records + uncounted + owed ==> r.bridge < nextBridge)
  }

  /** No two goroutines are in the middle of accounting for the same record. */
  predicate Disjoint(threads: map<nat, Thread>) {
    forall t, u :: t in threads && u in threads && t != u ==>
      Owes(threads[t]) !! Owes(threads[u]) && Puts(threads[t]) !! Puts(threads[u])
  }

  /** Holding a reservation made without `force`. */
  predicate IdleReserved(u: Updater) {
    !u.Resting? && !u.force
  }

  predicate IdleEmpty(u: Updater, records: set<Record>, owed: set<Record>) {
    IdleReserved(u) ==> records == {} && owed == {}
  }

  predicate Inv(s: State) {
    && Balanced(s.records, Uncounted(s.threads), Owed(s.threads), s.counter, s.nextBridge)
    && Disjoint(s.threads)
    && (s.updatePending <==> !s.updater.Resting?)
    && (s.updatePending ==> NoReaders(s.threads))
    && IdleEmpty(s.updater, s.records, Owed(s.threads))
  }

  // ----- each step keeps the account

  function OwesAt(threads: map<nat, Thread>, t: nat): set<Record> {
    if t in threads then Owes(threads[t]) else {}
  }

  function PutsAt(threads: map<nat, Thread>, t: nat): set<Record> {
    if t in threads then Puts(threads[t]) else {}
  }

  /** A goroutine that ends takes its own part of the account with it, and only that. */
  lemma Ended(threads: map<nat, Thread>, t: nat)
    requires Disjoint(threads)
    ensures OwesAt(threads, t) <= Owed(threads) && Owed(threads - {t}) == Owed(threads) - OwesAt(threads, t)
    ensures PutsAt(threads, t) <= Uncounted(threads) && Uncounted(threads - {t}) == Uncounted(threads) - PutsAt(threads, t)
    ensures Disjoint(threads - {t})
  {
    var without := threads - {t};
    forall r | r in Owed(threads) - OwesAt(threads, t)
      ensures r in Owed(without)
    {
      var u :| u in threads && r in Owes(threads[u]);
      assert u in without && without[u] == threads[u];
    }
    forall r | r in Uncounted(threads) - PutsAt(threads, t)
      ensures r in Uncounted(without)
    {
      var u :| u in threads && r in Puts(threads[u]);
      assert u in without && without[u] == threads[u];
    }
  }

  lemma StartedOwed(threads: map<nat, Thread>, t: nat, p: Thread)
    requires t !in threads
    ensures Owed(threads[t := p]) == Owed(threads) + Owes(p)
  {
    var changed := threads[t := p];
    forall r | r in Owed(threads) + Owes(p) ensures r in Owed(changed) {
      if r in Owes(p) {
        assert r in Owes(changed[t]);
      } else {
        var u :| u in threads && r in Owes(threads[u]);
        assert u in changed && changed[u] == threads[u];
      }
    }
  }

  lemma StartedUncounted(threads: map<nat, Thread>, t: nat, p: Thread)
    requires t !in threads
    ensures Uncounted(threads[t := p]) == Uncounted(threads) + Puts(p)
  {
    var changed := threads[t := p];
    forall r | r in Uncounted(threads) + Puts(p) ensures r in Uncounted(changed) {
      if r in Puts(p) {
        assert r in Puts(changed[t]);
      } else {
        var u :| u in threads && r in Puts(threads[u]);
        assert u in changed && changed[u] == threads[u];
      }
    }
  }

  lemma StartedDisjoint(threads: map<nat, Thread>, t: nat, p: Thread)
    requires t !in threads && Disjoint(threads) && Owes(p) !! Owed(threads) && Puts(p) !! Uncounted(threads)
    ensures Disjoint(threads[t := p])
  {
    forall u | u in threads ensures Owes(threads[u]) <= Owed(threads) && Puts(threads[u]) <= Uncounted(threads) {
    }
    hide Owes, Puts, Owed, Uncounted;
    var changed := threads[t := p];
    forall u, v | u in changed && v in changed && u != v
      ensures Owes(changed[u]) !! Owes(changed[v]) && Puts(changed[u]) !! Puts(changed[v])
    {
      if u != t && v != t {
        assert changed[u] == threads[u] && changed[v] == threads[v];
      }
    }
  }

  /** A goroutine that starts something adds its own part. */
  lemma Started(threads: map<nat, Thread>, t: nat, p: Thread)
    requires t !in threads && Disjoint(threads)
    ensures Owed(threads[t := p]) == Owed(threads) + Owes(p)
    ensures Uncounted(threads[t := p]) == Uncounted(threads) + Puts(p)
    ensures Owes(p) !! Owed(threads) && Puts(p) !! Uncounted(threads) ==> Disjoint(threads[t := p])
  {
    StartedOwed(threads, t, p);
    StartedUncounted(threads, t, p);
    if Owes(p) !! Owed(threads) && Puts(p) !! Uncounted(threads) {
      StartedDisjoint(threads, t, p);
    }
  }

  lemma NothingUncounted(s: State)
    requires NoReaders(s.threads)
    ensures Uncounted(s.threads) == {}
  {
  }

  lemma ReadersAfter(s: State, t: nat, p: Thread)
    ensures NoReaders(s.threads) ==> NoReaders(s.threads - {t}) && (!Reads(p) ==> NoReaders(s.threads[t := p]))
    ensures t in s.threads && Reads(s.threads[t]) ==> !NoReaders(s.threads)
  {
  }

  /** What every goroutine step has in common: how the account and the locks move. */
  lemma {:induction false} ThreadMoves(s: State, t: nat, p: Thread)
    requires Inv(s)
    ensures OwesAt(s.threads, t) <= Owed(s.threads) && Owed(s.threads - {t}) == Owed(s.threads) - OwesAt(s.threads, t)
    ensures PutsAt(s.threads, t) <= Uncounted(s.threads) && Uncounted(s.threads - {t}) == Uncounted(s.threads) - PutsAt(s.threads, t)
    ensures Disjoint(s.threads - {t})
    ensures Owed(s.threads[t := p]) == Owed(s.threads - {t}) + Owes(p)
    ensures Uncounted(s.threads[t := p]) == Uncounted(s.threads - {t}) + Puts(p)
    ensures Owes(p) !! Owed(s.threads - {t}) && Puts(p) !! Uncounted(s.threads - {t}) ==> Disjoint(s.threads[t := p])
    ensures NoReaders(s.threads) ==> NoReaders(s.threads - {t}) && (!Reads(p) ==> NoReaders(s.threads[t := p]))
    ensures t in s.threads && Reads(s.threads[t]) ==> !NoReaders(s.threads)
  {
    hide Owed, Uncounted, Disjoint;
    Ended(s.threads, t);
    Started(s.threads - {t}, t, p);
    assert (s.threads - {t})[t := p] == s.threads[t := p];
    ReadersAfter(s, t, p);
  }

  lemma BalanceInsert(records: set<Record>, uncounted: set<Record>, owed: set<Record>, counter: int, next: nat, r: Record)
    requires Balanced(records, uncounted, owed, counter, next) && r.bridge == next
    ensures Balanced(records + {r}, uncounted + {r}, owed, counter, next + 1) && r !in uncounted
  {
    assert r !in records && r !in uncounted && r !in owed;
    assert |records + {r}| == |records| + 1 && |uncounted + {r}| == |uncounted| + 1;
  }

  lemma BalanceCount(records: set<Record>, uncounted: set<Record>, owed: set<Record>, counter: int, next: nat, r: Record)
    requires Balanced(records, uncounted, owed, counter, next) && r in uncounted
    ensures Balanced(records, uncounted - {r}, owed, counter + 1, next)
  {
    assert |uncounted - {r}| == |uncounted| - 1;
  }

  lemma BalanceRemove(records: set<Record>, uncounted: set<Record>, owed: set<Record>, counter: int, next: nat,
                      removed: set<Record>)
    requires Balanced(records, uncounted, owed, counter, next) && removed <= records
    ensures Balanced(records - removed, uncounted, owed + removed, counter, next) && removed !! owed
  {
    assert |records - removed| == |records| - |removed|;
    assert |owed + removed| == |owed| + |removed|;
  }

  lemma BalanceSubtract(records: set<Record>, uncounted: set<Record>, owed: set<Record>, counter: int, next: nat,
                        removed: set<Record>)
    requires Balanced(records, uncounted, owed, counter, next) && removed <= owed
    ensures Balanced(records, uncounted, owed - removed, counter - |removed|, next)
  {
    assert |owed - removed| == |owed| - |removed|;
  }

  lemma IdleRemove(u: Updater, records: set<Record>, owed: set<Record>, removed: set<Record>)
    requires IdleEmpty(u, records, owed)
    ensures removed <= records ==> IdleEmpty(u, records - removed, owed + removed)
    ensures IdleEmpty(u, records, owed - removed)
  {
  }

  lemma Unchanged<T>(a: set<T>)
    ensures a - {} == a && a + {} == a
  {
  }

  lemma OpenSteps(s: State, a: Action)
    requires Inv(s) && Enabled(s, a)
    requires a.OpenLock? || a.DialFailed? || a.ReplySent?
    ensures Inv(Do(s, a))
  {
    hide Owed, Uncounted, Disjoint, NoReaders, Balanced;
    ThreadMoves(s, a.t, if a.OpenLock? then Dialing(a.owner) else s.threads[a.t]);
    Unchanged(Owed(s.threads));
    Unchanged(Uncounted(s.threads));
  }

  lemma PutSteps(s: State, a: Action)
    requires Inv(s) && Enabled(s, a)
    requires a.PutInsert? || a.PutCount?
    ensures Inv(Do(s, a))
  {
    hide Owed, Uncounted, Disjoint, NoReaders, Balanced, MutexFree;
    var u, o := Uncounted(s.threads), Owed(s.threads);
    Unchanged(u);
    Unchanged(o);
    if a.PutInsert? {
      var r := Record(s.threads[a.t].owner, s.nextBridge);
      ThreadMoves(s, a.t, Putting(r));
      BalanceInsert(s.records, u, o, s.counter, s.nextBridge, r);
    } else {
      var r := s.threads[a.t].record;
      ThreadMoves(s, a.t, Replying(r));
      BalanceCount(s.records, u, o, s.counter, s.nextBridge, r);
      Unchanged(u - {r});
    }
  }

  /** Records leave a set into the account of the goroutine that took them out. */
  lemma RecordsRemoved(s: State, t: nat, p: Thread, removed: set<Record>)
    requires Inv(s) && OwesAt(s.threads, t) == {} && PutsAt(s.threads, t) == {} && removed <= s.records
    requires Owes(p) == removed && Puts(p) == {} && (Reads(p) ==> t in s.threads && Reads(s.threads[t]))
    ensures Inv(s.(threads := s.threads[t := p], records := s.records - removed))
  {
    hide Owed, Uncounted, Disjoint, NoReaders, Balanced, IdleEmpty, Owes, Puts, Reads, OwesAt, PutsAt;
    var u, o := Uncounted(s.threads), Owed(s.threads);
    Unchanged(u);
    Unchanged(o);
    ThreadMoves(s, t, p);
    BalanceRemove(s.records, u, o, s.counter, s.nextBridge, removed);
    IdleRemove(s.updater, s.records, o, removed);
  }

  /** A goroutine with nothing in flight ends. */
  lemma IdleThreadEnds(s: State, t: nat)
    requires Inv(s) && OwesAt(s.threads, t) == {} && PutsAt(s.threads, t) == {}
    ensures Inv(s.(threads := s.threads - {t}))
  {
    hide Owed, Uncounted, Disjoint, NoReaders, Balanced, IdleEmpty, Owes, Puts, Reads, OwesAt, PutsAt;
    Unchanged(Uncounted(s.threads));
    Unchanged(Owed(s.threads));
    ThreadMoves(s, t, Taking(Record(0, 0), false));
  }

  lemma TakeStep(s: State, t: nat, record: Record, opening: bool)
    requires Inv(s) && (if opening then Enabled(s, ReplyFailed(t)) && s.threads[t].record == record else Enabled(s, TakeRemove(t, record)))
    ensures Inv(Take(s, t, record, opening))
  {
    hide Inv, MutexFree;
    if record in s.records {
      RecordsRemoved(s, t, Taking(record, opening), {record});
    } else {
      IdleThreadEnds(s, t);
    }
  }

  lemma CloseStep(s: State, t: nat, owner: nat)
    requires Inv(s) && Enabled(s, CloseClear(t, owner))
    ensures Inv(Do(s, CloseClear(t, owner)))
  {
    hide Inv, MutexFree;
    var removed := InSet(s.records, owner);
    RecordsRemoved(s, t, Closing(owner, removed), removed);
  }

  /** Both subtractions take off exactly what the goroutine owes: one for a take. */
  lemma SubtractStep(s: State, t: nat)
    requires Inv(s) && t in s.threads && (s.threads[t].Taking? || s.threads[t].Closing?)
    ensures Inv(s.(threads := s.threads - {t}, counter := s.counter - |Owes(s.threads[t])|))
  {
    hide Owed, Uncounted, Disjoint, NoReaders, Balanced, IdleEmpty, Owes;
    var u, o, owes := Uncounted(s.threads), Owed(s.threads), Owes(s.threads[t]);
    Unchanged(u);
    ThreadMoves(s, t, s.threads[t]);
    BalanceSubtract(s.records, u, o, s.counter, s.nextBridge, owes);
    IdleRemove(s.updater, s.records, o, owes);
  }

  lemma UpdaterSteps(s: State, a: Action)
    requires Inv(s) && Enabled(s, a)
    requires a.TryBegin? || a.VerifyFailed? || a.Verified? || a.ApplyFailed? || a.Applied? || a.Cancel?
    ensures Inv(Do(s, a))
  {
    hide Owed, Uncounted, Disjoint;
    if a.TryBegin? {
      NothingUncounted(s);
    }
  }

  lemma StepKeepsInv(s: State, a: Action)
    requires Inv(s) && Enabled(s, a)
    ensures Inv(Do(s, a))
  {
    hide Inv;
    match a
    case PutInsert(_) => PutSteps(s, a);
    case PutCount(_) => PutSteps(s, a);
    case ReplyFailed(t) => TakeStep(s, t, s.threads[t].record, true);
    case TakeRemove(t, record) => TakeStep(s, t, record, false);
    case CloseClear(t, owner) => CloseStep(s, t, owner);
    case TakeSubtract(_) => SubtractStep(s, a.t);
    case CloseSubtract(_) => SubtractStep(s, a.t);
    case OpenLock(_, _) => OpenSteps(s, a);
    case DialFailed(_) => OpenSteps(s, a);
    case ReplySent(_) => OpenSteps(s, a);
    case _ => UpdaterSteps(s, a);
  }

  // ----- whole runs

  /** `actions`, each enabled where it happens, lead from `s` to `s'`. */
  ghost predicate Runs(s: State, actions: seq<Action>, s': State)
    decreases |actions|
  {
    if actions == [] then s' == s
    else Enabled(s, actions[0]) && Runs(Do(s, actions[0]), actions[1..], s')
  }

  lemma {:induction false} RunKeepsInv(s: State, actions: seq<Action>, s': State)
    requires Inv(s) && Runs(s, actions, s')
    ensures Inv(s')
    decreases |actions|
  {
    hide Inv, Do, Enabled;
    if actions != [] {
      StepKeepsInv(s, actions[0]);
      RunKeepsInv(Do(s, actions[0]), actions[1..], s');
    }
  }

  lemma InitInv()
    ensures Inv(Init)
  {
    assert Owed(Init.threads) == {} && Uncounted(Init.threads) == {};
  }

  // ----- what an action does to one record

  /** The action takes `r` out of its set: a take of it, the failed reply of its own open, or a
      closing of everything its owner has. */
  predicate Removes(s: State, a: Action, r: Record)
    requires Enabled(s, a)
  {
    match a
    case TakeRemove(_, record) => r == record
    case ReplyFailed(t) => r == s.threads[t].record
    case CloseClear(_, owner) => r.owner == owner
    case _ => false
  }

  /** The action puts `r` into its owner's set, under the next bridge number. */
  predicate Inserts(s: State, a: Action, r: Record)
    requires Enabled(s, a)
  {
    a.PutInsert? && r.owner == s.threads[a.t].owner && r.bridge == s.nextBridge
  }

  /** Record by record: each action takes out exactly what it names and puts in nothing but a new
      bridge; the count moves later, by one for a put or a take and by all it emptied for a closing;
      and only a reservation and a cancel move the flag. */
  lemma RecordsMove(s: State, a: Action)
    requires Enabled(s, a)
    ensures forall r :: r in Do(s, a).records <==> Inserts(s, a, r) || (r in s.records && !Removes(s, a, r))
    ensures Do(s, a).nextBridge == s.nextBridge + if a.PutInsert? then 1 else 0
    ensures Do(s, a).counter == s.counter +
      if a.PutCount? then 1 else if a.TakeSubtract? then -1 else if a.CloseSubtract? then -|s.threads[a.t].removed| else 0
    ensures Do(s, a).updatePending <==>
      if a.TryBegin? then s.updatePending || a.force || s.counter == 0 else !a.Cancel? && s.updatePending
  {
  }

  /** Where an action leaves the goroutine that takes it: a removal is owed exactly when something was
      removed, an open that is refused, fails or has replied is over, and other goroutines stay where
      they are. */
  lemma ThreadGoes(s: State, a: Action)
    requires Enabled(s, a) && !ByUpdater(a)
    ensures forall u :: u != a.t ==> (u in Do(s, a).threads <==> u in s.threads)
    ensures forall u :: u != a.t && u in s.threads ==> Do(s, a).threads[u] == s.threads[u]
    ensures a.TakeRemove? || a.ReplyFailed? ==>
      if exists r :: r in s.records && Removes(s, a, r) then
        a.t in Do(s, a).threads && Do(s, a).threads[a.t].Taking? && Removes(s, a, Do(s, a).threads[a.t].record)
      else a.t !in Do(s, a).threads
    ensures a.CloseClear? ==>
      && a.t in Do(s, a).threads && Do(s, a).threads[a.t].Closing?
      && forall r :: r in Do(s, a).threads[a.t].removed <==> r in s.records && r.owner == a.owner
    ensures a.OpenLock? ==> if s.updatePending then Do(s, a) == s else Do(s, a).threads == s.threads[a.t := Dialing(a.owner)]
    ensures a.PutInsert? ==>
      a.t in Do(s, a).threads && Do(s, a).threads[a.t].Putting? && Inserts(s, a, Do(s, a).threads[a.t].record)
    ensures a.PutCount? ==> a.t in Do(s, a).threads && Do(s, a).threads[a.t] == Replying(s.threads[a.t].record)
    ensures a.DialFailed? || a.ReplySent? || a.TakeSubtract? || a.CloseSubtract? ==> a.t !in Do(s, a).threads
    ensures Do(s, a).updater == s.updater
  {
    if a.TakeRemove? {
      assert Removes(s, a, a.record);
    } else if a.ReplyFailed? {
      assert Removes(s, a, s.threads[a.t].record);
    }
  }

  predicate ByUpdater(a: Action) {
    a.TryBegin? || a.VerifyFailed? || a.Verified? || a.ApplyFailed? || a.Applied? || a.Cancel?
  }

  /** The updater's own moves: verify, apply and hand over, or release and rest; nobody else moves. */
  lemma UpdaterGoes(s: State, a: Action)
    requires Enabled(s, a) && ByUpdater(a)
    ensures Do(s, a).threads == s.threads
    ensures a.TryBegin? ==> Do(s, a).updater == if !s.updatePending && (a.force || s.counter == 0) then Reserved(a.force) else Resting
    ensures a.VerifyFailed? || a.ApplyFailed? ==> Do(s, a).updater == Releasing(s.updater.force)
    ensures a.Verified? ==> Do(s, a).updater == Applying(s.updater.force)
    ensures a.Applied? ==> Do(s, a).updater == HandedOver(s.updater.force)
    ensures a.Cancel? ==> Do(s, a).updater == Resting
  {
  }

  /** Some action of the run takes `r` out. */
  ghost predicate RemovedIn(s: State, actions: seq<Action>, r: Record)
    decreases |actions|
  {
    && actions != [] && Enabled(s, actions[0])
    && (Removes(s, actions[0], r) || RemovedIn(Do(s, actions[0]), actions[1..], r))
  }

  lemma {:induction false} GoneForGood(s: State, actions: seq<Action>, s': State, r: Record)
    requires r.bridge < s.nextBridge && r !in s.records && Runs(s, actions, s')
    ensures r !in s'.records
    decreases |actions|
  {
    hide Do, Enabled;
    if actions != [] {
      RecordsMove(s, actions[0]);
      GoneForGood(Do(s, actions[0]), actions[1..], s', r);
    }
  }

  /** Over every run, a bridge is in its set until an action takes it out, and never after. */
  lemma {:induction false} StaysUntilRemoved(s: State, actions: seq<Action>, s': State, r: Record)
    requires Inv(s) && r in s.records && Runs(s, actions, s')
    ensures r in s'.records <==> !RemovedIn(s, actions, r)
    decreases |actions|
  {
    hide Inv, Do, Enabled, Removes;
    if actions != [] {
      RecordsMove(s, actions[0]);
      StepKeepsInv(s, actions[0]);
      assert r.bridge < s.nextBridge by { BridgeIsOld(s, r); }
      if Removes(s, actions[0], r) {
        assert !Inserts(s, actions[0], r);
        GoneForGood(Do(s, actions[0]), actions[1..], s', r);
      } else {
        StaysUntilRemoved(Do(s, actions[0]), actions[1..], s', r);
      }
    }
  }

  lemma BridgeIsOld(s: State, r: Record)
    requires Inv(s) && r in s.records
    ensures r.bridge < s.nextBridge
  {
  }

  /** In every interleaving the atomic counter is the number of records, less the puts and plus
      the removals in flight; with nothing in flight it is the number of records. */
  lemma CounterExact(actions: seq<Action>, s: State)
    requires Runs(Init, actions, s)
    ensures s.counter == |s.records| - |Uncounted(s.threads)| + |Owed(s.threads)|
    ensures (forall t :: t in s.threads ==> s.threads[t].Dialing? || s.threads[t].Replying?) ==> s.counter == |s.records|
  {
    InitInv();
    RunKeepsInv(Init, actions, s);
    if forall t :: t in s.threads ==> s.threads[t].Dialing? || s.threads[t].Replying? {
      assert Uncounted(s.threads) == {} && Owed(s.threads) == {};
    }
  }

  /** Whether this `tryBeginUpdate` returns true. */
  predicate Begins(s: State, force: bool) {
    !s.updatePending && (force || s.counter == 0)
  }

  lemma {:induction false} HeldUntilCancel(s: State, actions: seq<Action>, s': State)
    requires IdleReserved(s.updater) && Runs(s, actions, s') && Cancel !in actions
    ensures IdleReserved(s'.updater)
    decreases |actions|
  {
    if actions != [] {
      assert actions[0] in actions;
      HeldUntilCancel(Do(s, actions[0]), actions[1..], s');
    }
  }

  /** Idle update safety: when `tryBeginUpdate(false)` returns true every counted set is empty
      and no open is in progress, and through any further interleaving no set gains a record
      and no open gets past the lock until `cancelUpdate`. */
  lemma IdleUpdateSafe(before: seq<Action>, s: State, later: seq<Action>, s': State)
    requires Runs(Init, before, s) && Enabled(s, TryBegin(false)) && Begins(s, false)
    requires Runs(Do(s, TryBegin(false)), later, s') && Cancel !in later
    ensures s.records == {} && NoReaders(s.threads)
    ensures s'.records == {} && NoReaders(s'.threads) && s'.updatePending && s'.counter == 0
    ensures forall t, owner :: Enabled(s', OpenLock(t, owner)) ==> Do(s', OpenLock(t, owner)) == s'
  {
    InitInv();
    RunKeepsInv(Init, before, s);
    StepKeepsInv(s, TryBegin(false));
    RunKeepsInv(Do(s, TryBegin(false)), later, s');
    HeldUntilCancel(Do(s, TryBegin(false)), later, s');
    NothingUncounted(s');
  }

  /** The reservation lasts exactly as long as the updater has one, even a forced one; a failing
      path can always cancel at once, for no open can be holding the lock, and then opens get
      the lock again. */
  lemma FailureReleases(actions: seq<Action>, s: State)
    requires Runs(Init, actions, s)
    ensures s.updatePending <==> !s.updater.Resting?
    ensures s.updater.Releasing? ==> Enabled(s, Cancel) && !Do(s, Cancel).updatePending && Do(s, Cancel).updater.Resting?
    ensures s.updater.Releasing? ==> forall t, owner :: t !in s.threads ==>
      Do(Do(s, Cancel), OpenLock(t, owner)).threads == s.threads[t := Dialing(owner)]
  {
    InitInv();
    RunKeepsInv(Init, actions, s);
  }

  /** `force` is what it says: a forced reservation can be taken while bridges are counted. */
  lemma ForcedUpdateIsNotIdle()
    ensures exists actions, s :: Runs(Init, actions, s) && s.updater == Reserved(true) && s.records != {}
  {
    var a0, a1, a2, a3, a4 := OpenLock(0, 7), PutInsert(0), PutCount(0), ReplySent(0), TryBegin(true);
    var s1 := Do(Init, a0);
    var s2 := Do(s1, a1);
    var s3 := Do(s2, a2);
    var s4 := Do(s3, a3);
    assert NoReaders(s4.threads);
    var s5 := Do(s4, a4);
    assert Runs(s5, [], s5);
    assert Runs(s4, [a4], s5);
    assert Runs(s3, [a3, a4], s5) by { assert [a3, a4][1..] == [a4]; }
    assert Runs(s2, [a2, a3, a4], s5) by { assert [a2, a3, a4][1..] == [a3, a4]; }
    assert Runs(s1, [a1, a2, a3, a4], s5) by { assert [a1, a2, a3, a4][1..] == [a2, a3, a4]; }
    assert Runs(Init, [a0, a1, a2, a3, a4], s5) by { assert [a0, a1, a2, a3, a4][1..] == [a1, a2, a3, a4]; }
    assert Record(7, 0) in s5.records;
  }

  // ----- one set, used by one goroutine at a time

  class Counter {
    var value: int

    constructor ()
      ensures value == 0
    {
      value := 0;
    }
  }

  /** A `bridgeSet`. Connections are numbers; a set made without a counter is uncounted. */
  class BridgeSet {
    var items: map<string, nat>
    const active: Counter?

    constructor (counter: Counter?)
      ensures items == map[] && active == counter
    {
      items := map[];
      active := counter;
    }

    /** The count moves by one even when the id was there already, so ids must be fresh. */
    method Put(id: string, connection: nat)
      modifies this, active
      ensures items == old(items)[id := connection]
      ensures active != null ==> active.value == old(active.value) + 1
      ensures active != null && id !in old(items) ==> active.value - |items| == old(active.value - |items|)
    {
      items := items[id := connection];
      if active != null {
        active.value := active.value + 1;
      }
    }

    method Take(id: string) returns (connection: nat, found: bool)
      modifies this, active
      ensures found == (id in old(items)) && (found ==> connection == old(items)[id])
      ensures items == old(items) - {id}
      ensures active != null ==> active.value - |items| == old(active.value - |items|)
    {
      found := id in items;
      connection := if found then items[id] else 0;
      assert (items - {id}).Keys == items.Keys - {id};
      items := items - {id};
      if found && active != null {
        active.value := active.value - 1;
      }
    }

    /** Every connection is handed on to be closed, one per record, and the whole count comes
        off at once. */
    method CloseAll() returns (connections: seq<nat>)
      modifies this, active
      ensures items == map[]
      ensures |connections| == |old(items)| && forall c :: c in connections <==> c in old(items).Values
      ensures active != null ==> active.value - |items| == old(active.value - |items|)
    {
      connections := [];
      var count := |items|;
      var left := items.Keys;
      while left != {}
        invariant left <= items.Keys
        invariant |connections| + |left| == |items|
        invariant forall c :: c in connections <==> exists id :: id in items && id !in left && items[id] == c
        decreases |left|
      {
        var id :| id in left;
        connections := connections + [items[id]];
        left := left - {id};
      }
      items := map[];
      if active != null && count > 0 {
        active.value := active.value - count;
      }
    }
  }
}
