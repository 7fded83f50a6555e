/** The candidate trickler: callbacks append to a list, one goroutine posts it. Each lock region
    is one step, and a post can return at any time (shellagent/ice.go). */
module IceTrickler {

  /** A gathered entry: an encoded candidate, or the null that ends gathering. */
  datatype Entry = Candidate(json: string) | EndOfCandidates

  /** Where a `drain` goroutine is: about to take the lock, or waiting for its post. */
  datatype Drainer = AtTop | Posting(snapshot: seq<Entry>)

  /** `posts` and `failed` record what has been posted, in order, and whether a post failed. */
  datatype State = State(
    gathered: seq<Entry>,
    posted: nat,
    ended: bool,
    posting: bool,
    drainers: map<nat, Drainer>,
    posts: seq<seq<Entry>>,
    failed: bool)

  const Init := State([], 0, false, false, map[], [], false)

  datatype Action =
    | AddNil(d: nat)                     // gathering is over
    | AddCandidate(d: nat, json: string)
    | AddUnencodable                     // json.Marshal failed
    | Check(d: nat)                      // the top of the drain loop
    | PostOk(d: nat)
    | PostFailed(d: nat)

  predicate Enabled(s: State, a: Action) {
    match a
    case AddNil(d) => d !in s.drainers
    case AddCandidate(d, _) => d !in s.drainers
    case AddUnencodable => true
    case Check(d) => d in s.drainers && s.drainers[d].AtTop?
    case PostOk(d) => d in s.drainers && s.drainers[d].Posting?
    case PostFailed(d) => d in s.drainers && s.drainers[d].Posting?
  }

  /** Append and, if nobody is posting, start the drain goroutine `d`. */
  function Append(s: State, entry: Entry, d: nat): State {
    s.(gathered := s.gathered + [entry],
       ended := s.ended || entry == EndOfCandidates,
       posting := true,
       drainers := if s.posting then s.drainers else s.drainers[d := AtTop])
  }

  function Do(s: State, a: Action): State
    requires Enabled(s, a)
  {
    match a
    case AddNil(d) => if s.ended then s else Append(s, EndOfCandidates, d)
    case AddCandidate(d, json) => if s.ended then s else Append(s, Candidate(json), d)
    case AddUnencodable => s
    case Check(d) =>
      if s.posted >= |s.gathered| then s.(posting := false, drainers := s.drainers - {d})
      else s.(drainers := s.drainers[d := Posting(s.gathered)], posts := s.posts + [s.gathered])
    case PostOk(d) =>
      var length := |s.drainers[d].snapshot|;
      s.(posted := if length > s.posted then length else s.posted, drainers := s.drainers[d := AtTop])
    case PostFailed(d) => s.(posting := false, ended := true, drainers := s.drainers - {d}, failed := true)
  }

  // ----- the invariant

  predicate OneDrainer(s: State) {
    && (s.posting <==> s.drainers != map[])
    && (forall d, e :: d in s.drainers && e in s.drainers ==> d == e)
  }

  /** Each post extends the one before it, and all are prefixes of what was gathered. */
  predicate Growing(s: State) {
    && (forall i :: 0 <= i < |s.posts| ==> s.posts[i] <= s.gathered && s.posts[i] != [])
    && (forall i, j :: 0 <= i < j < |s.posts| ==> |s.posts[i]| < |s.posts[j]|)
  }

  /** How much the first `n` posts have delivered. */
  function Delivered(s: State, n: nat): nat
    requires n <= |s.posts|
  {
    if n == 0 then 0 else |s.posts[n - 1]|
  }

  predicate Progress(s: State) {
    && (forall d :: d in s.drainers && s.drainers[d].AtTop? ==> s.posted == Delivered(s, |s.posts|))
    && (forall d :: d in s.drainers && s.drainers[d].Posting? ==>
      && |s.posts| > 0 && s.drainers[d].snapshot == s.posts[|s.posts| - 1]
      && s.posted == Delivered(s, |s.posts| - 1))
    && (s.drainers == map[] && !s.failed ==> s.posted == |s.gathered| == Delivered(s, |s.posts|))
    && (s.drainers != map[] ==> s.gathered != [])
    && (s.failed ==> s.drainers == map[] && s.ended && |s.posts| > 0)
  }

  /** The end marker is last and unique; without a failure it is what ends the list. */
  predicate EndLast(s: State) {
    && (forall i :: 0 <= i < |s.gathered| && s.gathered[i] == EndOfCandidates ==> i == |s.gathered| - 1 && s.ended)
    && (s.ended && !s.failed ==> s.gathered != [] && s.gathered[|s.gathered| - 1] == EndOfCandidates)
  }

  predicate Inv(s: State) {
    OneDrainer(s) && Growing(s) && Progress(s) && EndLast(s)
  }

  lemma StepKeepsOneDrainer(s: State, a: Action)
    requires OneDrainer(s) && Enabled(s, a)
    ensures OneDrainer(Do(s, a))
  {
  }

  lemma StepKeepsGrowing(s: State, a: Action)
    requires OneDrainer(s) && Growing(s) && Progress(s) && Enabled(s, a)
    ensures Growing(Do(s, a))
  {
    hide OneDrainer;
    if a.Check? && s.posted < |s.gathered| {
      assert forall i :: 0 <= i < |s.posts| ==> |s.posts[i]| <= Delivered(s, |s.posts|);
    }
  }

  lemma StepKeepsProgress(s: State, a: Action)
    requires OneDrainer(s) && Growing(s) && Progress(s) && Enabled(s, a)
    ensures Progress(Do(s, a))
  {
    if a.Check? && s.posted < |s.gathered| {
      assert Do(s, a).posts[|s.posts|] == s.gathered;
    }
  }

  lemma StepKeepsEndLast(s: State, a: Action)
    requires EndLast(s) && Enabled(s, a)
    ensures EndLast(Do(s, a))
  {
  }

  lemma StepKeepsInv(s: State, a: Action)
    requires Inv(s) && Enabled(s, a)
    ensures Inv(Do(s, a))
  {
    hide Do, Enabled, OneDrainer, Growing, Progress, EndLast;
    StepKeepsOneDrainer(s, a);
    StepKeepsGrowing(s, a);
    StepKeepsProgress(s, a);
    StepKeepsEndLast(s, a);
  }

  // ----- whole runs

  ghost predicate Runs(s: State, actions: seq<Action>, s': State)
    decreases |actions|
  {
    if actions == [] then s' == s
    else Enabled(s, actions[0]) && Runs(Do(s, actions[0]), actions[1..], s')
  }

  lemma {:induction false} RunKeepsInv(s: State, actions: seq<Action>, s': State)
    requires Inv(s) && Runs(s, actions, s')
    ensures Inv(s')
    decreases |actions|
  {
    hide Inv, Do, Enabled;
    if actions != [] {
      StepKeepsInv(s, actions[0]);
      RunKeepsInv(Do(s, actions[0]), actions[1..], s');
    }
  }

  /** What a run adds, read off its actions: the candidates in order up to and with the first null, or
      up to the first failed post. A candidate that cannot be encoded is passed over. */
  function AddedBy(actions: seq<Action>): seq<Entry> {
    if actions == [] then []
    else
      match actions[0]
      case AddNil(_) => [EndOfCandidates]
      case AddCandidate(_, json) => [Candidate(json)] + AddedBy(actions[1..])
      case PostFailed(_) => []
      case _ => AddedBy(actions[1..])
  }

  /** Nothing that was added is lost, and nothing is added after the end. */
  lemma {:induction false} GatheredIsAdded(s: State, actions: seq<Action>, s': State)
    requires Runs(s, actions, s')
    ensures s'.gathered == if s.ended then s.gathered else s.gathered + AddedBy(actions)
    decreases |actions|
  {
    if actions != [] {
      GatheredIsAdded(Do(s, actions[0]), actions[1..], s');
    }
  }

  /** The failed posts are the only failures. */
  lemma {:induction false} FailedByAction(s: State, actions: seq<Action>, s': State)
    requires Runs(s, actions, s')
    ensures s'.failed <==> s.failed || exists d :: PostFailed(d) in actions
    decreases |actions|
  {
    if actions != [] {
      FailedByAction(Do(s, actions[0]), actions[1..], s');
      assert actions == [actions[0]] + actions[1..];
    }
  }

  /** In every interleaving: at most one drainer; every post strictly extends the one before it
      and is a prefix of what the actions added; the end marker comes once and last; and a wakeup is
      never lost: with no drainer left and no failed post, the last post is everything added. */
  lemma TricklerCorrect(actions: seq<Action>, s: State)
    requires Runs(Init, actions, s)
    ensures forall d, e :: d in s.drainers && e in s.drainers ==> d == e
    ensures forall i :: 0 <= i < |s.posts| ==> s.posts[i] <= AddedBy(actions)
    ensures forall i :: 0 < i < |s.posts| ==> s.posts[i - 1] < s.posts[i]
    ensures var added := AddedBy(actions);
      forall i :: 0 <= i < |added| && added[i] == EndOfCandidates ==> i == |added| - 1
    ensures s.drainers == map[] && !s.failed ==>
      if AddedBy(actions) == [] then s.posts == [] else s.posts != [] && s.posts[|s.posts| - 1] == AddedBy(actions)
    ensures s.failed ==> s.ended && s.drainers == map[]
  {
    hide AddedBy, Runs;
    InitInv();
    RunKeepsInv(Init, actions, s);
    GatheredIsAdded(Init, actions, s);
    assert s.gathered == AddedBy(actions);
    forall i | 0 < i < |s.posts|
      ensures s.posts[i - 1] < s.posts[i]
    {
      assert s.posts[i - 1] <= s.gathered && s.posts[i] <= s.gathered;
    }
  }

  /** The steps a drainer takes by itself until it stops, all its posts succeeding. */
  function DrainAlone(s: State, d: nat): seq<Action>
    requires d in s.drainers
  {
    if s.drainers[d].Posting? then
      if |s.drainers[d].snapshot| >= |s.gathered| then [PostOk(d), Check(d)] else [PostOk(d), Check(d), PostOk(d), Check(d)]
    else if s.posted >= |s.gathered| then [Check(d)]
    else [Check(d), PostOk(d), Check(d)]
  }

  lemma RunsStep(s: State, a: Action, rest: seq<Action>, s': State)
    requires Enabled(s, a) && Runs(Do(s, a), rest, s')
    ensures Runs(s, [a] + rest, s')
  {
    assert ([a] + rest)[1..] == rest;
  }

  /** From the top of the loop a drainer left alone posts what is missing and stops. */
  lemma DrainsFromTop(s: State, d: nat) returns (s': State)
    requires Inv(s) && d in s.drainers && s.drainers[d].AtTop?
    ensures Runs(s, DrainAlone(s, d), s') && s'.drainers == map[] && s'.posted == |s'.gathered| && s'.gathered == s.gathered && !s'.failed
  {
    if s.posted >= |s.gathered| {
      s' := Do(s, Check(d));
      StepKeepsInv(s, Check(d));
      RunsStep(s, Check(d), [], s');
    } else {
      var s1 := Do(s, Check(d));
      StepKeepsInv(s, Check(d));
      var s2 := Do(s1, PostOk(d));
      StepKeepsInv(s1, PostOk(d));
      s' := Do(s2, Check(d));
      StepKeepsInv(s2, Check(d));
      RunsStep(s2, Check(d), [], s');
      RunsStep(s1, PostOk(d), [Check(d)], s');
      RunsStep(s, Check(d), [PostOk(d), Check(d)], s');
    }
  }

  /** Nobody is posting and the last post carried everything that was gathered. */
  predicate AllPosted(s: State) {
    s.drainers == map[] && !s.failed && s.posts != [] && s.posts[|s.posts| - 1] == s.gathered
  }

  lemma StoppedIsPosted(s: State)
    requires Inv(s) && s.drainers == map[] && !s.failed && s.gathered != []
    ensures AllPosted(s)
  {
    assert s.posts != [] && s.posts[|s.posts| - 1] <= s.gathered;
  }

  /** Progress: in any reachable state a running drainer, left alone with a working connection,
      posts everything added and stops within four steps. */
  lemma DrainFinishes(actions: seq<Action>, s: State, d: nat)
    requires Runs(Init, actions, s) && d in s.drainers
    ensures |DrainAlone(s, d)| <= 4
    ensures exists s' ::
      && Runs(s, DrainAlone(s, d), s') && s'.drainers == map[] && !s'.failed
      && s'.posts != [] && s'.posts[|s'.posts| - 1] == AddedBy(actions)
  {
    hide Inv;
    GatheredIsAdded(Init, actions, s);
    InitInv();
    RunKeepsInv(Init, actions, s);
    DrainerHasWork(s, d);
    var s';
    if s.drainers[d].AtTop? {
      s' := DrainsFromTop(s, d);
    } else {
      var s1 := Do(s, PostOk(d));
      StepKeepsInv(s, PostOk(d));
      DrainerHasWork(s1, d);
      s' := DrainsFromTop(s1, d);
      RunsStep(s, PostOk(d), DrainAlone(s1, d), s');
      assert [PostOk(d)] + DrainAlone(s1, d) == DrainAlone(s, d);
    }
    RunKeepsInv(s, DrainAlone(s, d), s');
    StoppedIsPosted(s');
  }

  lemma InitInv()
    ensures Inv(Init)
  {
  }

  lemma DrainerHasWork(s: State, d: nat)
    requires Inv(s) && d in s.drainers
    ensures s.gathered != [] && !s.failed
    ensures s.drainers[d].Posting? ==> s.posted < |s.drainers[d].snapshot| <= |s.gathered|
  {
  }
}
