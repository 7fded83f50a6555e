/** The frames of an open socket pass, from the operation that opened it until one that changes,
    removes or replaces its record (shellagent/browser_identity.go, shellagent/native_apps.go). */
module GrantSockets {
  import opened Options
  import opened Grants
  import opened GrantLists
  import opened GrantRuns
  import opened GrantEffects
  import opened GrantPairing
  import IdentitySync

  /** Some record of the socket's key, origin and app holds exactly the set it was opened with. */
  ghost predicate Passes(s: Store, auth: Auth) {
    if "native:" <= auth.keyId then
      exists app :: app in s.native && auth.keyId == "native:" + app.storeId && app.origin == auth.origin && app.capabilities == auth.stored
    else
      exists r ::
        && r in s.browser && r.keyId == auth.keyId && r.origin == auth.origin
        && (r.storeId == "" || r.storeId == auth.storeId) && r.capabilities == auth.stored
  }

  lemma PassesIsGrant(s: Store, auth: Auth)
    requires UniqueStores(s.native)
    ensures HasGrant(s, auth) <==> Passes(s, auth)
  {
    hide FindNative;
    if "native:" <= auth.keyId {
      assert auth.keyId == "native:" + auth.keyId[7..];
      FindNativeLaws(s.native, TrimNative(auth.keyId));
      forall app | app in s.native && auth.keyId == "native:" + app.storeId ensures app.storeId == TrimNative(auth.keyId) {
      }
    } else if HasGrant(s, auth) {
      var i :| 0 <= i < |s.browser| && Matches(s.browser[i], auth);
      assert s.browser[i] in s.browser;
    }
  }

  // ----- just opened

  lemma OpenedByReconnect(sys: System, op: Op, auth: Auth)
    requires Enabled(sys, op) && op.Reconnect? && auth in Apply(sys, op).sockets && auth !in sys.sockets
    requires !("native:" <= auth.keyId)
    ensures Passes(Apply(sys, op).store, auth)
  {
    hide Apply, AuthorityContinues, AppContinues, SavedIn;
    ContinueEffect(sys, op);
    var (r, a) := (sys.store.browser[op.index], Apply(sys, op));
    var presented := if r.authority then None else op.app;
    var u: Identity :|
      && u.keyId == r.keyId && u.origin == r.origin && BrowserSocket(u, presented, auth)
      && ((u == r && a.store.browser == sys.store.browser) || SavedIn(sys.store.browser, a.store.browser, u));
    assert u in a.store.browser by {
      if SavedIn(sys.store.browser, a.store.browser, u) {
        SavedIsThere(sys.store.browser, a.store.browser, u);
      }
    }
    assert BrowserSocket(u, presented, auth);
  }

  lemma SavedIsThere(before: seq<Identity>, after: seq<Identity>, u: Identity)
    requires SavedIn(before, after, u)
    ensures u in after
  {
    if i :| 0 <= i < |before| && Selects(before[i], u.keyId, u.origin, u.storeId) {
      assert after[i] == u;
    } else {
      assert after[|before|] == u;
    }
  }

  lemma SavedNativeIsThere(before: seq<NativeApp>, after: seq<NativeApp>, u: NativeApp)
    requires u.valid && SavedNativeIn(before, after, u)
    ensures u in after
  {
    if i :| 0 <= i < |before| && before[i].storeId == u.storeId {
      assert after[i] == u;
    } else {
      assert after[|before|] == u;
    }
  }

  lemma OpenedByPairing(sys: System, op: Op, auth: Auth)
    requires Enabled(sys, op) && (op.PairWithApp? || op.PairAsAuthority?) && auth in Apply(sys, op).sockets && auth !in sys.sockets
    requires !("native:" <= auth.keyId)
    ensures Passes(Apply(sys, op).store, auth)
  {
    hide Apply, Chooses, SavedIn, Reusable;
    forall u | SavedIn(sys.store.browser, Apply(sys, op).store.browser, u) ensures u in Apply(sys, op).store.browser {
      SavedIsThere(sys.store.browser, Apply(sys, op).store.browser, u);
    }
    if op.PairWithApp? {
      PairEffect(sys, op);
    } else {
      PairAuthorityEffect(sys, op);
    }
  }

  lemma OpenedByConnecting(sys: System, op: Op, auth: Auth)
    requires Inv(sys) && Enabled(sys, op) && op.ConnectNative? && auth in Apply(sys, op).sockets && auth !in sys.sockets
    ensures Passes(Apply(sys, op).store, auth)
  {
    hide Apply, SavedNativeIn, FindNative, Asked;
    ConnectEffect(sys, op);
    FindsFirstNative(sys.store.native, op.storeId);
    var a := Apply(sys, op);
    var i: nat :| FirstOfStore(sys.store.native, i, op.storeId);
    var r := sys.store.native[i];
    assert r in sys.store.native && NativeInv(r);
    forall u: NativeApp | u.valid && SavedNativeIn(sys.store.native, a.store.native, u) ensures u in a.store.native {
      SavedNativeIsThere(sys.store.native, a.store.native, u);
    }
  }

  /** A frame of a socket passes right after the operation that opened it. */
  lemma OpenedPasses(sys: System, op: Op, auth: Auth)
    requires Inv(sys) && Enabled(sys, op) && auth in Apply(sys, op).sockets && auth !in sys.sockets
    requires op.ConnectNative? || !("native:" <= auth.keyId)
    ensures HasGrant(Apply(sys, op).store, auth)
  {
    assert op.Reconnect? || op.PairWithApp? || op.PairAsAuthority? || op.ConnectNative?;
    StepKeepsInv(sys, op);
    hide Apply, Inv, Passes, HasGrant, Enabled;
    if op.Reconnect? {
      OpenedByReconnect(sys, op, auth);
    } else if op.ConnectNative? {
      OpenedByConnecting(sys, op, auth);
    } else {
      OpenedByPairing(sys, op, auth);
    }
    PassesAfter(sys, op, auth);
  }

  lemma PassesAfter(sys: System, op: Op, auth: Auth)
    requires Enabled(sys, op) && Inv(Apply(sys, op))
    ensures HasGrant(Apply(sys, op).store, auth) <==> Passes(Apply(sys, op).store, auth)
  {
    hide Apply, Enabled, HasGrant, Passes;
    PassesIsGrant(Apply(sys, op).store, auth);
  }

  // ----- until its record is touched

  /** A browser record of this app id, or an old one, is one the socket's frames are checked against. */
  ghost predicate Serves(auth: Auth, keyId: string, origin: string, storeId: string) {
    keyId == auth.keyId && origin == auth.origin && (storeId == "" || storeId == auth.storeId)
  }

  /** The operation may change, remove or replace a record the socket's frames are checked against. A
      key's reconnect does not, unless it is the authority's and the catalog is known or it takes a
      pre-approval; nor does an app's connection without a decision, nor a sync if the local record
      is approved. */
  ghost predicate Touches(sys: System, op: Op, auth: Auth)
    requires Enabled(sys, op)
  {
    match op
    case Reconnect(index, _, app, catalog, now) =>
      var r := sys.store.browser[index];
      && Serves(auth, r.keyId, r.origin, r.storeId)
      && if r.authority then catalog.Some? else app.Some? && Live(sys, app.value.storeId, now)
    case PairWithApp(identity, resolved, _, _, _, _) =>
      resolved.Some? && Serves(auth, identity.keyId, identity.origin, resolved.value.storeId)
    case PairAsAuthority(identity, catalogId, _, _) => Serves(auth, identity.keyId, identity.origin, catalogId)
    case Update(keyId, origin, storeId, _, _, _) =>
      if "native:" <= keyId then auth.keyId == "native:" + (if storeId == "" then keyId[7..] else storeId)
      else Serves(auth, keyId, origin, storeId)
    case Revoke(keyId, origin, storeId) =>
      if "native:" <= keyId then auth.keyId == "native:" + (if storeId == "" then keyId[7..] else storeId)
      else Serves(auth, keyId, origin, storeId)
    case Sync(_) => exists r :: r in sys.store.browser && Serves(auth, r.keyId, r.origin, r.storeId) && r.approvedAt == 0
    case Install(storeId, _, _, _, _, _, _, _, _) => auth.keyId == "native:" + storeId
    case Uninstall(storeId) => auth.keyId == "native:" + storeId
    case ConnectNative(storeId, _, decision, _) => auth.keyId == "native:" + storeId && decision.Decided?
    case Review(storeId, _, answer, _) => auth.keyId == "native:" + storeId && answer.Some?
    case RecordCatalog(catalogId, _, _, _, _, _, _, _) => auth.keyId == "native:" + catalogId
    case PreApprove(_, _, _, _) => false
    case Disconnect(_) => false
  }

  /** A record keeps its place in a list into which another key, or the same grant, was saved. */
  lemma SavedKeeps(before: seq<Identity>, after: seq<Identity>, u: Identity, r: Identity)
    requires SavedIn(before, after, u) && r in before
    ensures Selects(r, u.keyId, u.origin, u.storeId) || r in after
  {
    var i :| 0 <= i < |before| && before[i] == r;
    assert after[i] in after;
  }

  lemma SavedNativeKeeps(before: seq<NativeApp>, after: seq<NativeApp>, u: NativeApp, r: NativeApp)
    requires SavedNativeIn(before, after, u) && r in before && r.storeId != u.storeId
    ensures r in after
  {
    var i :| 0 <= i < |before| && before[i] == r;
    if u.valid {
      assert after[i] in after;
    }
  }

  /** The browser record `r` serves the socket and has its set. */
  ghost predicate Backs(auth: Auth, r: Identity) {
    Serves(auth, r.keyId, r.origin, r.storeId) && r.capabilities == auth.stored
  }

  lemma ReconnectKeeps(sys: System, op: Op, auth: Auth, r: Identity)
    requires Inv(sys) && Enabled(sys, op) && op.Reconnect? && !Touches(sys, op, auth)
    requires r in sys.store.browser && Backs(auth, r)
    ensures exists r' :: r' in Apply(sys, op).store.browser && Backs(auth, r')
  {
    hide Apply, SavedIn, BrowserSocket, Live, RecordsInv, ApprovalsInv, NativesInv, UniqueStores, SocketsInv;
    ContinueEffect(sys, op);
    var (x, a) := (sys.store.browser[op.index], Apply(sys, op));
    var u: Identity :|
      && u == x.(client := u.client, storeId := u.storeId,
        capabilities := u.capabilities, declared := u.declared, approvedAt := u.approvedAt)
      && (if x.authority then AuthorityContinues(x, op.catalog, u)
          else if op.app.Some? then AppContinues(sys, x, op.app.value, op.now, u)
          else u == x.(client := u.client))
      && ((u == x && a.store.browser == sys.store.browser) || SavedIn(sys.store.browser, a.store.browser, u));
    if SavedIn(sys.store.browser, a.store.browser, u) {
      SavedKeeps(sys.store.browser, a.store.browser, u, r);
      SavedIsThere(sys.store.browser, a.store.browser, u);
      assert x.authority ==> AuthorityContinues(x, op.catalog, u);
      assert !x.authority && op.app.Some? ==> AppContinues(sys, x, op.app.value, op.now, u);
      if r !in a.store.browser {
        SameRecord(sys.store.browser, r, x, op.index);
      }
    }
  }

  lemma SameRecord(list: seq<Identity>, r: Identity, x: Identity, i: nat)
    requires UniqueKeys(list) && r in list && i < |list| && list[i] == x && Selects(r, x.keyId, x.origin, x.storeId)
    ensures r == x
  {
    var j :| 0 <= j < |list| && list[j] == r;
  }

  lemma PairingKeeps(sys: System, op: Op, auth: Auth, r: Identity)
    requires Enabled(sys, op) && (op.PairWithApp? || op.PairAsAuthority?) && !Touches(sys, op, auth)
    requires r in sys.store.browser && Backs(auth, r)
    ensures r in Apply(sys, op).store.browser
  {
    hide Apply, Chooses, SavedIn, Reusable, BrowserSocket, Live;
    forall u | SavedIn(sys.store.browser, Apply(sys, op).store.browser, u)
      ensures Selects(r, u.keyId, u.origin, u.storeId) || r in Apply(sys, op).store.browser
    {
      SavedKeeps(sys.store.browser, Apply(sys, op).store.browser, u, r);
    }
    if op.PairWithApp? {
      PairEffect(sys, op);
    } else {
      PairAuthorityEffect(sys, op);
    }
  }

  lemma DecisionKeeps(sys: System, op: Op, auth: Auth, r: Identity)
    requires Enabled(sys, op) && (op.Update? || op.Revoke?) && !("native:" <= op.keyId) && !Touches(sys, op, auth)
    requires r in sys.store.browser && Backs(auth, r)
    ensures r in Apply(sys, op).store.browser
  {
    hide Apply, SavedIn, GrantsRequested;
    if op.Update? {
      UpdateBrowserEffect(sys, op);
      FindsFirst(sys.store.browser, op.keyId, op.origin, op.storeId);
      if i: nat :| FirstSelected(sys.store.browser, i, op.keyId, op.origin, op.storeId) {
        var x := sys.store.browser[i];
        var granted, declared :| SavedIn(sys.store.browser, Apply(sys, op).store.browser,
          x.(capabilities := granted, declared := declared, approvedAt := if x.approvedAt == 0 then op.now else x.approvedAt));
        SavedKeeps(sys.store.browser, Apply(sys, op).store.browser,
          x.(capabilities := granted, declared := declared, approvedAt := if x.approvedAt == 0 then op.now else x.approvedAt), r);
      }
    } else {
      RevokeBrowserEffect(sys, op);
    }
  }

  lemma SyncKeeps(sys: System, op: Op, auth: Auth, r: Identity)
    requires Inv(sys) && Enabled(sys, op) && op.Sync? && !Touches(sys, op, auth)
    requires r in sys.store.browser && Backs(auth, r)
    ensures r in Apply(sys, op).store.browser
  {
    IdentitySync.SyncLaws(sys.store.browser, op.synced);
  }

  /** What is said to native apps leaves the browser's records alone. */
  lemma NativeKeepsBrowser(sys: System, op: Op)
    requires Enabled(sys, op)
    requires op.PreApprove? || op.Disconnect? || op.Install? || op.Uninstall? || op.ConnectNative? || op.Review? || op.RecordCatalog?
      || ((op.Update? || op.Revoke?) && "native:" <= op.keyId)
    ensures Apply(sys, op).store.browser == sys.store.browser
  {
    hide FindNative, UpsertedNative, WithoutNative, Closed;
  }

  lemma BrowserStaysBacked(sys: System, op: Op, auth: Auth, r: Identity)
    requires Inv(sys) && Enabled(sys, op) && !Touches(sys, op, auth)
    requires r in sys.store.browser && Backs(auth, r)
    ensures exists r' :: r' in Apply(sys, op).store.browser && Backs(auth, r')
  {
    hide Apply, Inv, Enabled, Touches, Backs;
    if op.Reconnect? {
      ReconnectKeeps(sys, op, auth, r);
    } else if op.PairWithApp? || op.PairAsAuthority? {
      PairingKeeps(sys, op, auth, r);
    } else if op.Sync? {
      SyncKeeps(sys, op, auth, r);
    } else if (op.Update? || op.Revoke?) && !("native:" <= op.keyId) {
      DecisionKeeps(sys, op, auth, r);
    } else {
      NativeKeepsBrowser(sys, op);
    }
  }

  /** The native record `r` serves the socket and has its set. */
  ghost predicate BacksNative(auth: Auth, r: NativeApp) {
    auth.keyId == "native:" + r.storeId && r.origin == auth.origin && r.capabilities == auth.stored
  }

  lemma BrowserKeepsNative(sys: System, op: Op)
    requires Enabled(sys, op)
    requires op.Reconnect? || op.PairWithApp? || op.PairAsAuthority? || op.Sync? || op.PreApprove? || op.Disconnect?
      || ((op.Update? || op.Revoke?) && !("native:" <= op.keyId))
    ensures Apply(sys, op).store.native == sys.store.native
  {
    hide Find, Upserted, Without, Closed, Merged, BestGrant, ContinuedRecord;
  }

  /** A record of another app is not touched by a native operation. */
  lemma OtherStays(sys: System, op: Op, r: NativeApp)
    requires Enabled(sys, op) && r in sys.store.native
    requires op.Install? || op.Uninstall? || op.ConnectNative? || op.Review?
    requires r.storeId != op.storeId
    ensures r in Apply(sys, op).store.native
  {
    hide FindNative, UpsertedNative, WithoutNative, Closed, AuthForNative, Ceiling;
    FindNativeLaws(sys.store.native, op.storeId);
    WithoutNativeLaws(sys.store.native, op.storeId);
    NativeSavesKeep(sys.store, r);
  }

  lemma NativeSavesKeep(s: Store, r: NativeApp)
    requires r in s.native
    ensures forall u: NativeApp :: u.storeId != r.storeId ==> r in SaveNative(s, u).native
  {
    hide UpsertedNative, SavedNativeIn;
    forall u: NativeApp | u.storeId != r.storeId ensures r in SaveNative(s, u).native {
      UpsertNativeSaves(s.native, u);
      SavedNativeKeeps(s.native, SaveNative(s, u).native, u, r);
    }
  }

  lemma OtherStaysDecided(sys: System, op: Op, r: NativeApp)
    requires Enabled(sys, op) && r in sys.store.native
    requires (op.Update? || op.Revoke?) && "native:" <= op.keyId && r.storeId != if op.storeId == "" then op.keyId[7..] else op.storeId
    ensures r in Apply(sys, op).store.native
  {
    hide FindNative, UpsertedNative, Closed, Clamped, Ceiling;
    FindNativeLaws(sys.store.native, NativeTarget(op.keyId, op.storeId));
    NativeSavesKeep(sys.store, r);
  }

  lemma OtherStaysCatalog(sys: System, op: Op, r: NativeApp)
    requires Enabled(sys, op) && r in sys.store.native && op.RecordCatalog? && r.storeId != op.catalogId
    ensures r in Apply(sys, op).store.native
  {
    hide FindNative, UpsertedNative;
    NativeSavesKeep(sys.store, r);
  }

  /** An app's connection without a decision and a review without an answer keep its set. */
  lemma OwnStays(sys: System, op: Op, auth: Auth, r: NativeApp)
    requires Inv(sys) && Enabled(sys, op) && !Touches(sys, op, auth) && (op.ConnectNative? || op.Review?)
    requires r in sys.store.native && BacksNative(auth, r) && r.storeId == op.storeId
    ensures exists r' :: r' in Apply(sys, op).store.native && BacksNative(auth, r')
  {
    hide Apply, SavedNativeIn, Asked, NativeSocket, FindNative;
    FindsFirstNative(sys.store.native, op.storeId);
    var i: nat :| FirstOfStore(sys.store.native, i, op.storeId);
    SameApp(sys.store.native, r, i);
    assert NativeInv(sys.store.native[i]);
    forall u: NativeApp | u.valid && SavedNativeIn(sys.store.native, Apply(sys, op).store.native, u)
      ensures u in Apply(sys, op).store.native
    {
      SavedNativeIsThere(sys.store.native, Apply(sys, op).store.native, u);
    }
    if op.ConnectNative? {
      ConnectEffect(sys, op);
    } else {
      ReviewEffect(sys, op);
    }
  }

  lemma SameApp(list: seq<NativeApp>, r: NativeApp, i: nat)
    requires UniqueStores(list) && r in list && i < |list| && list[i].storeId == r.storeId
    ensures r == list[i]
  {
    var j :| 0 <= j < |list| && list[j] == r;
  }

  lemma NativeStaysBacked(sys: System, op: Op, auth: Auth, r: NativeApp)
    requires Inv(sys) && Enabled(sys, op) && !Touches(sys, op, auth)
    requires r in sys.store.native && BacksNative(auth, r)
    ensures exists r' :: r' in Apply(sys, op).store.native && BacksNative(auth, r')
  {
    hide Apply, Inv, Enabled;
    if op.Install? || op.Uninstall? || op.ConnectNative? || op.Review? {
      if r.storeId == op.storeId {
        OwnStays(sys, op, auth, r);
      } else {
        OtherStays(sys, op, r);
      }
    } else if op.RecordCatalog? {
      OtherStaysCatalog(sys, op, r);
    } else if (op.Update? || op.Revoke?) && "native:" <= op.keyId {
      OtherStaysDecided(sys, op, r);
    } else {
      BrowserKeepsNative(sys, op);
    }
  }

  /** One operation that does not touch its record leaves a socket's frames passing. */
  lemma StepKeepsPassing(sys: System, op: Op, auth: Auth)
    requires Inv(sys) && Enabled(sys, op) && HasGrant(sys.store, auth) && !Touches(sys, op, auth)
    ensures HasGrant(Apply(sys, op).store, auth)
  {
    StepKeepsInv(sys, op);
    PassesIsGrant(sys.store, auth);
    hide Apply, HasGrant, Enabled, Touches;
    if "native:" <= auth.keyId {
      var r :| r in sys.store.native && BacksNative(auth, r);
      NativeStaysBacked(sys, op, auth, r);
    } else {
      var r :| r in sys.store.browser && Backs(auth, r);
      BrowserStaysBacked(sys, op, auth, r);
    }
    hide Inv;
    PassesAfter(sys, op, auth);
  }

  /** None of the operations of a run touches the socket's record. */
  ghost predicate Untouched(sys: System, ops: seq<Op>, auth: Auth)
    decreases |ops|
  {
    ops != [] ==> Enabled(sys, ops[0]) && !Touches(sys, ops[0], auth) && Untouched(Apply(sys, ops[0]), ops[1..], auth)
  }

  lemma {:induction false} RunKeepsPassing(sys: System, ops: seq<Op>, sys': System, auth: Auth)
    requires Inv(sys) && HasGrant(sys.store, auth) && Runs(sys, ops, sys') && Untouched(sys, ops, auth)
    ensures HasGrant(sys'.store, auth)
    decreases |ops|
  {
    hide Inv, Apply, Enabled, Touches, HasGrant;
    if ops != [] {
      StepKeepsInv(sys, ops[0]);
      StepKeepsPassing(sys, ops[0], auth);
      RunKeepsPassing(Apply(sys, ops[0]), ops[1..], sys', auth);
    }
  }

  /** Liveness of the per-frame check: whatever ran before it was opened and whatever runs after, the
      frames of a socket pass from the operation that opened it until one touches its record. */
  lemma OpenSocketPasses(start: System, before: seq<Op>, mid: System, op: Op, later: seq<Op>, sys: System, auth: Auth)
    requires Inv(start) && Runs(start, before, mid) && Enabled(mid, op)
    requires auth in Apply(mid, op).sockets && auth !in mid.sockets && (op.ConnectNative? || !("native:" <= auth.keyId))
    requires Runs(Apply(mid, op), later, sys) && Untouched(Apply(mid, op), later, auth)
    ensures HasGrant(sys.store, auth)
  {
    hide Inv, Apply, Enabled, Touches, HasGrant, Runs, Untouched;
    StoreInvariant(start, before, mid);
    StepKeepsInv(mid, op);
    OpenedPasses(mid, op, auth);
    RunKeepsPassing(Apply(mid, op), later, sys, auth);
  }
}
