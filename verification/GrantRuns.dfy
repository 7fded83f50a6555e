/** What every run over the grant store keeps, and what it means for the frames of live sockets
    (shellagent/agent.go, shellagent/browser_identity.go, shellagent/native_apps.go). */
module GrantRuns {
  import opened Options
  import opened Grants
  import opened GrantLists
  import IdentitySync

  /** The store and the live sockets' snapshots. */
  datatype System = System(store: Store, sockets: set<Auth>)

  /** One operation with the outside answers it gets: lookups, decisions and the clock. Each is
      one atomic step. */
  datatype Op =
    | Reconnect(index: nat, client: string, app: Option<App>, catalog: Option<App>, now: nat)
    | PairWithApp(identity: Identity, resolved: Option<App>, origins: set<string>, auto: bool, reply: Option<Perms>, now: nat)
    | PairAsAuthority(identity: Identity, catalogId: string, declared: Perms, now: nat)
    | PreApprove(storeId: string, capabilities: Perms, expiresInMs: nat, now: nat)
    | Update(keyId: string, origin: string, storeId: string, requested: Perms, manifest: Option<Perms>, now: nat)
    | Revoke(keyId: string, origin: string, storeId: string)
    | Sync(synced: seq<Identity>)
    | Install(storeId: string, origin: string, name: string, path: string, valid: bool, requested: Perms,
      declared: Perms, catalogId: string, now: nat)
    | Uninstall(storeId: string)
    | ConnectNative(storeId: string, manifest: Option<Perms>, decision: Decision, now: nat)
    | Review(storeId: string, manifest: Option<Perms>, answer: Option<Perms>, now: nat)
    | RecordCatalog(catalogId: string, catalog: Option<App>, origin: string, name: string, legacyOrigin: string,
      path: string, valid: bool, now: nat)
    | Disconnect(auth: Auth)

  /** A saved identity that is bound to an app connects only as that app. */
  predicate Presents(identity: Identity, app: Option<App>) {
    identity.storeId == "" || identity.authority || app.None? || app.value.storeId == identity.storeId
  }

  predicate Enabled(sys: System, op: Op) {
    match op
    case Reconnect(index, _, app, _, now) => index < |sys.store.browser| && now > 0 && Presents(sys.store.browser[index], app)
    case PairWithApp(identity, _, _, _, _, now) => identity.valid && !identity.authority && now > 0
    case PairAsAuthority(identity, _, _, now) => identity.valid && now > 0
    case PreApprove(_, _, _, _) => true
    case Update(_, _, _, _, _, now) => now > 0
    case Revoke(_, _, _) => true
    case Sync(synced) => RecordsInv(synced)
    case Install(_, _, _, _, _, _, _, _, now) => now > 0
    case Uninstall(_) => true
    case ConnectNative(_, _, _, now) => now > 0
    case Review(_, _, _, now) => now > 0
    case RecordCatalog(_, _, _, _, _, _, _, now) => now > 0
    case Disconnect(_) => true
  }

  predicate BoundTo(auth: Auth, keyId: string, origin: string, storeId: string) {
    auth.keyId == keyId && auth.origin == origin && (storeId == "" || auth.storeId == storeId)
  }

  /** The sockets left after closing those bound to a record. */
  function Closed(sockets: set<Auth>, keyId: string, origin: string, storeId: string): set<Auth> {
    set auth | auth in sockets && !BoundTo(auth, keyId, origin, storeId)
  }

  function ClosedNative(sockets: set<Auth>, app: NativeApp): set<Auth> {
    Closed(sockets, NATIVE_PREFIX + app.storeId, app.origin, app.storeId)
  }

  function Opened(sockets: set<Auth>, auth: Option<Auth>): set<Auth> {
    if auth.Some? then sockets + {auth.value} else sockets
  }

  /** The store id a native selector addresses. */
  function NativeTarget(keyId: string, storeId: string): string {
    if storeId == "" then TrimNative(keyId) else storeId
  }

  function Apply(sys: System, op: Op): System
    requires Enabled(sys, op)
  {
    var s := sys.store;
    match op
    case Reconnect(index, client, app, catalog, now) =>
      var (s', auth) := ContinuePaired(s, s.browser[index], client, app, catalog, now);
      System(s', sys.sockets + {auth})
    case PairWithApp(identity, resolved, origins, auto, decision, now) =>
      var (s', auth) := PairApp(s, identity, resolved, origins, auto, decision, now);
      System(s', Opened(sys.sockets, auth))
    case PairAsAuthority(identity, catalogId, declared, now) =>
      var (s', auth) := PairAuthority(s, identity, catalogId, declared, now);
      System(s', sys.sockets + {auth})
    case PreApprove(storeId, capabilities, expiresInMs, now) => sys.(store := PreApproved(s, storeId, capabilities, expiresInMs, now))
    case Update(keyId, origin, storeId, requested, manifest, now) =>
      if NATIVE_PREFIX <= keyId then
        var app := FindNative(s.native, NativeTarget(keyId, storeId));
        if app.None? then sys
        else System(SaveNative(s, UpdateNative(s, app.value, requested, manifest, now)), ClosedNative(sys.sockets, app.value))
      else
        var identity := Find(s.browser, keyId, origin, storeId);
        if identity.None? then sys
        else System(UpdateIdentity(s, identity.value, requested, manifest, now), Closed(sys.sockets, keyId, origin, storeId))
    case Revoke(keyId, origin, storeId) =>
      if NATIVE_PREFIX <= keyId then
        var app := FindNative(s.native, NativeTarget(keyId, storeId));
        if app.None? then sys
        else System(SaveNative(s, RevokedApp(app.value)), ClosedNative(sys.sockets, app.value))
      else if Find(s.browser, keyId, origin, storeId).None? then sys
      else System(s.(browser := Without(s.browser, keyId, origin, storeId)), Closed(sys.sockets, keyId, origin, storeId))
    case Sync(synced) => sys.(store := s.(browser := Merged(s.browser, synced)))
    case Install(storeId, origin, name, path, valid, requested, manifest, catalogId, now) =>
      var app := InstalledApp(s, storeId, origin, name, path, valid, requested, manifest, catalogId, now);
      System(SaveNative(s, app), ClosedNative(sys.sockets, app))
    case Uninstall(storeId) =>
      var app := FindNative(s.native, storeId);
      if app.None? then sys
      else System(s.(native := WithoutNative(s.native, storeId)), ClosedNative(sys.sockets, app.value))
    case ConnectNative(storeId, manifest, decision, now) =>
      var app := FindNative(s.native, storeId);
      if app.None? then sys
      else
        var (s', auth) := AuthorizeNative(s, app.value, manifest, decision, now);
        System(s', Opened(sys.sockets, auth))
    case Review(storeId, manifest, answer, now) =>
      var app := FindNative(s.native, storeId);
      if app.None? then sys
      else
        var reviewed := ReviewedApp(app.value, manifest, answer, now);
        var changed := reviewed.capabilities != app.value.capabilities;
        System(if reviewed != app.value then SaveNative(s, reviewed) else s,
          if changed then ClosedNative(sys.sockets, reviewed) else sys.sockets)
    case RecordCatalog(catalogId, manifest, origin, name, legacyOrigin, path, valid, now) =>
      sys.(store := EnsureCatalog(s, catalogId, manifest, origin, name, legacyOrigin, path, valid, now))
    case Disconnect(auth) => sys.(sockets := sys.sockets - {auth})
  }

  // ----- the invariant

  predicate ApprovalsInv(preapproved: map<string, PreApproval>) {
    forall k :: k in preapproved ==> MANAGE !in preapproved[k].capabilities
  }

  predicate StoreInv(s: Store) {
    && UniqueKeys(s.browser) && RecordsInv(s.browser)
    && UniqueStores(s.native) && NativesInv(s.native)
    && ApprovalsInv(s.preapproved)
  }

  predicate SocketsInv(sockets: set<Auth>) {
    forall auth :: auth in sockets ==> auth.capabilities <= auth.stored
  }

  predicate Inv(sys: System) {
    StoreInv(sys.store) && SocketsInv(sys.sockets)
  }

  // ----- every step keeps the invariant

  lemma BestGrantIsSaved(list: seq<Identity>, n: nat, origins: set<string>, storeId: string)
    requires n <= |list|
    ensures var best := BestGrant(list, n, origins, storeId);
      best.Some? ==> best.value in list && Priority(best.value, origins, storeId) > 0
  {
  }

  lemma ReconnectStep(s: Store, stored: Identity, client: string, app: Option<App>, catalog: Option<App>, now: nat)
    requires StoreInv(s) && RecordInv(stored) && now > 0
    ensures var (s', auth) := ContinuePaired(s, stored, client, app, catalog, now);
      StoreInv(s') && auth.capabilities <= auth.stored
  {
    hide UniqueKeys, RecordsInv, Upserted;
    forall identity
      ensures UniqueKeys(Upserted(s.browser, identity)) && (RecordInv(identity) ==> RecordsInv(Upserted(s.browser, identity)))
    {
      UpsertedLaws(s.browser, identity);
    }
  }

  lemma PairAppStep(s: Store, identity: Identity, resolved: Option<App>, origins: set<string>, auto: bool,
                    decision: Option<Perms>, now: nat)
    requires StoreInv(s) && identity.valid && !identity.authority && now > 0
    ensures var (s', auth) := PairApp(s, identity, resolved, origins, auto, decision, now);
      StoreInv(s') && (auth.Some? ==> auth.value.capabilities <= auth.value.stored)
  {
    if resolved.Some? {
      var app := App(resolved.value.storeId, resolved.value.declared - {MANAGE});
      var approval := LiveApproval(s, app.storeId, now);
      var existing := BestGrant(s.browser, |s.browser|, origins, app.storeId);
      BestGrantIsSaved(s.browser, |s.browser|, origins, app.storeId);
      var paired := PairedRecord(identity.(storeId := app.storeId), app, approval, existing, auto, decision, now);
      if paired.Some? {
        assert RecordInv(paired.value);
        hide UniqueKeys, RecordsInv, Upserted, RecordInv, PairedRecord, BestGrant, LiveApproval;
        UpsertedLaws(s.browser, paired.value);
      }
    }
  }

  lemma PairAuthorityStep(s: Store, identity: Identity, catalogId: string, declared: Perms, now: nat)
    requires StoreInv(s) && identity.valid && now > 0
    ensures var (s', auth) := PairAuthority(s, identity, catalogId, declared, now);
      StoreInv(s') && auth.capabilities <= auth.stored
  {
    hide UniqueKeys, RecordsInv, Upserted;
    var all := declared + {MANAGE};
    UpsertedLaws(s.browser, Approved(identity, all, all, now).(authority := true, storeId := catalogId));
  }

  lemma UpdateIdentityStep(s: Store, identity: Identity, requested: Perms, manifest: Option<Perms>, now: nat)
    requires StoreInv(s) && RecordInv(identity) && now > 0
    ensures StoreInv(UpdateIdentity(s, identity, requested, manifest, now))
  {
    hide UniqueKeys, RecordsInv, Upserted;
    var ceiling := Ceiling(identity.declared, manifest);
    var capabilities := Clamped(requested, ceiling, identity.authority);
    var approvedAt := if identity.approvedAt == 0 then now else identity.approvedAt;
    UpsertedLaws(s.browser, Approved(identity, capabilities, ceiling + capabilities, approvedAt));
  }

  lemma SaveNativeStep(s: Store, app: NativeApp)
    requires StoreInv(s) && (app.valid ==> NativeInv(app))
    ensures StoreInv(SaveNative(s, app))
  {
    UpsertedNativeLaws(s.native, app);
  }

  lemma SyncStep(s: Store, synced: seq<Identity>)
    requires StoreInv(s) && RecordsInv(synced)
    ensures StoreInv(s.(browser := Merged(s.browser, synced)))
  {
    IdentitySync.SyncLaws(s.browser, synced);
    var merged := Merged(s.browser, synced);
    forall i | 0 <= i < |merged|
      ensures RecordInv(merged[i])
    {
      assert merged[i] in merged;
    }
  }

  lemma BrowserStep(sys: System, op: Op)
    requires Inv(sys) && Enabled(sys, op)
    requires op.Reconnect? || op.PairWithApp? || op.PairAsAuthority? || op.PreApprove? || op.Sync? || op.Disconnect?
    ensures Inv(Apply(sys, op))
  {
    var s := sys.store;
    match op
    case Reconnect(index, client, app, catalog, now) => ReconnectStep(s, s.browser[index], client, app, catalog, now);
    case PairWithApp(identity, resolved, origins, auto, reply, now) => PairAppStep(s, identity, resolved, origins, auto, reply, now);
    case PairAsAuthority(identity, catalogId, declared, now) => PairAuthorityStep(s, identity, catalogId, declared, now);
    case Sync(synced) => SyncStep(s, synced);
    case PreApprove(_, _, _, _) =>
    case Disconnect(_) =>
  }

  lemma AuthorityStep(sys: System, op: Op)
    requires Inv(sys) && Enabled(sys, op)
    requires op.Update? || op.Revoke?
    ensures Inv(Apply(sys, op))
  {
    hide FindNative, UpsertedNative, UpdateIdentity, Find, Without;
    var s := sys.store;
    FindLaws(s.browser, op.keyId, op.origin, op.storeId);
    FindNativeLaws(s.native, NativeTarget(op.keyId, op.storeId));
    if NATIVE_PREFIX <= op.keyId {
      var app := FindNative(s.native, NativeTarget(op.keyId, op.storeId));
      if app.Some? {
        SaveNativeStep(s, if op.Update? then UpdateNative(s, app.value, op.requested, op.manifest, op.now) else RevokedApp(app.value));
      }
    } else if op.Update? {
      var identity := Find(s.browser, op.keyId, op.origin, op.storeId);
      if identity.Some? {
        UpdateIdentityStep(s, identity.value, op.requested, op.manifest, op.now);
      }
    } else {
      WithoutLaws(s.browser, op.keyId, op.origin, op.storeId);
    }
  }

  lemma ConnectStep(s: Store, app: NativeApp, manifest: Option<Perms>, decision: Decision, now: nat)
    requires StoreInv(s) && NativeInv(app) && now > 0
    ensures var (s', auth) := AuthorizeNative(s, app, manifest, decision, now);
      StoreInv(s') && (auth.Some? ==> auth.value.capabilities <= auth.value.stored)
  {
    hide StoreInv;
    if manifest.Some? && !app.authority {
      var updated := AuthorizedApp(app, manifest.value - {MANAGE}, decision, now);
      assert NativeInv(updated);
      SaveNativeStep(s, updated);
    }
  }

  lemma NativeStep(sys: System, op: Op)
    requires Inv(sys) && Enabled(sys, op)
    requires op.Install? || op.Uninstall? || op.ConnectNative? || op.Review? || op.RecordCatalog?
    ensures Inv(Apply(sys, op))
  {
    hide FindNative, UpsertedNative, WithoutNative, AuthorizeNative, EnsureCatalog;
    var s := sys.store;
    match op
    case Install(storeId, origin, name, path, valid, requested, declared, catalogId, now) =>
      SaveNativeStep(s, InstalledApp(s, storeId, origin, name, path, valid, requested, declared, catalogId, now));
    case Uninstall(storeId) => WithoutNativeLaws(s.native, storeId);
    case ConnectNative(storeId, manifest, decision, now) =>
      FindNativeLaws(s.native, storeId);
      var app := FindNative(s.native, storeId);
      if app.Some? {
        ConnectStep(s, app.value, manifest, decision, now);
      }
    case Review(storeId, manifest, answer, now) =>
      FindNativeLaws(s.native, storeId);
      var app := FindNative(s.native, storeId);
      if app.Some? {
        SaveNativeStep(s, ReviewedApp(app.value, manifest, answer, now));
      }
    case RecordCatalog(catalogId, catalog, origin, name, legacyOrigin, path, valid, now) =>
      FindNativeLaws(s.native, catalogId);
      CatalogStep(s, catalogId, catalog, origin, name, legacyOrigin, path, valid, now);
  }

  lemma CatalogStep(s: Store, catalogId: string, catalog: Option<App>, origin: string, name: string,
                    legacyOrigin: string, path: string, valid: bool, now: nat)
    requires StoreInv(s)
    ensures StoreInv(EnsureCatalog(s, catalogId, catalog, origin, name, legacyOrigin, path, valid, now))
  {
    forall app | NativeInv(app)
      ensures StoreInv(SaveNative(s, app))
    {
      SaveNativeStep(s, app);
    }
  }

  lemma StepKeepsInv(sys: System, op: Op)
    requires Inv(sys) && Enabled(sys, op)
    ensures Inv(Apply(sys, op))
  {
    hide Inv, Apply, Enabled;
    if op.Update? || op.Revoke? {
      AuthorityStep(sys, op);
    } else if op.Install? || op.Uninstall? || op.ConnectNative? || op.Review? || op.RecordCatalog? {
      NativeStep(sys, op);
    } else {
      BrowserStep(sys, op);
    }
  }

  lemma OpKeepsInv(sys: System, op: Op)
    requires Enabled(sys, op)
    ensures Inv(sys) ==> Inv(Apply(sys, op))
  {
    hide Inv, Apply, Enabled;
    if Inv(sys) {
      StepKeepsInv(sys, op);
    }
  }

  // ----- whole runs

  ghost predicate Runs(sys: System, ops: seq<Op>, sys': System)
    decreases |ops|
  {
    if ops == [] then sys' == sys
    else Enabled(sys, ops[0]) && Runs(Apply(sys, ops[0]), ops[1..], sys')
  }

  /** The grant store invariant, over every run: keys stay unique; an approved browser grant and a
      native grant of an ordinary app stay within what was declared; and `permissions.manage` is
      held by the authority records and by no other, nor by any pre-approval. */
  lemma {:induction false} StoreInvariant(sys: System, ops: seq<Op>, sys': System)
    requires Inv(sys) && Runs(sys, ops, sys')
    ensures Inv(sys')
    decreases |ops|
  {
    hide Inv, Apply, Enabled;
    if ops != [] {
      StepKeepsInv(sys, ops[0]);
      StoreInvariant(Apply(sys, ops[0]), ops[1..], sys');
    }
  }

  // ----- frames

  /** A grant in force for the socket's key, origin and app that covers everything the socket may do,
      `permissions.manage` only from an authority. An old grant without an app id counts for any app. */
  ghost predicate InForce(s: Store, auth: Auth) {
    if NATIVE_PREFIX <= auth.keyId then
      exists app :: app in s.native && auth.keyId == NATIVE_PREFIX + app.storeId && app.origin == auth.origin
        && auth.capabilities <= app.capabilities && (MANAGE in auth.capabilities ==> app.authority)
    else
      exists i :: i in s.browser && i.keyId == auth.keyId && i.origin == auth.origin && (i.storeId == "" || i.storeId == auth.storeId)
        && auth.capabilities <= i.capabilities && (MANAGE in auth.capabilities ==> i.authority)
  }

  /** A socket's snapshot may do no more than the grant it was opened with. */
  lemma OpenedWithinGrant(start: System, before: seq<Op>, mid: System, auth: Auth)
    requires Inv(start) && Runs(start, before, mid) && auth in mid.sockets
    ensures auth.capabilities <= auth.stored
  {
    StoreInvariant(start, before, mid);
  }

  lemma CheckedIsInForce(s: Store, auth: Auth)
    requires StoreInv(s) && auth.capabilities <= auth.stored && HasGrant(s, auth)
    ensures InForce(s, auth)
  {
    if NATIVE_PREFIX <= auth.keyId {
      FindNativeLaws(s.native, TrimNative(auth.keyId));
      var app := FindNative(s.native, TrimNative(auth.keyId)).value;
      var i :| 0 <= i < |s.native| && s.native[i] == app;
      assert NativeInv(s.native[i]);
    } else {
      var i :| 0 <= i < |s.browser| && Matches(s.browser[i], auth);
      assert RecordInv(s.browser[i]) && s.browser[i] in s.browser;
    }
  }

  /** Frame authority: for every socket ever opened, still open or already told to close, whatever
      was paired, updated, revoked, reviewed and synced before and after, a frame that passes the
      per-frame check runs under a grant that is in force at that frame. */
  lemma FrameAuthority(start: System, before: seq<Op>, mid: System, later: seq<Op>, sys: System, auth: Auth)
    requires Inv(start) && Runs(start, before, mid) && auth in mid.sockets
    requires Runs(mid, later, sys) && HasGrant(sys.store, auth)
    ensures InForce(sys.store, auth)
  {
    hide HasGrant, InForce, Runs;
    OpenedWithinGrant(start, before, mid, auth);
    StoreInvariant(start, before, mid);
    StoreInvariant(mid, later, sys);
    CheckedIsInForce(sys.store, auth);
  }

  /** Revoking a native grant leaves the sockets ever opened for it nothing to use: a frame that still
      passes the check right after holds no permission at all, `permissions.manage` of an authority apart. */
  lemma RevokedNativeIsEmpty(start: System, before: seq<Op>, mid: System, later: seq<Op>, sys: System,
                             keyId: string, origin: string, storeId: string, auth: Auth)
    requires Inv(start) && Runs(start, before, mid) && auth in mid.sockets && Runs(mid, later, sys)
    requires NATIVE_PREFIX <= keyId && FindNative(sys.store.native, NativeTarget(keyId, storeId)).Some?
    requires auth.keyId == NATIVE_PREFIX + NativeTarget(keyId, storeId)
    requires HasGrant(Apply(sys, Revoke(keyId, origin, storeId)).store, auth)
    ensures auth.capabilities <= {MANAGE}
  {
    hide HasGrant, Runs, StoreInv, SocketsInv, FindNative;
    OpenedWithinGrant(start, before, mid, auth);
    StoreInvariant(start, before, mid);
    StoreInvariant(mid, later, sys);
    RevokedNativeHolds(sys.store, NativeTarget(keyId, storeId));
    assert HasGrant(SaveNative(sys.store, RevokedApp(FindNative(sys.store.native, NativeTarget(keyId, storeId)).value)), auth);
    GrantedIsStored(sys.store, NativeTarget(keyId, storeId), auth);
  }

  /** After a revoke the lookup finds the app with nothing but an authority's own permission. */
  lemma RevokedNativeHolds(s: Store, target: string)
    requires StoreInv(s) && FindNative(s.native, target).Some?
    ensures
      var after := SaveNative(s, RevokedApp(FindNative(s.native, target).value));
      FindNative(after.native, target).Some? && FindNative(after.native, target).value.capabilities <= {MANAGE}
  {
    hide FindNative, UpsertedNative, NativeInv, RecordInv;
    FindNativeLaws(s.native, target);
    StoredIsValid(s, target);
    var app := RevokedApp(FindNative(s.native, target).value);
    UpsertedNativeLaws(s.native, app);
    FindNativeLaws(UpsertedNative(s.native, app), target);
  }

  lemma GrantedIsStored(s: Store, target: string, auth: Auth)
    requires FindNative(s.native, target).Some? && auth.keyId == NATIVE_PREFIX + target
    requires HasGrant(SaveNative(s, RevokedApp(FindNative(s.native, target).value)), auth)
    ensures
      var after := SaveNative(s, RevokedApp(FindNative(s.native, target).value));
      FindNative(after.native, target).Some? && FindNative(after.native, target).value.capabilities == auth.stored
  {
    hide FindNative, SaveNative, RevokedApp;
    assert TrimNative(auth.keyId) == target;
  }

  lemma StoredIsValid(s: Store, storeId: string)
    requires StoreInv(s) && FindNative(s.native, storeId).Some?
    ensures FindNative(s.native, storeId).value.valid
  {
    FindNativeLaws(s.native, storeId);
  }

  /** After a browser grant is revoked a frame of a socket bound to it passes exactly when another
      record of the same key and origin still grants the same set: an old record without an app id if
      an app's grant was revoked, the app's own record if an old one was. */
  lemma RevokedBrowserPassesExactly(sys: System, keyId: string, origin: string, storeId: string, auth: Auth)
    requires Inv(sys) && !(NATIVE_PREFIX <= keyId) && Find(sys.store.browser, keyId, origin, storeId).Some?
    requires BoundTo(auth, keyId, origin, storeId)
    ensures HasGrant(Apply(sys, Revoke(keyId, origin, storeId)).store, auth) <==>
            auth.storeId != "" && StillGranted(sys.store, auth, if storeId == "" then auth.storeId else "")
  {
    hide Without, Find, RecordInv;
    var kept := Without(sys.store.browser, keyId, origin, storeId);
    var other := if storeId == "" then auth.storeId else "";
    WithoutLaws(sys.store.browser, keyId, origin, storeId);
    if k :| 0 <= k < |kept| && Matches(kept[k], auth) {
      assert kept[k] in kept;
    }
    if r :| auth.storeId != "" && r in sys.store.browser && Names(r, keyId, origin, other) && r.capabilities == auth.stored {
      assert r in kept;
      var k :| 0 <= k < |kept| && kept[k] == r;
      assert Matches(kept[k], auth);
    }
  }

  /** A record of the socket's key and origin, with this app id, has the set the socket was opened with. */
  ghost predicate StillGranted(s: Store, auth: Auth, storeId: string) {
    exists i :: i in s.browser && Names(i, auth.keyId, auth.origin, storeId) && i.capabilities == auth.stored
  }

  const OldRecord := Identity("k", "o", "", true, "", {"p"}, {"p"}, 0, false)
  const OldSystem := System(Store([OldRecord], [], map[]), {})
  const OldApp := App("s", {"p"})

  /** And an app can get there: an old record reconnects as the app under an equal pre-approval; then
      the old record lets frames pass when the app's grant is revoked, and the app's grant does when
      the old one is. */
  lemma OldRecordOutlivesRevoke() returns (ops: seq<Op>, sys: System, auth: Auth)
    ensures Inv(OldSystem) && Runs(OldSystem, ops, sys) && auth in sys.sockets
    ensures Find(sys.store.browser, "k", "o", "s").Some? && auth.keyId == "k" && auth.origin == "o" && auth.storeId == "s"
    ensures HasGrant(Apply(sys, Revoke("k", "o", "s")).store, auth)
    ensures Find(sys.store.browser, "k", "o", "").Some? && HasGrant(Apply(sys, Revoke("k", "o", "")).store, auth)
  {
    var pre, back := PreApprove("s", {"p"}, 0, 1), Reconnect(0, "", Some(OldApp), None, 2);
    var sys1 := Apply(OldSystem, pre);
    assert sys1.store.preapproved["s"].capabilities == {"p"};
    sys := Apply(sys1, back);
    var record := OldRecord.(storeId := "s", approvedAt := 2);
    auth := Auth({"p"}, {"p"}, "k", "o", "s");
    assert {"p"} * {"p"} == {"p"};
    assert WithClient(OldRecord, "") == OldRecord;
    assert ContinuedRecord(OldRecord, "", Some(OldApp), Some(sys1.store.preapproved["s"]), None, 2) == record;
    assert !HasKey([OldRecord], record);
    assert sys.store.browser == [OldRecord] + [record];
    assert auth in sys.sockets;
    ops := [pre, back];
    assert ops[1..] == [back] && [back][1..] == [];
    assert Runs(sys1, [back], sys);
    StoreInvariant(OldSystem, ops, sys);
    OldRecordPasses(sys, record, auth);
  }

  lemma OldRecordPasses(sys: System, record: Identity, auth: Auth)
    requires Inv(sys) && record == OldRecord.(storeId := "s", approvedAt := 2) && auth == Auth({"p"}, {"p"}, "k", "o", "s")
    requires sys.store.browser == [OldRecord, record]
    ensures Find(sys.store.browser, "k", "o", "s").Some? && Find(sys.store.browser, "k", "o", "").Some?
    ensures HasGrant(Apply(sys, Revoke("k", "o", "s")).store, auth) && HasGrant(Apply(sys, Revoke("k", "o", "")).store, auth)
  {
    hide Inv, Without;
    assert sys.store.browser[0] == OldRecord && sys.store.browser[1] == record;
    FindLaws(sys.store.browser, "k", "o", "s");
    FindLaws(sys.store.browser, "k", "o", "");
    hide Find, HasGrant, Apply;
    RevokedBrowserPassesExactly(sys, "k", "o", "s", auth);
    RevokedBrowserPassesExactly(sys, "k", "o", "", auth);
  }
}
