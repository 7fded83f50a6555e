/** What each operation on the grants does to the records, the pre-approvals and the live sockets,
    permission by permission (shellagent/browser_identity.go, shellagent/permissions.go,
    shellagent/native_apps.go, shellagent/native_host.go, shellagent/native_platform_host.go). */
module GrantEffects {
  import opened Options
  import opened Grants
  import opened GrantLists
  import opened GrantRuns

  // ----- the vocabulary

  ghost predicate Selects(r: Identity, keyId: string, origin: string, storeId: string) {
    r.keyId == keyId && r.origin == origin && r.storeId == storeId
  }

  /** Record `i` is the first one the selector names. */
  ghost predicate FirstSelected(list: seq<Identity>, i: nat, keyId: string, origin: string, storeId: string) {
    i < |list| && Selects(list[i], keyId, origin, storeId) && forall j :: 0 <= j < i ==> !Selects(list[j], keyId, origin, storeId)
  }

  ghost predicate FirstOfStore(list: seq<NativeApp>, i: nat, storeId: string) {
    i < |list| && list[i].storeId == storeId && forall j :: 0 <= j < i ==> list[j].storeId != storeId
  }

  /** `after` has `u` in place of every record of its key, at the end if there was none. */
  ghost predicate SavedIn(before: seq<Identity>, after: seq<Identity>, u: Identity) {
    && (forall i :: 0 <= i < |before| ==>
      i < |after| && after[i] == if Selects(before[i], u.keyId, u.origin, u.storeId) then u else before[i])
    && if exists i :: 0 <= i < |before| && Selects(before[i], u.keyId, u.origin, u.storeId) then |after| == |before|
    else |after| == |before| + 1 && after[|before|] == u
  }

  ghost predicate SavedNativeIn(before: seq<NativeApp>, after: seq<NativeApp>, u: NativeApp) {
    if !u.valid then after == before
    else
      && (forall i :: 0 <= i < |before| ==> i < |after| && after[i] == if before[i].storeId == u.storeId then u else before[i])
      && if exists i :: 0 <= i < |before| && before[i].storeId == u.storeId then |after| == |before|
      else |after| == |before| + 1 && after[|before|] == u
  }

  /** The sockets of one record are closed and no other; an empty app id stands for every app. */
  ghost predicate ClosedFor(before: set<Auth>, after: set<Auth>, keyId: string, origin: string, storeId: string) {
    forall a :: a in after <==> a in before && !(a.keyId == keyId && a.origin == origin && (storeId == "" || a.storeId == storeId))
  }

  /** The authority's update of a record that declares `declared`: what is then granted and declared.
      Nothing declared at all means nothing limits the request. */
  ghost predicate GrantsRequested(requested: Perms, declared: Perms, manifest: Option<Perms>, authority: bool,
                                  granted: Perms, declared': Perms) {
    && (forall p :: p in granted && p != "permissions.manage" <==>
      && p in requested && p != "permissions.manage"
      && (p in declared || (manifest.Some? && p in manifest.value)
          || (declared == {} && (manifest.Some? ==> manifest.value == {}))))
    && ("permissions.manage" in granted <==> authority)
    && (forall p :: p in declared' <==> p in declared || (manifest.Some? && p in manifest.value) || p in granted)
  }

  // ----- saving, finding and closing

  lemma UpsertSaves(list: seq<Identity>, u: Identity)
    ensures SavedIn(list, Upserted(list, u), u)
  {
    hide Replaced;
    ReplacedAt(list, u);
    if i :| 0 <= i < |list| && Selects(list[i], u.keyId, u.origin, u.storeId) {
      assert SameKey(list[i], u);
    }
  }

  lemma UpsertNativeSaves(list: seq<NativeApp>, u: NativeApp)
    ensures SavedNativeIn(list, if u.valid then UpsertedNative(list, u) else list, u)
  {
    hide ReplacedNative;
    ReplacedNativeAt(list, u);
  }

  lemma {:induction false} FindsFirst(list: seq<Identity>, keyId: string, origin: string, storeId: string)
    ensures var f := Find(list, keyId, origin, storeId);
      if f.Some? then exists i: nat :: FirstSelected(list, i, keyId, origin, storeId) && f.value == list[i]
      else forall r :: r in list ==> !Selects(r, keyId, origin, storeId)
  {
    if list != [] {
      FindsFirst(list[1..], keyId, origin, storeId);
      assert list == [list[0]] + list[1..];
      if Selects(list[0], keyId, origin, storeId) {
        assert FirstSelected(list, 0, keyId, origin, storeId);
      } else if i: nat :| FirstSelected(list[1..], i, keyId, origin, storeId) && Find(list, keyId, origin, storeId) == Some(list[1..][i]) {
        assert FirstSelected(list, i + 1, keyId, origin, storeId);
      }
    }
  }

  lemma {:induction false} FindsFirstNative(list: seq<NativeApp>, storeId: string)
    ensures var f := FindNative(list, storeId);
      if f.Some? then exists i: nat :: FirstOfStore(list, i, storeId) && f.value == list[i]
      else forall r :: r in list ==> r.storeId != storeId
  {
    if list != [] {
      FindsFirstNative(list[1..], storeId);
      assert list == [list[0]] + list[1..];
      if list[0].storeId == storeId {
        assert FirstOfStore(list, 0, storeId);
      } else if i: nat :| FirstOfStore(list[1..], i, storeId) && FindNative(list, storeId) == Some(list[1..][i]) {
        assert FirstOfStore(list, i + 1, storeId);
      }
    }
  }

  // ----- the authority's decisions

  /** The effect of an update of a browser grant. */
  ghost predicate UpdatesBrowser(b: System, keyId: string, origin: string, storeId: string, requested: Perms,
                                 manifest: Option<Perms>, now: nat, a: System) {
    && ((forall r :: r in b.store.browser ==> !Selects(r, keyId, origin, storeId)) ==> a == b)
    && (forall i: nat :: FirstSelected(b.store.browser, i, keyId, origin, storeId) ==>
      var r := b.store.browser[i];
      && (exists granted, declared ::
        && GrantsRequested(requested, r.declared, manifest, r.authority, granted, declared)
        && SavedIn(b.store.browser, a.store.browser,
          r.(capabilities := granted, declared := declared, approvedAt := if r.approvedAt == 0 then now else r.approvedAt)))
      && a.store.native == b.store.native && a.store.preapproved == b.store.preapproved
      && ClosedFor(b.sockets, a.sockets, keyId, origin, storeId))
  }

  /** The effect of an update of a native grant. */
  ghost predicate UpdatesNative(b: System, storeId: string, requested: Perms, manifest: Option<Perms>, now: nat, a: System) {
    && ((forall r :: r in b.store.native ==> r.storeId != storeId) ==> a == b)
    && (forall i: nat :: FirstOfStore(b.store.native, i, storeId) ==>
      var r := b.store.native[i];
      && (exists granted, declared ::
        && GrantsRequested(requested, r.declared, manifest, r.authority, granted, declared)
        && SavedNativeIn(b.store.native, a.store.native,
          r.(capabilities := granted, declared := declared, approvedAt := if r.approvedAt == 0 then now else r.approvedAt)))
      && a.store.browser == b.store.browser && a.store.preapproved == b.store.preapproved
      && ClosedFor(b.sockets, a.sockets, "native:" + r.storeId, r.origin, r.storeId))
  }

  lemma ClampGrants(requested: Perms, declared: Perms, manifest: Option<Perms>, authority: bool)
    ensures var ceiling := Ceiling(declared, manifest);
      var granted := Clamped(requested, ceiling, authority);
      GrantsRequested(requested, declared, manifest, authority, granted, ceiling + granted)
  {
    var ceiling := Ceiling(declared, manifest);
    if ceiling == {} {
      assert forall p :: p in declared ==> p in ceiling;
      assert manifest.Some? ==> forall p :: p in manifest.value ==> p in ceiling;
    }
  }

  lemma UpdateBrowserEffect(sys: System, op: Op)
    requires Enabled(sys, op) && op.Update? && !("native:" <= op.keyId)
    ensures UpdatesBrowser(sys, op.keyId, op.origin, op.storeId, op.requested, op.manifest, op.now, Apply(sys, op))
  {
    hide SavedIn, GrantsRequested, Find, Upserted, Clamped, Ceiling;
    FindsFirst(sys.store.browser, op.keyId, op.origin, op.storeId);
    var found := Find(sys.store.browser, op.keyId, op.origin, op.storeId);
    if found.Some? {
      var r := found.value;
      var ceiling := Ceiling(r.declared, op.manifest);
      var granted := Clamped(op.requested, ceiling, r.authority);
      ClampGrants(op.requested, r.declared, op.manifest, r.authority);
      UpsertSaves(sys.store.browser,
        r.(capabilities := granted, declared := ceiling + granted, approvedAt := if r.approvedAt == 0 then op.now else r.approvedAt));
    }
  }

  lemma UpdateNativeEffect(b: System, storeId: string, requested: Perms, manifest: Option<Perms>, now: nat)
    ensures var app := FindNative(b.store.native, storeId);
      var a := if app.None? then b
        else System(SaveNative(b.store, UpdateNative(b.store, app.value, requested, manifest, now)), ClosedNative(b.sockets, app.value));
      UpdatesNative(b, storeId, requested, manifest, now, a)
  {
    hide SavedNativeIn, GrantsRequested, FindNative, UpsertedNative, Clamped, Ceiling;
    FindsFirstNative(b.store.native, storeId);
    var found := FindNative(b.store.native, storeId);
    if found.Some? {
      ClampGrants(requested, found.value.declared, manifest, found.value.authority);
      UpsertNativeSaves(b.store.native, UpdateNative(b.store, found.value, requested, manifest, now));
    }
  }

  /** A revoked browser grant is removed. */
  ghost predicate RevokesBrowser(b: System, keyId: string, origin: string, storeId: string, a: System) {
    if exists r :: r in b.store.browser && Selects(r, keyId, origin, storeId) then
      && (forall r :: r in a.store.browser <==> r in b.store.browser && !Selects(r, keyId, origin, storeId))
      && a.store.native == b.store.native && a.store.preapproved == b.store.preapproved
      && ClosedFor(b.sockets, a.sockets, keyId, origin, storeId)
    else a == b
  }

  /** A revoked native grant keeps its record without the decision; an authority keeps its own permission. */
  ghost predicate RevokesNative(b: System, storeId: string, a: System) {
    && ((forall r :: r in b.store.native ==> r.storeId != storeId) ==> a == b)
    && (forall i: nat :: FirstOfStore(b.store.native, i, storeId) ==>
      var r := b.store.native[i];
      && SavedNativeIn(b.store.native, a.store.native,
        r.(capabilities := if r.authority then {"permissions.manage"} else {}, declared := {}, approvedAt := 0))
      && a.store.browser == b.store.browser && a.store.preapproved == b.store.preapproved
      && ClosedFor(b.sockets, a.sockets, "native:" + r.storeId, r.origin, r.storeId))
  }

  lemma RevokeBrowserEffect(sys: System, op: Op)
    requires op.Revoke? && !("native:" <= op.keyId)
    ensures RevokesBrowser(sys, op.keyId, op.origin, op.storeId, Apply(sys, op))
  {
    hide Find, Without;
    FindLaws(sys.store.browser, op.keyId, op.origin, op.storeId);
    WithoutLaws(sys.store.browser, op.keyId, op.origin, op.storeId);
    assert forall r :: Names(r, op.keyId, op.origin, op.storeId) <==> Selects(r, op.keyId, op.origin, op.storeId);
  }

  lemma RevokeNativeEffect(sys: System, op: Op)
    requires op.Revoke? && "native:" <= op.keyId
    ensures RevokesNative(sys, if op.storeId == "" then op.keyId[7..] else op.storeId, Apply(sys, op))
  {
    hide SavedNativeIn, FindNative, UpsertedNative;
    var storeId := if op.storeId == "" then op.keyId[7..] else op.storeId;
    FindsFirstNative(sys.store.native, storeId);
    var found := FindNative(sys.store.native, storeId);
    if found.Some? {
      UpsertNativeSaves(sys.store.native, RevokedApp(found.value));
    }
  }

  // ----- native apps

  /** When the record of an app was first installed. */
  ghost predicate FirstInstalled(list: seq<NativeApp>, storeId: string, now: nat, installedAt: nat) {
    && ((forall r :: r in list ==> r.storeId != storeId) ==> installedAt == now)
    && (forall i: nat :: FirstOfStore(list, i, storeId) ==> installedAt == if list[i].installedAt != 0 then list[i].installedAt else now)
  }

  /** Installing an app grants what was requested of its manifest, and the catalog all of it. */
  ghost predicate Installs(b: System, storeId: string, origin: string, name: string, path: string, valid: bool,
                           requested: Perms, manifest: Perms, catalogId: string, now: nat, a: System) {
    && (exists u: NativeApp ::
      && SavedNativeIn(b.store.native, a.store.native, u)
      && u.storeId == storeId && u.origin == origin && u.name == name && u.path == path && u.valid == valid
      && FirstInstalled(b.store.native, storeId, now, u.installedAt)
      && u.approvedAt == now && (u.authority <==> storeId == catalogId)
      && (forall p :: p in u.declared <==> if p == "permissions.manage" then storeId == catalogId else p in manifest)
      && (forall p :: p in u.capabilities <==> p in u.declared && (storeId == catalogId || p in requested)))
    && a.store.browser == b.store.browser && a.store.preapproved == b.store.preapproved
    && ClosedFor(b.sockets, a.sockets, "native:" + storeId, origin, storeId)
  }

  lemma InstallEffect(sys: System, op: Op)
    requires Enabled(sys, op) && op.Install?
    ensures Installs(sys, op.storeId, op.origin, op.name, op.path, op.valid, op.requested, op.declared, op.catalogId, op.now,
      Apply(sys, op))
  {
    hide SavedNativeIn, FindNative, UpsertedNative;
    FindsFirstNative(sys.store.native, op.storeId);
    var u := InstalledApp(sys.store, op.storeId, op.origin, op.name, op.path, op.valid, op.requested, op.declared, op.catalogId, op.now);
    UpsertNativeSaves(sys.store.native, u);
  }

  /** Uninstalling an app removes its record. */
  ghost predicate Uninstalls(b: System, storeId: string, a: System) {
    && ((forall r :: r in b.store.native ==> r.storeId != storeId) ==> a == b)
    && (forall i: nat :: FirstOfStore(b.store.native, i, storeId) ==>
      var r := b.store.native[i];
      && (forall x :: x in a.store.native <==> x in b.store.native && x.storeId != storeId)
      && a.store.browser == b.store.browser && a.store.preapproved == b.store.preapproved
      && ClosedFor(b.sockets, a.sockets, "native:" + r.storeId, r.origin, r.storeId))
  }

  lemma UninstallEffect(sys: System, op: Op)
    requires op.Uninstall?
    ensures Uninstalls(sys, op.storeId, Apply(sys, op))
  {
    hide FindNative, WithoutNative;
    FindsFirstNative(sys.store.native, op.storeId);
    WithoutNativeLaws(sys.store.native, op.storeId);
  }

  /** The permissions a connecting app's user is asked about: what its manifest declares beyond the
      last decision, everything if there was none; `permissions.manage` never. */
  ghost predicate Asked(r: NativeApp, manifest: Perms, p: string) {
    p in manifest && p != "permissions.manage" && (r.approvedAt == 0 || p !in r.declared)
  }

  /** What becomes of the record `r` of an ordinary app whose manifest is known. A decision grants
      what was allowed of what was asked; without one, an app that declares nothing counts as decided. */
  ghost predicate Authorizes(r: NativeApp, manifest: Perms, decision: Decision, now: nat, u: NativeApp) {
    && u == r.(capabilities := u.capabilities, declared := u.declared, approvedAt := u.approvedAt)
    && if exists p :: Asked(r, manifest, p) then
      if decision.Decided? then
        && (forall p :: p in u.capabilities <==>
          (r.approvedAt != 0 && p in r.capabilities) || (Asked(r, manifest, p) && p in decision.granted))
        && (forall p :: p in u.declared <==> p in r.declared || (p in manifest && p != "permissions.manage"))
        && u.approvedAt == if r.approvedAt == 0 then now else r.approvedAt
      else u == r
    else if r.approvedAt == 0 then u.capabilities == r.capabilities && u.declared == {} && u.approvedAt == now
    else u == r
  }

  /** The socket of a native app: its record's set as stored, and of it what the manifest declares, or
      the record if the manifest is not known; `permissions.manage` for authorities only. */
  ghost predicate NativeSocket(u: NativeApp, manifest: Option<Perms>, auth: Auth) {
    && auth.keyId == "native:" + u.storeId && auth.origin == u.origin && auth.storeId == u.storeId
    && auth.stored == u.capabilities
    && forall p :: p in auth.capabilities <==> if p == "permissions.manage" then u.authority
      else p in u.capabilities && if manifest.Some? then p in manifest.value else p in u.declared
  }

  ghost predicate Connects(b: System, storeId: string, manifest: Option<Perms>, decision: Decision, now: nat, a: System) {
    && ((forall r :: r in b.store.native ==> r.storeId != storeId) ==> a == b)
    && (forall i: nat :: FirstOfStore(b.store.native, i, storeId) ==>
      var r := b.store.native[i];
      if manifest.None? || r.authority then
        a.store == b.store && exists auth :: NativeSocket(r, manifest, auth) && a.sockets == b.sockets + {auth}
      else if decision.Gone? && exists p :: Asked(r, manifest.value, p) then a == b
      else exists u, auth ::
        && Authorizes(r, manifest.value, decision, now, u) && NativeSocket(u, manifest, auth)
        && (if u == r then a.store.native == b.store.native else SavedNativeIn(b.store.native, a.store.native, u))
        && a.store.browser == b.store.browser && a.store.preapproved == b.store.preapproved
        && a.sockets == b.sockets + {auth})
  }

  lemma AuthorizedMeans(r: NativeApp, manifest: Perms, decision: Decision, now: nat)
    ensures Authorizes(r, manifest, decision, now, AuthorizedApp(r, manifest - {MANAGE}, decision, now))
    ensures var ask := if r.approvedAt == 0 then manifest - {MANAGE} else (manifest - {MANAGE}) - r.declared;
      ask != {} <==> exists p :: Asked(r, manifest, p)
  {
    var declared := manifest - {MANAGE};
    var ask := if r.approvedAt == 0 then declared else declared - r.declared;
    assert forall p :: p in ask <==> Asked(r, manifest, p);
    if ask != {} {
      var p :| p in ask;
      assert Asked(r, manifest, p);
    }
  }

  lemma SocketMeans(u: NativeApp, manifest: Option<Perms>)
    ensures NativeSocket(u, manifest, AuthForNative(u, manifest))
  {
  }

  lemma ConnectEffect(sys: System, op: Op)
    requires Enabled(sys, op) && op.ConnectNative?
    ensures Connects(sys, op.storeId, op.manifest, op.decision, op.now, Apply(sys, op))
  {
    hide SavedNativeIn, FindNative, UpsertedNative, AuthorizedApp, Authorizes, Asked, AuthForNative, NativeSocket;
    FindsFirstNative(sys.store.native, op.storeId);
    var found := FindNative(sys.store.native, op.storeId);
    if found.Some? {
      var r := found.value;
      if op.manifest.None? || r.authority {
        SocketMeans(r, op.manifest);
      } else {
        AuthorizedMeans(r, op.manifest.value, op.decision, op.now);
        var u := AuthorizedApp(r, op.manifest.value - {MANAGE}, op.decision, op.now);
        UpsertNativeSaves(sys.store.native, u);
        SocketMeans(u, op.manifest);
      }
    }
  }

  /** A review of every declared permission: what was answered is granted, an authority keeps its own. */
  ghost predicate Reviews(b: System, storeId: string, manifest: Option<Perms>, answer: Option<Perms>, now: nat, a: System) {
    && ((forall r :: r in b.store.native ==> r.storeId != storeId) ==> a == b)
    && (forall i: nat :: FirstOfStore(b.store.native, i, storeId) ==>
      var r := b.store.native[i];
      if answer.None? || (forall p :: !Reviewed(r, manifest, p)) then a == b
      else exists u: NativeApp ::
        && GrantsReviewed(r, manifest, answer.value, now, u)
        && (if u == r then a.store.native == b.store.native else SavedNativeIn(b.store.native, a.store.native, u))
        && a.store.browser == b.store.browser && a.store.preapproved == b.store.preapproved
        && if u.capabilities == r.capabilities then a.sockets == b.sockets
        else ClosedFor(b.sockets, a.sockets, "native:" + r.storeId, r.origin, r.storeId))
  }

  /** The record after a review. */
  ghost predicate GrantsReviewed(r: NativeApp, manifest: Option<Perms>, answer: Perms, now: nat, u: NativeApp) {
    && u == r.(capabilities := u.capabilities, declared := u.declared, approvedAt := if r.approvedAt == 0 then now else r.approvedAt)
    && (forall p :: p in u.capabilities <==> if p == "permissions.manage" then r.authority else Reviewed(r, manifest, p) && p in answer)
    && (forall p :: p in u.declared <==> p in r.declared || Reviewed(r, manifest, p))
  }

  ghost predicate Reviewed(r: NativeApp, manifest: Option<Perms>, p: string) {
    p != "permissions.manage" && (p in r.declared || (manifest.Some? && p in manifest.value))
  }

  lemma ReviewedMeans(r: NativeApp, manifest: Option<Perms>, answer: Option<Perms>, now: nat)
    ensures if answer.None? || (forall p :: !Reviewed(r, manifest, p)) then ReviewedApp(r, manifest, answer, now) == r
      else GrantsReviewed(r, manifest, answer.value, now, ReviewedApp(r, manifest, answer, now))
  {
    var declared := Ceiling(r.declared, manifest) - {MANAGE};
    assert forall p :: p in declared <==> Reviewed(r, manifest, p);
  }

  lemma ReviewEffect(sys: System, op: Op)
    requires Enabled(sys, op) && op.Review?
    ensures Reviews(sys, op.storeId, op.manifest, op.answer, op.now, Apply(sys, op))
  {
    hide SavedNativeIn, FindNative, UpsertedNative, ReviewedApp, Reviewed;
    FindsFirstNative(sys.store.native, op.storeId);
    var found := FindNative(sys.store.native, op.storeId);
    if found.Some? {
      var r := found.value;
      ReviewedMeans(r, op.manifest, op.answer, op.now);
      UpsertNativeSaves(sys.store.native, ReviewedApp(r, op.manifest, op.answer, op.now));
    }
  }

  /** The catalog's own record: an authority that declares and holds what its manifest does, or what it
      held before if there is no manifest, stored when it differs from the record there was. */
  ghost predicate RecordsCatalog(b: System, catalogId: string, manifest: Option<App>, manifestOrigin: string, manifestName: string,
                                 legacyOrigin: string, path: string, valid: bool, now: nat, a: System) {
    && a.sockets == b.sockets && a.store.browser == b.store.browser && a.store.preapproved == b.store.preapproved
    && ((forall r :: r in b.store.native ==> r.storeId != catalogId) ==>
      Catalogs(b, None, catalogId, manifest, manifestOrigin, manifestName, legacyOrigin, path, valid, now, a))
    && (forall i: nat :: FirstOfStore(b.store.native, i, catalogId) ==>
      Catalogs(b, Some(b.store.native[i]), catalogId, manifest, manifestOrigin, manifestName, legacyOrigin, path, valid, now, a))
  }

  ghost predicate Catalogs(b: System, found: Option<NativeApp>, catalogId: string, manifest: Option<App>, manifestOrigin: string,
                           manifestName: string, legacyOrigin: string, path: string, valid: bool, now: nat, a: System) {
    var known := if manifest.Some? then manifestOrigin else if found.Some? then found.value.origin else "";
    var called := if manifest.Some? then manifestName else if found.Some? then found.value.name else "";
    if known == "" && legacyOrigin == "" then a.store.native == b.store.native
    else exists u: NativeApp ::
      && u.storeId == catalogId && u.path == path && u.valid == valid && u.approvedAt == now && u.authority
      && u.origin == (if known != "" then known else legacyOrigin)
      && u.name == (if called != "" then called else "Dyner")
      && u.installedAt == (if found.Some? && found.value.installedAt != 0 then found.value.installedAt else now)
      && u.declared == u.capabilities
      && (forall p :: p in u.capabilities <==>
        p == "permissions.manage" || if manifest.Some? then p in manifest.value.declared else found.Some? && p in found.value.capabilities)
      && if found.Some? && found.value.origin == u.origin && found.value.name == u.name && found.value.path == u.path
        && found.value.capabilities == u.capabilities
      then a.store.native == b.store.native
      else SavedNativeIn(b.store.native, a.store.native, u)
  }

  lemma CatalogEffect(sys: System, op: Op)
    requires Enabled(sys, op) && op.RecordCatalog?
    ensures RecordsCatalog(sys, op.catalogId, op.catalog, op.origin, op.name, op.legacyOrigin, op.path, op.valid, op.now, Apply(sys, op))
  {
    hide SavedNativeIn, FindNative, UpsertedNative;
    FindsFirstNative(sys.store.native, op.catalogId);
    forall u ensures SavedNativeIn(sys.store.native, SaveNative(sys.store, u).native, u) {
      UpsertNativeSaves(sys.store.native, u);
    }
  }
}
