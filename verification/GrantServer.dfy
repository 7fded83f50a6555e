/** The server object that holds the grants, in the source's own steps: each operation reads the
    lists, changes a record and stores it back (shellagent/browser_identity.go,
    shellagent/permissions.go, shellagent/native_apps.go, shellagent/native_host.go). */
module GrantServer {
  import opened Options
  import opened Grants
  import opened GrantLists
  import opened GrantRuns
  import opened GrantEffects
  import opened GrantPairing
  import IdentitySync

  lemma {:induction false} ReplacedAbsent(list: seq<Identity>, identity: Identity)
    requires !HasKey(list, identity)
    ensures Replaced(list, identity) == list
  {
    ReplacedAt(list, identity);
  }

  lemma {:induction false} ReplacedNativeAbsent(list: seq<NativeApp>, app: NativeApp)
    requires !HasStore(list, app.storeId)
    ensures ReplacedNative(list, app) == list
  {
    ReplacedNativeAt(list, app);
  }

  lemma {:induction false} WithoutAppend(list: seq<Identity>, r: Identity, keyId: string, origin: string, storeId: string)
    ensures Without(list + [r], keyId, origin, storeId) == Without(list, keyId, origin, storeId) +
      if Names(r, keyId, origin, storeId) then [] else [r]
  {
    if list != [] {
      assert (list + [r])[1..] == list[1..] + [r];
      WithoutAppend(list[1..], r, keyId, origin, storeId);
    }
  }

  lemma {:induction false} WithoutNativeAppend(list: seq<NativeApp>, r: NativeApp, storeId: string)
    ensures WithoutNative(list + [r], storeId) == WithoutNative(list, storeId) + if r.storeId == storeId then [] else [r]
  {
    if list != [] {
      assert (list + [r])[1..] == list[1..] + [r];
      WithoutNativeAppend(list[1..], r, storeId);
    }
  }

  lemma {:induction false} ApprovedAppend(list: seq<Identity>, r: Identity)
    ensures LocallyApproved(list + [r]) == LocallyApproved(list) + if r.approvedAt > 0 then [r] else []
  {
    if list != [] {
      assert (list + [r])[1..] == list[1..] + [r];
      ApprovedAppend(list[1..], r);
    }
  }

  lemma NoKey()
    ensures forall r: Identity :: !HasKey([], r)
  {
  }

  lemma HasKeyAppend(list: seq<Identity>, last: Identity)
    ensures forall r: Identity :: HasKey(list + [last], r) <==> HasKey(list, r) || SameKey(last, r)
  {
    forall r: Identity ensures HasKey(list + [last], r) <==> HasKey(list, r) || SameKey(last, r) {
      IdentitySync.KeyStays(list, last, r);
    }
  }

  class Server {
    var browser: seq<Identity>
    var native: seq<NativeApp>
    var preapproved: map<string, PreApproval>
    var sockets: set<Auth>

    function Stored(): Store
      reads this
    {
      Store(browser, native, preapproved)
    }

    function View(): System
      reads this
    {
      System(Stored(), sockets)
    }

    constructor (saved: Store)
      ensures View() == System(saved, {})
    {
      browser, native, preapproved, sockets := saved.browser, saved.native, saved.preapproved, {};
    }

    // ----- browser identities

    method FindIdentity(keyId: string, origin: string, storeId: string) returns (found: Option<Identity>)
      ensures found == Find(browser, keyId, origin, storeId)
      ensures if found.Some? then exists i: nat :: FirstSelected(browser, i, keyId, origin, storeId) && found.value == browser[i]
        else forall r :: r in browser ==> !Selects(r, keyId, origin, storeId)
    {
      FindsFirst(browser, keyId, origin, storeId);
      for i := 0 to |browser|
        invariant Find(browser, keyId, origin, storeId) == Find(browser[i..], keyId, origin, storeId)
      {
        if Names(browser[i], keyId, origin, storeId) {
          return Some(browser[i]);
        }
        assert browser[i..][1..] == browser[i + 1..];
      }
      found := None;
    }

    method UpsertBrowserIdentity(identity: Identity)
      modifies this`browser
      ensures browser == Upserted(old(browser), identity)
      ensures SavedIn(old(browser), browser, identity)
    {
      hide SavedIn, Replaced;
      UpsertSaves(browser, identity);
      var replaced := false;
      ghost var before := browser;
      for index := 0 to |browser|
        invariant |browser| == |before|
        invariant forall j :: 0 <= j < index ==> browser[j] == if SameKey(before[j], identity) then identity else before[j]
        invariant forall j :: index <= j < |browser| ==> browser[j] == before[j]
        invariant replaced <==> exists j :: 0 <= j < index && SameKey(before[j], identity)
      {
        if SameKey(browser[index], identity) {
          browser := browser[index := identity];
          replaced := true;
        }
      }
      ReplacedAt(before, identity);
      assert browser == Replaced(before, identity);
      if !replaced {
        ReplacedAbsent(before, identity);
        browser := browser + [identity];
      }
    }

    /** The check every frame goes through: some record of the socket's key, origin and app holds
        exactly the set the socket was opened with; an old record stands for any app. */
    method HasBrowserIdentity(auth: Auth) returns (ok: bool)
      ensures ok == HasGrant(Stored(), auth)
      ensures "native:" <= auth.keyId && UniqueStores(native) ==>
        (ok <==> exists app ::
          app in native && auth.keyId == "native:" + app.storeId && app.origin == auth.origin && app.capabilities == auth.stored)
      ensures !("native:" <= auth.keyId) ==>
        (ok <==> exists r ::
          && r in browser && r.keyId == auth.keyId && r.origin == auth.origin
          && (r.storeId == "" || r.storeId == auth.storeId) && r.capabilities == auth.stored)
    {
      if NATIVE_PREFIX <= auth.keyId {
        assert auth.keyId == "native:" + auth.keyId[7..];
        var app := FindNativeApp(TrimNative(auth.keyId));
        return app.Some? && app.value.origin == auth.origin && app.value.capabilities == auth.stored;
      }
      for i := 0 to |browser|
        invariant forall j :: 0 <= j < i ==> !Matches(browser[j], auth)
      {
        if Matches(browser[i], auth) {
          return true;
        }
      }
      ok := false;
    }

    /** The pass over the saved grants that remembers the best one and its priority. */
    method FindApprovedAppGrant(origins: set<string>, storeId: string) returns (best: Option<Identity>)
      ensures best == BestGrant(browser, |browser|, origins, storeId)
      ensures best.Some? <==> Reusable(browser, origins, storeId)
      ensures best.Some? ==> exists i: nat :: Reused(browser, i, origins, storeId) && best.value == browser[i]
    {
      hide Reusable, Reused;
      BestGrantMeans(browser, origins, storeId);
      best := None;
      var bestPriority := 0;
      for i := 0 to |browser|
        invariant best == BestGrant(browser, i, origins, storeId)
        invariant best.Some? ==> bestPriority == Priority(best.value, origins, storeId)
      {
        var identity := browser[i];
        if !identity.authority && identity.origin in origins {
          var priority := 0;
          if identity.storeId == storeId && identity.approvedAt > 0 {
            priority := 2;
          } else if identity.storeId == "" && identity.capabilities != {} {
            priority := 1;
          }
          if priority > 0 && (best.None? || priority > bestPriority ||
            (priority == bestPriority && identity.approvedAt > best.value.approvedAt)) {
            best, bestPriority := Some(identity), priority;
          }
        }
      }
    }

    /** First record of each key; None when a record is not valid. */
    static method NormalizeIdentities(value: seq<Identity>) returns (result: Option<seq<Identity>>)
      ensures result == if AllValid(value) then Some(FirstOfEach(value, |value|)) else None
    {
      hide HasKey;
      NoKey();
      var seen: set<(string, string, string)> := {};
      var list := [];
      for i := 0 to |value|
        invariant forall j :: 0 <= j < i ==> value[j].valid
        invariant list == FirstOfEach(value, i)
        invariant forall r: Identity :: (r.keyId, r.origin, r.storeId) in seen <==> HasKey(list, r)
      {
        if !value[i].valid {
          return None;
        }
        var key := (value[i].keyId, value[i].origin, value[i].storeId);
        if key !in seen {
          HasKeyAppend(list, value[i]);
          seen := seen + {key};
          list := list + [value[i]];
        }
      }
      result := Some(list);
    }

    static method MergeSyncedIdentities(existing: seq<Identity>, synced: seq<Identity>) returns (result: seq<Identity>)
      ensures result == Merged(existing, synced)
    {
      var merged := [];
      for i := 0 to |existing|
        invariant merged == LocallyApproved(existing[..i])
      {
        assert existing[..i + 1] == existing[..i] + [existing[i]];
        ApprovedAppend(existing[..i], existing[i]);
        if existing[i].approvedAt > 0 {
          merged := merged + [existing[i]];
        }
      }
      assert existing[..|existing|] == existing;
      merged := merged + synced;
      var normalized := NormalizeIdentities(merged);
      result := if normalized.None? then merged else normalized.value;
    }

    /** A sync replaces the browser list with the merge, whatever the synced records are. */
    method SyncIdentities(synced: seq<Identity>)
      modifies this`browser
      ensures browser == Merged(old(browser), synced)
      ensures RecordsInv(synced) ==> View() == Apply(old(View()), Sync(synced)) && (Inv(old(View())) ==> Inv(View()))
    {
      hide Inv, Merged;
      if RecordsInv(synced) {
        OpKeepsInv(View(), Sync(synced));
      }
      browser := MergeSyncedIdentities(browser, synced);
    }

    // ----- pre-approvals

    method PreapprovePermissions(storeId: string, capabilities: Perms, expiresInMs: nat, now: nat)
      modifies this`preapproved
      ensures View() == Apply(old(View()), PreApprove(storeId, capabilities, expiresInMs, now))
      ensures Preapproves(old(View()), storeId, capabilities, expiresInMs, now, View())
      ensures Inv(old(View())) ==> Inv(View())
    {
      hide Inv, Preapproves;
      OpKeepsInv(View(), PreApprove(storeId, capabilities, expiresInMs, now));
      PreapproveEffect(View(), PreApprove(storeId, capabilities, expiresInMs, now));
      var ttl := DEFAULT_TTL;
      if expiresInMs > 0 {
        ttl := expiresInMs;
      }
      if ttl > MAX_TTL {
        ttl := MAX_TTL;
      }
      preapproved := preapproved[storeId := PreApproval(capabilities - {MANAGE}, now + ttl)];
    }

    method ConsumePreApproval(storeId: string, now: nat) returns (approval: Option<PreApproval>)
      modifies this`preapproved
      ensures approval == LiveApproval(old(Stored()), storeId, now)
      ensures Stored() == Consumed(old(Stored()), storeId)
      ensures preapproved == old(preapproved) - {storeId}
      ensures approval == if storeId in old(preapproved) && now < old(preapproved)[storeId].expiresAt
        then Some(old(preapproved)[storeId]) else None
    {
      if storeId !in preapproved {
        assert preapproved - {storeId} == preapproved;
        return None;
      }
      var found := preapproved[storeId];
      preapproved := preapproved - {storeId};
      approval := if found.expiresAt > now then Some(found) else None;
    }

    // ----- pairing

    method ContinuePairedIdentity(index: nat, client: string, app: Option<App>, catalog: Option<App>, now: nat)
      requires Enabled(View(), Reconnect(index, client, app, catalog, now))
      modifies this
      ensures View() == Apply(old(View()), Reconnect(index, client, app, catalog, now))
      ensures Continues(old(View()), index, client, app, catalog, now, View())
      ensures Inv(old(View())) ==> Inv(View())
    {
      hide Inv, Continues;
      OpKeepsInv(View(), Reconnect(index, client, app, catalog, now));
      ContinueEffect(View(), Reconnect(index, client, app, catalog, now));
      var stored := browser[index];
      var identity := stored;
      if client != "" && client != identity.client {
        identity := identity.(client := client);
      }
      var asApp: Option<App>, decided := None, false;
      if identity.authority {
        if catalog.Some? {
          var declared := catalog.value.declared + {MANAGE};
          if !(declared <= identity.capabilities) {
            identity := identity.(capabilities := identity.capabilities + declared, declared := identity.declared + declared);
          }
        }
      } else if app.Some? {
        asApp := app;
        identity, decided := ContinueApp(identity, app.value, now);
      }
      ghost var approval := if asApp.Some? then LiveApproval(old(Stored()), asApp.value.storeId, now) else None;
      assert identity == ContinuedRecord(stored, client, asApp, approval, catalog, now);
      if decided || identity != stored {
        UpsertBrowserIdentity(identity);
      }
      sockets := sockets + {AuthForIdentity(identity, asApp)};
    }

    /** A saved identity connects as its app: a fresh pre-approval replaces the grant; otherwise
        newly declared permissions only raise the ceiling. */
    method ContinueApp(saved: Identity, app: App, now: nat) returns (identity: Identity, decided: bool)
      modifies this`preapproved
      ensures Stored() == Consumed(old(Stored()), app.storeId)
      ensures decided == LiveApproval(old(Stored()), app.storeId, now).Some?
      ensures !saved.authority ==>
        identity == ContinuedRecord(saved, "", Some(app), LiveApproval(old(Stored()), app.storeId, now), None, now)
    {
      identity := saved;
      var approval := ConsumePreApproval(app.storeId, now);
      decided := approval.Some?;
      if decided {
        identity := identity.(capabilities := approval.value.capabilities * app.declared, declared := app.declared, approvedAt := now);
        if identity.storeId == "" {
          identity := identity.(storeId := app.storeId);
        }
      } else {
        var expanded := identity.declared + app.declared;
        if !(expanded <= identity.declared) {
          identity := identity.(declared := expanded);
        } else {
          assert expanded == identity.declared;
        }
      }
    }

    /** `reply` is the authority's answer, used only when nothing else decides. */
    method PairUnknownIdentity(unknown: Identity, resolved: Option<App>, origins: set<string>, auto: bool,
                               reply: Option<Perms>, now: nat)
      requires Enabled(View(), PairWithApp(unknown, resolved, origins, auto, reply, now))
      modifies this
      ensures View() == Apply(old(View()), PairWithApp(unknown, resolved, origins, auto, reply, now))
      ensures Pairs(old(View()), unknown, resolved, origins, auto, reply, now, View())
      ensures Inv(old(View())) ==> Inv(View())
    {
      hide Inv, Pairs, Reused, Reusable;
      OpKeepsInv(View(), PairWithApp(unknown, resolved, origins, auto, reply, now));
      PairEffect(View(), PairWithApp(unknown, resolved, origins, auto, reply, now));
      if resolved.None? {
        return;
      }
      var app := App(resolved.value.storeId, resolved.value.declared - {MANAGE});
      var identity := unknown.(storeId := app.storeId);
      var existing := FindApprovedAppGrant(origins, app.storeId);
      var approval := ConsumePreApproval(app.storeId, now);
      if approval.Some? {
        identity := Approved(identity, approval.value.capabilities * app.declared, app.declared, now);
      } else if existing.Some? {
        identity := Approved(identity, existing.value.capabilities * app.declared, existing.value.declared + app.declared, now);
      } else if auto {
        identity := Approved(identity, app.declared, app.declared, now);
      } else if reply.Some? {
        identity := Approved(identity, reply.value * app.declared, app.declared, now);
      } else {
        return;
      }
      UpsertBrowserIdentity(identity);
      sockets := sockets + {AuthForIdentity(identity, Some(app))};
    }

    method RecordAuthorityIdentity(unknown: Identity, catalogId: string, declared: Perms, now: nat)
      requires Enabled(View(), PairAsAuthority(unknown, catalogId, declared, now))
      modifies this
      ensures View() == Apply(old(View()), PairAsAuthority(unknown, catalogId, declared, now))
      ensures PairsAuthority(old(View()), unknown, catalogId, declared, now, View())
      ensures Inv(old(View())) ==> Inv(View())
    {
      hide Inv, PairsAuthority;
      OpKeepsInv(View(), PairAsAuthority(unknown, catalogId, declared, now));
      PairAuthorityEffect(View(), PairAsAuthority(unknown, catalogId, declared, now));
      var all := declared + {MANAGE};
      var identity := unknown.(authority := true, storeId := catalogId, capabilities := all, declared := all, approvedAt := now);
      UpsertBrowserIdentity(identity);
      sockets := sockets + {AuthForIdentity(identity, None)};
    }

    // ----- native records

    method FindNativeApp(storeId: string) returns (found: Option<NativeApp>)
      ensures found == FindNative(native, storeId)
      ensures if found.Some? then exists i: nat :: FirstOfStore(native, i, storeId) && found.value == native[i]
        else forall r :: r in native ==> r.storeId != storeId
    {
      FindsFirstNative(native, storeId);
      for i := 0 to |native|
        invariant FindNative(native, storeId) == FindNative(native[i..], storeId)
      {
        if native[i].storeId == storeId {
          return Some(native[i]);
        }
        assert native[i..][1..] == native[i + 1..];
      }
      found := None;
    }

    method UpsertNativeApp(app: NativeApp)
      modifies this`native
      ensures native == if app.valid then UpsertedNative(old(native), app) else old(native)
      ensures SavedNativeIn(old(native), native, app)
    {
      hide SavedNativeIn, ReplacedNative;
      UpsertNativeSaves(native, app);
      if !app.valid {
        return;
      }
      var replaced := false;
      ghost var before := native;
      for index := 0 to |native|
        invariant |native| == |before|
        invariant forall j :: 0 <= j < index ==> native[j] == if before[j].storeId == app.storeId then app else before[j]
        invariant forall j :: index <= j < |native| ==> native[j] == before[j]
        invariant replaced <==> exists j :: 0 <= j < index && before[j].storeId == app.storeId
      {
        if native[index].storeId == app.storeId {
          native := native[index := app];
          replaced := true;
        }
      }
      ReplacedNativeAt(before, app);
      assert native == ReplacedNative(before, app);
      if !replaced {
        ReplacedNativeAbsent(before, app);
        native := native + [app];
      }
    }

    method RemoveNativeApp(storeId: string)
      modifies this`native
      ensures native == WithoutNative(old(native), storeId)
      ensures forall r :: r in native <==> r in old(native) && r.storeId != storeId
    {
      WithoutNativeLaws(native, storeId);
      var kept, apps := [], native;
      for i := 0 to |apps|
        invariant kept == WithoutNative(apps[..i], storeId)
      {
        assert apps[..i + 1] == apps[..i] + [apps[i]];
        WithoutNativeAppend(apps[..i], apps[i], storeId);
        if apps[i].storeId != storeId {
          kept := kept + [apps[i]];
        }
      }
      assert apps[..|apps|] == apps;
      native := kept;
    }

    method CloseSocketsBoundTo(keyId: string, origin: string, storeId: string)
      modifies this`sockets
      ensures sockets == Closed(old(sockets), keyId, origin, storeId)
      ensures ClosedFor(old(sockets), sockets, keyId, origin, storeId)
    {
      var left := sockets;
      ghost var before := sockets;
      while left != {}
        invariant left <= before
        invariant sockets == Closed(before - left, keyId, origin, storeId) + left
        decreases |left|
      {
        var auth :| auth in left;
        left := left - {auth};
        if BoundTo(auth, keyId, origin, storeId) {
          sockets := sockets - {auth};
        }
      }
    }

    // ----- the authority's decisions

    method UpdateGrant(keyId: string, origin: string, storeId: string, requested: Perms, manifest: Option<Perms>, now: nat)
      requires now > 0
      modifies this
      ensures View() == Apply(old(View()), Update(keyId, origin, storeId, requested, manifest, now))
      ensures !("native:" <= keyId) ==> UpdatesBrowser(old(View()), keyId, origin, storeId, requested, manifest, now, View())
      ensures "native:" <= keyId ==>
        UpdatesNative(old(View()), if storeId == "" then keyId[7..] else storeId, requested, manifest, now, View())
      ensures Inv(old(View())) ==> Inv(View())
    {
      hide Inv, UpdatesBrowser, UpdatesNative, SavedIn, SavedNativeIn;
      OpKeepsInv(View(), Update(keyId, origin, storeId, requested, manifest, now));
      if !(NATIVE_PREFIX <= keyId) {
        UpdateBrowserEffect(View(), Update(keyId, origin, storeId, requested, manifest, now));
      }
      if NATIVE_PREFIX <= keyId {
        UpdateNativeGrant(if storeId == "" then TrimNative(keyId) else storeId, requested, manifest, now);
        return;
      }
      var found := FindIdentity(keyId, origin, storeId);
      if found.None? {
        return;
      }
      var identity := found.value;
      FindLaws(browser, keyId, origin, storeId);
      var ceiling := if manifest.Some? then identity.declared + manifest.value else identity.declared;
      var granted := requested;
      if ceiling != {} {
        granted := granted * ceiling;
      }
      granted := if identity.authority then granted + {MANAGE} else granted - {MANAGE};
      identity := identity.(capabilities := granted, declared := ceiling + granted);
      if identity.approvedAt == 0 {
        identity := identity.(approvedAt := now);
      }
      UpsertBrowserIdentity(identity);
      CloseSocketsBoundTo(keyId, origin, storeId);
    }

    method UpdateNativeGrant(storeId: string, requested: Perms, manifest: Option<Perms>, now: nat)
      modifies this
      ensures var app := FindNative(old(native), storeId);
        View() == if app.None? then old(View())
          else System(SaveNative(old(Stored()), UpdateNative(old(Stored()), app.value, requested, manifest, now)),
            ClosedNative(old(sockets), app.value))
      ensures UpdatesNative(old(View()), storeId, requested, manifest, now, View())
    {
      hide UpdatesNative, SavedNativeIn;
      UpdateNativeEffect(View(), storeId, requested, manifest, now);
      var found := FindNativeApp(storeId);
      if found.None? {
        return;
      }
      var app := found.value;
      var ceiling := if manifest.Some? then app.declared + manifest.value else app.declared;
      var granted := requested;
      if ceiling != {} {
        granted := granted * ceiling;
      }
      granted := if app.authority then granted + {MANAGE} else granted - {MANAGE};
      app := app.(capabilities := granted, declared := ceiling + granted);
      if app.approvedAt == 0 {
        app := app.(approvedAt := now);
      }
      UpsertNativeApp(app);
      CloseSocketsBoundTo(NATIVE_PREFIX + app.storeId, app.origin, app.storeId);
    }

    method RevokeGrant(keyId: string, origin: string, storeId: string)
      modifies this
      ensures View() == Apply(old(View()), Revoke(keyId, origin, storeId))
      ensures !("native:" <= keyId) ==> RevokesBrowser(old(View()), keyId, origin, storeId, View())
      ensures "native:" <= keyId ==> RevokesNative(old(View()), if storeId == "" then keyId[7..] else storeId, View())
      ensures Inv(old(View())) ==> Inv(View())
    {
      hide Inv, RevokesBrowser, RevokesNative, SavedNativeIn;
      OpKeepsInv(View(), Revoke(keyId, origin, storeId));
      if NATIVE_PREFIX <= keyId {
        RevokeNativeEffect(View(), Revoke(keyId, origin, storeId));
      } else {
        RevokeBrowserEffect(View(), Revoke(keyId, origin, storeId));
      }
      if NATIVE_PREFIX <= keyId {
        var found := FindNativeApp(if storeId == "" then TrimNative(keyId) else storeId);
        if found.Some? {
          var app := found.value.(capabilities := {}, declared := {}, approvedAt := 0);
          if app.authority {
            app := app.(capabilities := {MANAGE});
          }
          UpsertNativeApp(app);
          CloseSocketsBoundTo(NATIVE_PREFIX + app.storeId, app.origin, app.storeId);
        }
        return;
      }
      var found := FindIdentity(keyId, origin, storeId);
      if found.None? {
        return;
      }
      RemoveIdentity(keyId, origin, storeId);
      CloseSocketsBoundTo(keyId, origin, storeId);
    }

    method RemoveIdentity(keyId: string, origin: string, storeId: string)
      modifies this`browser
      ensures browser == Without(old(browser), keyId, origin, storeId)
      ensures forall r :: r in browser <==> r in old(browser) && !Selects(r, keyId, origin, storeId)
    {
      WithoutLaws(browser, keyId, origin, storeId);
      var kept, identities := [], browser;
      for i := 0 to |identities|
        invariant kept == Without(identities[..i], keyId, origin, storeId)
      {
        assert identities[..i + 1] == identities[..i] + [identities[i]];
        WithoutAppend(identities[..i], identities[i], keyId, origin, storeId);
        if !Names(identities[i], keyId, origin, storeId) {
          kept := kept + [identities[i]];
        }
      }
      assert identities[..|identities|] == identities;
      browser := kept;
    }

    // ----- native apps

    method InstallNativeApp(storeId: string, origin: string, name: string, path: string, valid: bool,
                            requested: Perms, manifest: Perms, catalogId: string, now: nat)
      requires now > 0
      modifies this
      ensures View() == Apply(old(View()), Install(storeId, origin, name, path, valid, requested, manifest, catalogId, now))
      ensures Installs(old(View()), storeId, origin, name, path, valid, requested, manifest, catalogId, now, View())
      ensures Inv(old(View())) ==> Inv(View())
    {
      hide Inv, Installs, SavedNativeIn;
      OpKeepsInv(View(), Install(storeId, origin, name, path, valid, requested, manifest, catalogId, now));
      InstallEffect(View(), Install(storeId, origin, name, path, valid, requested, manifest, catalogId, now));
      var declared := manifest - {MANAGE};
      var app := NativeApp(storeId, origin, name, path, valid, now, requested * declared, declared, now, false);
      var previous := FindNativeApp(storeId);
      if previous.Some? && previous.value.installedAt != 0 {
        app := app.(installedAt := previous.value.installedAt);
      }
      if storeId == catalogId {
        app := app.(authority := true, capabilities := declared + {MANAGE}, declared := declared + {MANAGE});
      }
      UpsertNativeApp(app);
      CloseSocketsBoundTo(NATIVE_PREFIX + app.storeId, app.origin, app.storeId);
    }

    method UninstallNativeApp(storeId: string)
      modifies this
      ensures View() == Apply(old(View()), Uninstall(storeId))
      ensures Uninstalls(old(View()), storeId, View())
      ensures Inv(old(View())) ==> Inv(View())
    {
      hide Inv, Uninstalls, SavedNativeIn;
      OpKeepsInv(View(), Uninstall(storeId));
      UninstallEffect(View(), Uninstall(storeId));
      var found := FindNativeApp(storeId);
      if found.None? {
        return;
      }
      RemoveNativeApp(storeId);
      CloseSocketsBoundTo(NATIVE_PREFIX + found.value.storeId, found.value.origin, found.value.storeId);
    }

    /** `decision` is the answer to the question put in the app's own window, if one is put. */
    method AuthorizeNativeApp(storeId: string, manifest: Option<Perms>, decision: Decision, now: nat)
      requires now > 0
      modifies this
      ensures View() == Apply(old(View()), ConnectNative(storeId, manifest, decision, now))
      ensures Connects(old(View()), storeId, manifest, decision, now, View())
      ensures Inv(old(View())) ==> Inv(View())
    {
      hide Inv, Connects, SavedNativeIn;
      OpKeepsInv(View(), ConnectNative(storeId, manifest, decision, now));
      ConnectEffect(View(), ConnectNative(storeId, manifest, decision, now));
      var found := FindNativeApp(storeId);
      if found.None? {
        return;
      }
      var app := found.value;
      if manifest.Some? && !app.authority {
        var declared := manifest.value - {MANAGE};
        var pairing := app.approvedAt == 0;
        var ask := if pairing then declared else declared - app.declared;
        if ask != {} {
          if decision.Gone? {
            return;
          }
          if decision.Decided? {
            var granted := decision.granted * ask;
            if pairing {
              app := app.(capabilities := granted);
            } else {
              app := app.(capabilities := app.capabilities + granted);
            }
            app := app.(declared := app.declared + declared);
            if app.approvedAt == 0 {
              app := app.(approvedAt := now);
            }
            SaveUnlessSame(found.value, app);
          }
        } else if pairing {
          app := app.(approvedAt := now, declared := declared);
          UpsertNativeApp(app);
        }
      }
      sockets := sockets + {AuthForNative(app, manifest)};
    }

    /** Storing an unchanged record back changes nothing, so it is left out. */
    method SaveUnlessSame(before: NativeApp, app: NativeApp)
      modifies this`native
      ensures native == if app != before && app.valid then UpsertedNative(old(native), app) else old(native)
    {
      if app != before {
        UpsertNativeApp(app);
      }
    }

    method ReviewNativeApp(storeId: string, manifest: Option<Perms>, answer: Option<Perms>, now: nat)
      requires now > 0
      modifies this
      ensures View() == Apply(old(View()), Review(storeId, manifest, answer, now))
      ensures Reviews(old(View()), storeId, manifest, answer, now, View())
      ensures Inv(old(View())) ==> Inv(View())
    {
      hide Inv, Reviews, SavedNativeIn;
      OpKeepsInv(View(), Review(storeId, manifest, answer, now));
      ReviewEffect(View(), Review(storeId, manifest, answer, now));
      hide FindNative, UpsertedNative, Closed;
      var found := FindNativeApp(storeId);
      if found.None? {
        return;
      }
      var app := found.value;
      var declared := (if manifest.Some? then app.declared + manifest.value else app.declared) - {MANAGE};
      if declared == {} || answer.None? {
        return;
      }
      var granted := answer.value * declared;
      if app.authority {
        granted := granted + {MANAGE};
      }
      var changed := granted != app.capabilities;
      app := app.(capabilities := granted, declared := app.declared + declared);
      if app.approvedAt == 0 {
        app := app.(approvedAt := now);
      }
      SaveUnlessSame(found.value, app);
      if changed {
        CloseSocketsBoundTo(NATIVE_PREFIX + app.storeId, app.origin, app.storeId);
      }
    }

    method EnsureNativeCatalogApp(catalogId: string, manifest: Option<App>, manifestOrigin: string,
                                  manifestName: string, legacyOrigin: string, catalogPath: string, valid: bool,
                                  now: nat)
      requires now > 0
      modifies this
      ensures View() == Apply(old(View()), RecordCatalog(catalogId, manifest, manifestOrigin, manifestName,
        legacyOrigin, catalogPath, valid, now))
      ensures RecordsCatalog(old(View()), catalogId, manifest, manifestOrigin, manifestName, legacyOrigin, catalogPath, valid, now, View())
      ensures Inv(old(View())) ==> Inv(View())
    {
      hide Inv, RecordsCatalog, SavedNativeIn;
      OpKeepsInv(View(), RecordCatalog(catalogId, manifest, manifestOrigin, manifestName, legacyOrigin, catalogPath, valid, now));
      CatalogEffect(View(), RecordCatalog(catalogId, manifest, manifestOrigin, manifestName, legacyOrigin, catalogPath, valid, now));
      hide FindNative, UpsertedNative;
      var found := FindNativeApp(catalogId);
      var origin, name := "", "";
      if found.Some? {
        origin, name := found.value.origin, found.value.name;
      }
      if manifest.Some? {
        origin, name := manifestOrigin, manifestName;
      }
      if origin == "" {
        origin := legacyOrigin;
      }
      if name == "" {
        name := "Dyner";
      }
      if origin == "" {
        return;
      }
      var declared: Perms := {MANAGE};
      if manifest.Some? {
        declared := declared + manifest.value.declared;
      } else if found.Some? {
        declared := declared + found.value.capabilities;
      }
      assert declared == {MANAGE} + (if manifest.Some? then manifest.value.declared
        else if found.Some? then found.value.capabilities else {});
      var updated := NativeApp(catalogId, origin, name, catalogPath, valid, now, declared, declared, now, true);
      if found.Some? && found.value.installedAt != 0 {
        updated := updated.(installedAt := found.value.installedAt);
      }
      if found.None? || found.value.origin != updated.origin || found.value.name != updated.name ||
        found.value.capabilities != updated.capabilities || found.value.path != updated.path {
        UpsertNativeApp(updated);
      }
    }
  }
}
