/** Permission grants: browser pairings, native app grants and pre-approvals, and every
    operation that rewrites them (shellagent/browser_identity.go, shellagent/permissions.go,
    shellagent/native_apps.go, shellagent/native_host.go, shellagent/native_platform_host.go).
    Permission ids are trimmed, non-empty names, so a permission list is a set. */
module Grants {
  import opened Options

  type Perms = set<string>

  const MANAGE := "permissions.manage"
  const NATIVE_PREFIX := "native:"
  const DEFAULT_TTL := 600000
  const MAX_TTL := 3600000

  /** A browser identity. `valid` is whether its key material and names pass validation. */
  datatype Identity = Identity(
    keyId: string, origin: string, storeId: string, valid: bool, client: string,
    capabilities: Perms, declared: Perms, approvedAt: nat, authority: bool)

  /** A native app. `valid` is whether its store id, origin and path pass validation. */
  datatype NativeApp = NativeApp(
    storeId: string, origin: string, name: string, path: string, valid: bool, installedAt: nat,
    capabilities: Perms, declared: Perms, approvedAt: nat, authority: bool)

  datatype PreApproval = PreApproval(capabilities: Perms, expiresAt: nat)

  datatype Store = Store(browser: seq<Identity>, native: seq<NativeApp>, preapproved: map<string, PreApproval>)

  /** What a manifest lookup gives. */
  datatype App = App(storeId: string, declared: Perms)

  /** What a socket remembers of the grant it was opened with. */
  datatype Auth = Auth(capabilities: Perms, stored: Perms, keyId: string, origin: string, storeId: string)

  // ----- records in lists

  predicate SameKey(a: Identity, b: Identity) {
    a.keyId == b.keyId && a.origin == b.origin && a.storeId == b.storeId
  }

  predicate Names(a: Identity, keyId: string, origin: string, storeId: string) {
    a.keyId == keyId && a.origin == origin && a.storeId == storeId
  }

  /** Every record with the key replaced by `identity`. */
  function Replaced(list: seq<Identity>, identity: Identity): (r: seq<Identity>)
    ensures |r| == |list|
  {
    if list == [] then [] else [if SameKey(list[0], identity) then identity else list[0]] + Replaced(list[1..], identity)
  }

  predicate HasKey(list: seq<Identity>, identity: Identity) {
    exists i :: 0 <= i < |list| && SameKey(list[i], identity)
  }

  function Upserted(list: seq<Identity>, identity: Identity): seq<Identity> {
    if HasKey(list, identity) then Replaced(list, identity) else list + [identity]
  }

  function Without(list: seq<Identity>, keyId: string, origin: string, storeId: string): seq<Identity> {
    if list == [] then []
    else (if Names(list[0], keyId, origin, storeId) then [] else [list[0]]) + Without(list[1..], keyId, origin, storeId)
  }

  /** The first record with the names, as `findIdentity` looks it up. */
  function Find(list: seq<Identity>, keyId: string, origin: string, storeId: string): Option<Identity> {
    if list == [] then None
    else if Names(list[0], keyId, origin, storeId) then Some(list[0])
    else Find(list[1..], keyId, origin, storeId)
  }

  function ReplacedNative(list: seq<NativeApp>, app: NativeApp): (r: seq<NativeApp>)
    ensures |r| == |list|
  {
    if list == [] then [] else [if list[0].storeId == app.storeId then app else list[0]] + ReplacedNative(list[1..], app)
  }

  predicate HasStore(list: seq<NativeApp>, storeId: string) {
    exists i :: 0 <= i < |list| && list[i].storeId == storeId
  }

  function UpsertedNative(list: seq<NativeApp>, app: NativeApp): seq<NativeApp> {
    if HasStore(list, app.storeId) then ReplacedNative(list, app) else list + [app]
  }

  function WithoutNative(list: seq<NativeApp>, storeId: string): seq<NativeApp> {
    if list == [] then [] else (if list[0].storeId == storeId then [] else [list[0]]) + WithoutNative(list[1..], storeId)
  }

  function FindNative(list: seq<NativeApp>, storeId: string): Option<NativeApp> {
    if list == [] then None else if list[0].storeId == storeId then Some(list[0]) else FindNative(list[1..], storeId)
  }

  // ----- authentication

  /** The grant of a browser identity, cut to what the current manifest declares. */
  function AuthForIdentity(identity: Identity, app: Option<App>): Auth {
    Auth(
      if app.Some? then identity.capabilities * app.value.declared else identity.capabilities,
      identity.capabilities, identity.keyId, identity.origin,
      if app.Some? && identity.storeId == "" then app.value.storeId else identity.storeId)
  }

  function AuthForNative(app: NativeApp, manifest: Option<Perms>): Auth {
    var declared := if manifest.Some? then manifest.value + (if app.authority then {MANAGE} else {}) else app.declared;
    var effective := app.capabilities * declared;
    Auth(
      if app.authority then effective + {MANAGE} else effective - {MANAGE},
      app.capabilities, NATIVE_PREFIX + app.storeId, app.origin, app.storeId)
  }

  function TrimNative(keyId: string): string {
    if NATIVE_PREFIX <= keyId then keyId[|NATIVE_PREFIX|..] else keyId
  }

  /** The check made on every frame: the stored record still has the set the socket was opened with. */
  predicate HasGrant(s: Store, auth: Auth) {
    if NATIVE_PREFIX <= auth.keyId then
      var app := FindNative(s.native, TrimNative(auth.keyId));
      app.Some? && app.value.origin == auth.origin && app.value.capabilities == auth.stored
    else
      exists i :: 0 <= i < |s.browser| && Matches(s.browser[i], auth)
  }

  predicate Matches(identity: Identity, auth: Auth) {
    && identity.keyId == auth.keyId && identity.origin == auth.origin
    && (identity.storeId == "" || identity.storeId == auth.storeId)
    && identity.capabilities == auth.stored
  }

  // ----- pre-approvals

  function PreApproved(s: Store, storeId: string, capabilities: Perms, expiresInMs: nat, now: nat): Store {
    var ttl := if expiresInMs > 0 then expiresInMs else DEFAULT_TTL;
    s.(preapproved := s.preapproved[storeId := PreApproval(capabilities - {MANAGE}, now + if ttl > MAX_TTL then MAX_TTL else ttl)])
  }

  function Consumed(s: Store, storeId: string): Store {
    s.(preapproved := s.preapproved - {storeId})
  }

  /** The live pre-approval of an app; taking it removes it, and so does finding it expired. */
  function LiveApproval(s: Store, storeId: string, now: nat): Option<PreApproval> {
    if storeId in s.preapproved && s.preapproved[storeId].expiresAt > now then Some(s.preapproved[storeId]) else None
  }

  // ----- pairing

  function Save(s: Store, identity: Identity): Store {
    s.(browser := Upserted(s.browser, identity))
  }

  function SaveIf(changed: bool, s: Store, identity: Identity): Store {
    if changed then Save(s, identity) else s
  }

  /** The authority keeps up with the catalog's manifest. */
  function RaisedAuthority(identity: Identity, catalog: Option<App>): Identity {
    if catalog.None? then identity
    else
      var declared := catalog.value.declared + {MANAGE};
      if declared <= identity.capabilities then identity
      else identity.(capabilities := identity.capabilities + declared, declared := identity.declared + declared)
  }

  function WithClient(identity: Identity, client: string): Identity {
    if client == "" || client == identity.client then identity else identity.(client := client)
  }

  function Approved(identity: Identity, capabilities: Perms, declared: Perms, now: nat): Identity {
    identity.(capabilities := capabilities, declared := declared, approvedAt := now)
  }

  /** The record of a known identity after it connected: an authority keeps up with the catalog;
      a fresh pre-approval replaces an app's grant; otherwise only the reviewed ceiling may rise. */
  function ContinuedRecord(stored: Identity, client: string, app: Option<App>, approval: Option<PreApproval>,
                           catalog: Option<App>, now: nat): Identity {
    var identity := WithClient(stored, client);
    if identity.authority then RaisedAuthority(identity, catalog)
    else if app.None? then identity
    else if approval.Some? then
      Approved(identity, approval.value.capabilities * app.value.declared, app.value.declared, now)
        .(storeId := if identity.storeId == "" then app.value.storeId else identity.storeId)
    else identity.(declared := identity.declared + app.value.declared)
  }

  /** A known identity connects. `app` is the resolved manifest, when the hello names an app that resolves. */
  function ContinuePaired(s: Store, stored: Identity, client: string, app: Option<App>, catalog: Option<App>,
                          now: nat): (Store, Auth) {
    var asApp := if stored.authority then None else app;
    var approval := if asApp.Some? then LiveApproval(s, asApp.value.storeId, now) else None;
    var s1 := if asApp.Some? then Consumed(s, asApp.value.storeId) else s;
    var record := ContinuedRecord(stored, client, asApp, approval, catalog, now);
    (SaveIf(approval.Some? || record != stored, s1, record), AuthForIdentity(record, asApp))
  }

  /** How good a saved grant is for reuse by a new key of the same app: 2 for an approved grant of
      the app, 1 for an old grant without an app id, 0 for none. */
  function Priority(identity: Identity, origins: set<string>, storeId: string): nat {
    if identity.authority || identity.origin !in origins then 0
    else if identity.storeId == storeId && identity.approvedAt > 0 then 2
    else if identity.storeId == "" && identity.capabilities != {} then 1
    else 0
  }

  predicate Better(candidate: Identity, best: Option<Identity>, origins: set<string>, storeId: string) {
    var priority := Priority(candidate, origins, storeId);
    && priority > 0
    && (best.None?
        || priority > Priority(best.value, origins, storeId)
        || (priority == Priority(best.value, origins, storeId) && candidate.approvedAt > best.value.approvedAt))
  }

  /** The best saved grant among the first `n` records. */
  function BestGrant(list: seq<Identity>, n: nat, origins: set<string>, storeId: string): Option<Identity>
    requires n <= |list|
  {
    if n == 0 then None
    else
      var best := BestGrant(list, n - 1, origins, storeId);
      if Better(list[n - 1], best, origins, storeId) then Some(list[n - 1]) else best
  }

  /** The record a new key of an app is paired with, if any: a live pre-approval decides first,
      then the best saved grant, then automatic approval, then the authority's answer. */
  function PairedRecord(named: Identity, app: App, approval: Option<PreApproval>, existing: Option<Identity>,
                        auto: bool, decision: Option<Perms>, now: nat): Option<Identity> {
    if approval.Some? then Some(Approved(named, approval.value.capabilities * app.declared, app.declared, now))
    else if existing.Some? then Some(Approved(named, existing.value.capabilities * app.declared,
      existing.value.declared + app.declared, now))
    else if auto then Some(Approved(named, app.declared, app.declared, now))
    else if decision.Some? then Some(Approved(named, decision.value * app.declared, app.declared, now))
    else None
  }

  /** An unknown key from an app's origin. `origins` are the saved origins that count as its own,
      `decision` what the authority answers if asked (None: declined, expired or gone). */
  function PairApp(s: Store, identity: Identity, resolved: Option<App>, origins: set<string>, auto: bool,
                   decision: Option<Perms>, now: nat): (Store, Option<Auth>) {
    if resolved.None? then (s, None)
    else
      var app := App(resolved.value.storeId, resolved.value.declared - {MANAGE});
      var approval := LiveApproval(s, app.storeId, now);
      var existing := BestGrant(s.browser, |s.browser|, origins, app.storeId);
      var s1 := Consumed(s, app.storeId);
      var paired := PairedRecord(identity.(storeId := app.storeId), app, approval, existing, auto, decision, now);
      if paired.None? then (s1, None) else (Save(s1, paired.value), Some(AuthForIdentity(paired.value, Some(app))))
  }

  /** An unknown key from the authority origin is the authority. */
  function PairAuthority(s: Store, identity: Identity, catalogId: string, declared: Perms, now: nat): (Store, Auth) {
    var all := declared + {MANAGE};
    var authority := Approved(identity, all, all, now).(authority := true, storeId := catalogId);
    (Save(s, authority), AuthForIdentity(authority, None))
  }

  // ----- the authority's decisions on browser grants

  function Ceiling(stored: Perms, manifest: Option<Perms>): Perms {
    if manifest.Some? then stored + manifest.value else stored
  }

  /** The requested set, clamped to the ceiling when there is one, with `permissions.manage` kept for authorities only. */
  function Clamped(requested: Perms, ceiling: Perms, authority: bool): Perms {
    var within := if ceiling != {} then requested * ceiling else requested;
    if authority then within + {MANAGE} else within - {MANAGE}
  }

  function UpdateIdentity(s: Store, identity: Identity, requested: Perms, manifest: Option<Perms>, now: nat): Store {
    var ceiling := Ceiling(identity.declared, manifest);
    var capabilities := Clamped(requested, ceiling, identity.authority);
    Save(s, Approved(identity, capabilities, ceiling + capabilities, if identity.approvedAt == 0 then now else identity.approvedAt))
  }

  // ----- identity sync

  function LocallyApproved(list: seq<Identity>): seq<Identity> {
    if list == [] then [] else (if list[0].approvedAt > 0 then [list[0]] else []) + LocallyApproved(list[1..])
  }

  /** The first record of each key, in order. */
  function FirstOfEach(list: seq<Identity>, n: nat): seq<Identity>
    requires n <= |list|
  {
    if n == 0 then []
    else
      var before := FirstOfEach(list, n - 1);
      if HasKey(before, list[n - 1]) then before else before + [list[n - 1]]
  }

  predicate AllValid(list: seq<Identity>) {
    forall i :: 0 <= i < |list| ==> list[i].valid
  }

  /** Approved local records first, then the fresh ones; duplicates go only if every record is valid. */
  function Merged(existing: seq<Identity>, synced: seq<Identity>): seq<Identity> {
    var merged := LocallyApproved(existing) + synced;
    if AllValid(merged) then FirstOfEach(merged, |merged|) else merged
  }

  // ----- native grants

  /** A record that does not validate is not stored. */
  function SaveNative(s: Store, app: NativeApp): Store {
    if app.valid then s.(native := UpsertedNative(s.native, app)) else s
  }

  function InstalledApp(s: Store, storeId: string, origin: string, name: string, path: string, valid: bool,
                        requested: Perms, manifest: Perms, catalogId: string, now: nat): NativeApp {
    var declared := manifest - {MANAGE};
    var previous := FindNative(s.native, storeId);
    var installedAt := if previous.Some? && previous.value.installedAt != 0 then previous.value.installedAt else now;
    if storeId == catalogId then
      NativeApp(storeId, origin, name, path, valid, installedAt, declared + {MANAGE}, declared + {MANAGE}, now, true)
    else
      NativeApp(storeId, origin, name, path, valid, installedAt, requested * declared, declared, now, false)
  }

  function UpdateNative(s: Store, app: NativeApp, requested: Perms, manifest: Option<Perms>, now: nat): NativeApp {
    var ceiling := Ceiling(app.declared, manifest);
    var capabilities := Clamped(requested, ceiling, app.authority);
    app.(capabilities := capabilities, declared := ceiling + capabilities,
         approvedAt := if app.approvedAt == 0 then now else app.approvedAt)
  }

  /** Revoking keeps the install and forgets the decision. */
  function RevokedApp(app: NativeApp): NativeApp {
    app.(capabilities := if app.authority then {MANAGE} else {}, declared := {}, approvedAt := 0)
  }

  /** What became of a question put to the user in the app's own window. */
  datatype Decision = Gone | Undecided | Decided(granted: Perms)

  /** The record after an app's host connected and whatever was asked has been answered. */
  function AuthorizedApp(app: NativeApp, declared: Perms, decision: Decision, now: nat): NativeApp {
    var pairing := app.approvedAt == 0;
    var ask := if pairing then declared else declared - app.declared;
    if ask != {} then
      if decision.Decided? then
        var granted := decision.granted * ask;
        app.(capabilities := if pairing then granted else app.capabilities + granted,
             declared := app.declared + declared,
             approvedAt := if pairing then now else app.approvedAt)
      else app
    else if pairing then app.(approvedAt := now, declared := declared)
    else app
  }

  /** A native app's host connects: None when its socket went away while being asked. */
  function AuthorizeNative(s: Store, app: NativeApp, manifest: Option<Perms>, decision: Decision, now: nat): (Store,
                           Option<Auth>) {
    if manifest.None? || app.authority then (s, Some(AuthForNative(app, manifest)))
    else
      var declared := manifest.value - {MANAGE};
      var ask := if app.approvedAt == 0 then declared else declared - app.declared;
      if ask != {} && decision.Gone? then (s, None)
      else
        var updated := AuthorizedApp(app, declared, decision, now);
        (if updated != app then SaveNative(s, updated) else s, Some(AuthForNative(updated, manifest)))
  }

  /** The user reviews every declared permission; None when the review was closed without an answer. */
  function ReviewedApp(app: NativeApp, manifest: Option<Perms>, answer: Option<Perms>, now: nat): NativeApp {
    var declared := Ceiling(app.declared, manifest) - {MANAGE};
    if declared == {} || answer.None? then app
    else
      var within := answer.value * declared;
      var granted := if app.authority then within + {MANAGE} else within;
      app.(capabilities := granted, declared := app.declared + declared, approvedAt := if app.approvedAt == 0 then now else app.approvedAt)
  }

  /** The catalog as the platform host's own app: an authority, recorded when anything differs. */
  function EnsureCatalog(s: Store, catalogId: string, manifest: Option<App>, manifestOrigin: string,
                         manifestName: string, legacyOrigin: string, catalogPath: string, valid: bool,
                         now: nat): Store {
    var found := FindNative(s.native, catalogId);
    var origin0 := if manifest.Some? then manifestOrigin else if found.Some? then found.value.origin else "";
    var name0 := if manifest.Some? then manifestName else if found.Some? then found.value.name else "";
    var origin := if origin0 == "" then legacyOrigin else origin0;
    var name := if name0 == "" then "Dyner" else name0;
    if origin == "" then s
    else
      var declared := {MANAGE} + (if manifest.Some? then manifest.value.declared else if found.Some? then found.value.capabilities else {});
      var installedAt := if found.Some? && found.value.installedAt != 0 then found.value.installedAt else now;
      var updated := NativeApp(catalogId, origin, name, catalogPath, valid, installedAt, declared, declared, now, true);
      if found.None? || found.value.origin != origin || found.value.name != name ||
        found.value.capabilities != declared || found.value.path != catalogPath
      then SaveNative(s, updated) else s
  }
}
