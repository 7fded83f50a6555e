/** How a browser key comes to its grant: what a reconnect changes, which decision pairs an unknown
    key and what it then holds, and what its socket may do (shellagent/browser_identity.go,
    shellagent/permissions.go). */
module GrantPairing {
  import opened Options
  import opened Grants
  import opened GrantLists
  import opened GrantRuns
  import opened GrantEffects

  // ----- pre-approvals

  /** The pre-approval of an app is there and has not expired. */
  ghost predicate Live(b: System, storeId: string, now: nat) {
    storeId in b.store.preapproved && b.store.preapproved[storeId].expiresAt > now
  }

  /** A pre-approval lasts as long as asked, ten minutes if that is zero, an hour at most. */
  ghost predicate Preapproves(b: System, storeId: string, capabilities: Perms, expiresInMs: nat, now: nat, a: System) {
    && a.store.browser == b.store.browser && a.store.native == b.store.native && a.sockets == b.sockets
    && (forall k :: k in a.store.preapproved <==> k in b.store.preapproved || k == storeId)
    && (forall k :: k in b.store.preapproved && k != storeId ==> a.store.preapproved[k] == b.store.preapproved[k])
    && (forall p :: p in a.store.preapproved[storeId].capabilities <==> p in capabilities && p != "permissions.manage")
    && a.store.preapproved[storeId].expiresAt ==
      now + if expiresInMs == 0 then 600000 else if expiresInMs <= 3600000 then expiresInMs else 3600000
  }

  lemma PreapproveEffect(sys: System, op: Op)
    requires op.PreApprove?
    ensures Preapproves(sys, op.storeId, op.capabilities, op.expiresInMs, op.now, Apply(sys, op))
  {
  }

  // ----- the sockets of a browser grant

  /** The socket of a browser grant: its record's set as stored, and of it what the app it presents
      declares, or all of it without one. An old record's socket is bound to the app it presents. */
  ghost predicate BrowserSocket(u: Identity, app: Option<App>, auth: Auth) {
    && auth.keyId == u.keyId && auth.origin == u.origin
    && auth.storeId == (if u.storeId == "" && app.Some? then app.value.storeId else u.storeId)
    && auth.stored == u.capabilities
    && forall p :: p in auth.capabilities <==> p in u.capabilities && (app.None? || p in app.value.declared)
  }

  // ----- a known key

  /** The record of an authority after it connected: it holds and declares what the catalog's
      manifest does as soon as one of those permissions is missing. */
  ghost predicate AuthorityContinues(r: Identity, catalog: Option<App>, u: Identity) {
    var raised := catalog.Some? && exists p :: (p in catalog.value.declared || p == "permissions.manage") && p !in r.capabilities;
    && u.storeId == r.storeId && u.approvedAt == r.approvedAt
    && (forall p :: p in u.capabilities <==>
      p in r.capabilities || (raised && (p in catalog.value.declared || p == "permissions.manage")))
    && (forall p :: p in u.declared <==> p in r.declared || (raised && (p in catalog.value.declared || p == "permissions.manage")))
  }

  /** The record of an ordinary key after it connected as an app: a live pre-approval replaces the
      grant by what it and the manifest have in common; without one only the ceiling rises. */
  ghost predicate AppContinues(b: System, r: Identity, app: App, now: nat, u: Identity) {
    if Live(b, app.storeId, now) then
      && u.storeId == (if r.storeId == "" then app.storeId else r.storeId) && u.approvedAt == now && u.declared == app.declared
      && forall p :: p in u.capabilities <==> p in b.store.preapproved[app.storeId].capabilities && p in app.declared
    else
      && u.storeId == r.storeId && u.approvedAt == r.approvedAt && u.capabilities == r.capabilities
      && forall p :: p in u.declared <==> p in r.declared || p in app.declared
  }

  /** A known key connects; only a connection as an app takes that app's pre-approval. */
  ghost predicate Continues(b: System, index: nat, client: string, app: Option<App>, catalog: Option<App>, now: nat, a: System)
    requires index < |b.store.browser|
  {
    var r := b.store.browser[index];
    var presented := if r.authority then None else app;
    && a.store.native == b.store.native
    && (exists u: Identity, auth ::
      && u == r.(client := if client == "" then r.client else client,
        storeId := u.storeId, capabilities := u.capabilities, declared := u.declared, approvedAt := u.approvedAt)
      && (if r.authority then AuthorityContinues(r, catalog, u)
          else if app.Some? then AppContinues(b, r, app.value, now, u)
          else u == r.(client := u.client))
      && (if u == r && !(presented.Some? && Live(b, presented.value.storeId, now)) then a.store.browser == b.store.browser
          else SavedIn(b.store.browser, a.store.browser, u))
      && BrowserSocket(u, presented, auth) && a.sockets == b.sockets + {auth})
    && (forall k :: k in a.store.preapproved <==> k in b.store.preapproved && !(presented.Some? && presented.value.storeId == k))
    && (forall k :: k in a.store.preapproved ==> a.store.preapproved[k] == b.store.preapproved[k])
  }

  lemma SocketOfIdentity(u: Identity, app: Option<App>)
    ensures BrowserSocket(u, app, AuthForIdentity(u, app))
  {
  }

  lemma ContinuedMeans(b: System, r: Identity, client: string, app: Option<App>, catalog: Option<App>, now: nat)
    ensures var presented := if r.authority then None else app;
      var approval := if presented.Some? then LiveApproval(b.store, presented.value.storeId, now) else None;
      var u := ContinuedRecord(r, client, presented, approval, catalog, now);
      && u == r.(client := if client == "" then r.client else client,
        storeId := u.storeId, capabilities := u.capabilities, declared := u.declared, approvedAt := u.approvedAt)
      && if r.authority then AuthorityContinues(r, catalog, u)
      else if app.Some? then AppContinues(b, r, app.value, now, u)
      else u == r.(client := u.client)
  {
    if r.authority && catalog.Some? {
      var declared := catalog.value.declared + {MANAGE};
      if !(declared <= r.capabilities) {
        var p :| p in declared && p !in r.capabilities;
      }
    }
  }

  lemma ContinueEffect(sys: System, op: Op)
    requires Enabled(sys, op) && op.Reconnect?
    ensures Continues(sys, op.index, op.client, op.app, op.catalog, op.now, Apply(sys, op))
  {
    hide SavedIn, Upserted, ContinuedRecord, AuthorityContinues, AppContinues, AuthForIdentity, BrowserSocket;
    var r := sys.store.browser[op.index];
    var presented := if r.authority then None else op.app;
    var approval := if presented.Some? then LiveApproval(sys.store, presented.value.storeId, op.now) else None;
    var u := ContinuedRecord(r, op.client, presented, approval, op.catalog, op.now);
    ContinuedMeans(sys, r, op.client, op.app, op.catalog, op.now);
    UpsertSaves(sys.store.browser, u);
    SocketOfIdentity(u, presented);
  }

  // ----- an unknown key of an app

  /** Record `i` is an approved grant of the app. */
  ghost predicate OfApp(list: seq<Identity>, i: nat, origins: set<string>, storeId: string) {
    i < |list| && !list[i].authority && list[i].origin in origins && list[i].storeId == storeId && list[i].approvedAt > 0
  }

  /** Record `i` is an old grant of the origin, without an app id. */
  ghost predicate OfOrigin(list: seq<Identity>, i: nat, origins: set<string>) {
    i < |list| && !list[i].authority && list[i].origin in origins && list[i].storeId == "" && list[i].capabilities != {}
  }

  /** Record `i` is the one a new key of the app takes over: the app's own most recently approved one,
      the first of those, or the same among the old ones of the origin if the app has none. */
  ghost predicate Reused(list: seq<Identity>, i: nat, origins: set<string>, storeId: string) {
    if exists j: nat :: OfApp(list, j, origins, storeId) then
      && OfApp(list, i, origins, storeId)
      && (forall j: nat :: OfApp(list, j, origins, storeId) ==> list[j].approvedAt <= list[i].approvedAt)
      && (forall j: nat :: OfApp(list, j, origins, storeId) && list[j].approvedAt == list[i].approvedAt ==> i <= j)
    else
      && OfOrigin(list, i, origins)
      && (forall j: nat :: OfOrigin(list, j, origins) ==> list[j].approvedAt <= list[i].approvedAt)
      && (forall j: nat :: OfOrigin(list, j, origins) && list[j].approvedAt == list[i].approvedAt ==> i <= j)
  }

  ghost predicate Reusable(list: seq<Identity>, origins: set<string>, storeId: string) {
    exists i: nat :: OfApp(list, i, origins, storeId) || OfOrigin(list, i, origins)
  }

  /** Among the first `n` records none has a higher priority than `i`, or the same and a later
      approval, or both the same and comes before it. */
  ghost predicate BestAmong(list: seq<Identity>, n: nat, i: nat, origins: set<string>, storeId: string)
    requires n <= |list|
  {
    && i < n && Priority(list[i], origins, storeId) > 0
    && forall j :: 0 <= j < n && Priority(list[j], origins, storeId) >= Priority(list[i], origins, storeId) ==>
      && Priority(list[j], origins, storeId) == Priority(list[i], origins, storeId)
      && (list[j].approvedAt < list[i].approvedAt || (list[j].approvedAt == list[i].approvedAt && i <= j))
  }

  lemma {:induction false} BestGrantIsBest(list: seq<Identity>, n: nat, origins: set<string>, storeId: string)
    requires n <= |list|
    ensures var best := BestGrant(list, n, origins, storeId);
      if best.Some? then exists i: nat :: BestAmong(list, n, i, origins, storeId) && best.value == list[i]
      else forall j :: 0 <= j < n ==> Priority(list[j], origins, storeId) == 0
  {
    hide Priority;
    if n > 0 {
      BestGrantIsBest(list, n - 1, origins, storeId);
      var before := BestGrant(list, n - 1, origins, storeId);
      if Better(list[n - 1], before, origins, storeId) {
        assert BestAmong(list, n, n - 1, origins, storeId);
      } else if before.Some? {
        var i: nat :| BestAmong(list, n - 1, i, origins, storeId) && before.value == list[i];
        assert BestAmong(list, n, i, origins, storeId);
      }
    }
  }

  lemma PriorityMeans(list: seq<Identity>, i: nat, origins: set<string>, storeId: string)
    requires i < |list|
    ensures Priority(list[i], origins, storeId) ==
      if OfApp(list, i, origins, storeId) then 2 else if OfOrigin(list, i, origins) then 1 else 0
  {
  }

  /** A saved grant is found whenever there is one to reuse, and it is the right one. */
  lemma BestGrantMeans(list: seq<Identity>, origins: set<string>, storeId: string)
    ensures var best := BestGrant(list, |list|, origins, storeId);
      && (best.Some? <==> Reusable(list, origins, storeId))
      && (best.Some? ==> exists i: nat :: Reused(list, i, origins, storeId) && best.value == list[i])
  {
    hide Priority, BestGrant, OfApp, OfOrigin;
    BestGrantIsBest(list, |list|, origins, storeId);
    forall j: nat | j < |list|
      ensures Priority(list[j], origins, storeId) ==
        if OfApp(list, j, origins, storeId) then 2 else if OfOrigin(list, j, origins) then 1 else 0
    {
      PriorityMeans(list, j, origins, storeId);
    }
    OnlyListed(list, origins, storeId);
    var best := BestGrant(list, |list|, origins, storeId);
    if best.Some? {
      var i: nat :| BestAmong(list, |list|, i, origins, storeId) && best.value == list[i];
      assert OfApp(list, i, origins, storeId) || OfOrigin(list, i, origins);
      assert Reused(list, i, origins, storeId);
    }
  }

  lemma OnlyListed(list: seq<Identity>, origins: set<string>, storeId: string)
    ensures forall j: nat :: OfApp(list, j, origins, storeId) ==> j < |list|
    ensures forall j: nat :: OfOrigin(list, j, origins) ==> j < |list|
  {
  }

  /** What an unknown key is given: by a live pre-approval, else by the grant of its app or origin
      that can be reused, else everything if pairing is automatic, else by the authority's answer. */
  ghost predicate Chooses(b: System, storeId: string, origins: set<string>, auto: bool, reply: Option<Perms>, now: nat,
                          declared: Perms, chosen: Perms, kept: Perms) {
    if Live(b, storeId, now) then chosen == b.store.preapproved[storeId].capabilities && kept == {}
    else if Reusable(b.store.browser, origins, storeId) then
      exists i: nat :: Reused(b.store.browser, i, origins, storeId)
        && chosen == b.store.browser[i].capabilities && kept == b.store.browser[i].declared
    else kept == {} && if auto then chosen == declared else reply.Some? && chosen == reply.value
  }

  /** An unknown key pairs as an app: it holds what was chosen for it and is declared, never
      `permissions.manage`; if nothing decides it is turned away. */
  ghost predicate Pairs(b: System, identity: Identity, resolved: Option<App>, origins: set<string>, auto: bool,
                        reply: Option<Perms>, now: nat, a: System) {
    if resolved.None? then a == b
    else
      var storeId := resolved.value.storeId;
      && a.store.native == b.store.native
      && (forall k :: k in a.store.preapproved <==> k in b.store.preapproved && k != storeId)
      && (forall k :: k in a.store.preapproved ==> a.store.preapproved[k] == b.store.preapproved[k])
      && if !Live(b, storeId, now) && !Reusable(b.store.browser, origins, storeId) && !auto && reply.None? then
        a.store.browser == b.store.browser && a.sockets == b.sockets
      else exists u, auth, chosen, kept ::
        && Chooses(b, storeId, origins, auto, reply, now, resolved.value.declared, chosen, kept)
        && PairedAs(identity, storeId, resolved.value.declared, chosen, kept, now, u)
        && SavedIn(b.store.browser, a.store.browser, u)
        && BrowserSocket(u, Some(App(storeId, resolved.value.declared)), auth) && a.sockets == b.sockets + {auth}
  }

  ghost predicate PairedAs(identity: Identity, storeId: string, declared: Perms, chosen: Perms, kept: Perms, now: nat, u: Identity) {
    && u == identity.(storeId := storeId, capabilities := u.capabilities, declared := u.declared, approvedAt := now)
    && (forall p :: p in u.capabilities <==> p in chosen && p in declared && p != "permissions.manage")
    && (forall p :: p in u.declared <==> p in kept || (p in declared && p != "permissions.manage"))
  }

  lemma PairEffect(sys: System, op: Op)
    requires Enabled(sys, op) && op.PairWithApp?
    ensures Pairs(sys, op.identity, op.resolved, op.origins, op.auto, op.reply, op.now, Apply(sys, op))
  {
    hide SavedIn, Upserted, BestGrant, Reused, Reusable, AuthForIdentity, BrowserSocket, PairedAs;
    if op.resolved.Some? {
      var (storeId, declared) := (op.resolved.value.storeId, op.resolved.value.declared);
      var app := App(storeId, declared - {MANAGE});
      BestGrantMeans(sys.store.browser, op.origins, storeId);
      var existing := BestGrant(sys.store.browser, |sys.store.browser|, op.origins, storeId);
      var approval := LiveApproval(sys.store, storeId, op.now);
      var paired := PairedRecord(op.identity.(storeId := storeId), app, approval, existing, op.auto, op.reply, op.now);
      if paired.Some? {
        var chosen := if approval.Some? then approval.value.capabilities else if existing.Some? then existing.value.capabilities
          else if op.auto then declared else op.reply.value;
        var kept := if approval.None? && existing.Some? then existing.value.declared else {};
        assert Chooses(sys, storeId, op.origins, op.auto, op.reply, op.now, declared, chosen, kept);
        PairedMeans(op.identity, app, approval, existing, op.auto, op.reply, op.now, declared);
        UpsertSaves(sys.store.browser, paired.value);
        PairedSocket(paired.value, storeId, declared, AuthForIdentity(paired.value, Some(app)));
      }
    }
  }

  lemma PairedMeans(identity: Identity, app: App, approval: Option<PreApproval>, existing: Option<Identity>, auto: bool,
                    reply: Option<Perms>, now: nat, declared: Perms)
    requires app.declared == declared - {MANAGE}
    requires approval.Some? || existing.Some? || auto || reply.Some?
    ensures var paired := PairedRecord(identity.(storeId := app.storeId), app, approval, existing, auto, reply, now);
      var chosen := if approval.Some? then approval.value.capabilities else if existing.Some? then existing.value.capabilities
        else if auto then declared else reply.value;
      var kept := if approval.None? && existing.Some? then existing.value.declared else {};
      paired.Some? && PairedAs(identity, app.storeId, declared, chosen, kept, now, paired.value)
  {
  }

  lemma PairedSocket(u: Identity, storeId: string, declared: Perms, auth: Auth)
    requires auth == AuthForIdentity(u, Some(App(storeId, declared - {MANAGE}))) && MANAGE !in u.capabilities
    ensures BrowserSocket(u, Some(App(storeId, declared)), auth)
  {
  }

  // ----- the authority's key

  /** An unknown key of the authority's origin becomes the authority: it holds and declares what the
      catalog's manifest does and `permissions.manage`. */
  ghost predicate PairsAuthority(b: System, identity: Identity, catalogId: string, declared: Perms, now: nat, a: System) {
    && a.store.native == b.store.native && a.store.preapproved == b.store.preapproved
    && exists u: Identity ::
      && u == identity.(authority := true, storeId := catalogId,
        capabilities := u.capabilities, declared := u.capabilities, approvedAt := now)
      && (forall p :: p in u.capabilities <==> p in declared || p == "permissions.manage")
      && SavedIn(b.store.browser, a.store.browser, u)
      && a.sockets == b.sockets + {Auth(u.capabilities, u.capabilities, u.keyId, u.origin, catalogId)}
  }

  lemma PairAuthorityEffect(sys: System, op: Op)
    requires Enabled(sys, op) && op.PairAsAuthority?
    ensures PairsAuthority(sys, op.identity, op.catalogId, op.declared, op.now, Apply(sys, op))
  {
    hide SavedIn, Upserted;
    var all := op.declared + {MANAGE};
    UpsertSaves(sys.store.browser, Approved(op.identity, all, all, op.now).(authority := true, storeId := op.catalogId));
  }
}
