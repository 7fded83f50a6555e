/** Where an ordinary app's permissions come from: over any run, each one was already held for
    the same app or was given to it by an explicit decision (shellagent/browser_identity.go,
    shellagent/permissions.go, shellagent/native_apps.go, shellagent/native_host.go). */
module GrantOrigins {
  import opened Options
  import opened Grants
  import opened GrantLists
  import opened GrantRuns
  import IdentitySync

  predicate BrowserHolds(list: seq<Identity>, id: string, p: string) {
    exists r :: r in list && !r.authority && r.storeId == id && p in r.capabilities
  }

  predicate NativeHolds(list: seq<NativeApp>, id: string, p: string) {
    exists a :: a in list && !a.authority && a.storeId == id && p in a.capabilities
  }

  /** The permission `p` is granted or pre-approved for app `id`, the authorities' own grants apart. */
  predicate Holds(s: Store, id: string, p: string) {
    || BrowserHolds(s.browser, id, p)
    || NativeHolds(s.native, id, p)
    || (id in s.preapproved && p in s.preapproved[id].capabilities)
  }

  /** The operation carries a decision that gives `p` to app `id`. */
  predicate Gives(op: Op, id: string, p: string) {
    match op
    case PairWithApp(_, resolved, _, auto, reply, _) =>
      resolved.Some? && resolved.value.storeId == id && ((auto && p in resolved.value.declared) || (reply.Some? && p in reply.value))
    case PreApprove(storeId, capabilities, _, _) => storeId == id && p in capabilities
    case Update(keyId, _, storeId, requested, _, _) =>
      id == (if NATIVE_PREFIX <= keyId then NativeTarget(keyId, storeId) else storeId) && p in requested
    case Sync(synced) => BrowserHolds(synced, id, p)
    case Install(storeId, _, _, _, _, requested, _, _, _) => storeId == id && p in requested
    case ConnectNative(storeId, _, decision, _) => storeId == id && decision.Decided? && p in decision.granted
    case Review(storeId, _, answer, _) => storeId == id && answer.Some? && p in answer.value
    case _ => false
  }

  /** An old grant without an app id can become the grant of any app. */
  ghost predicate Explained(s: Store, op: Op, id: string, p: string) {
    Holds(s, id, p) || Holds(s, "", p) || Gives(op, id, p)
  }

  lemma SavedHolds(list: seq<Identity>, identity: Identity, id: string, p: string)
    requires UniqueKeys(list) && BrowserHolds(Upserted(list, identity), id, p)
    ensures BrowserHolds(list, id, p) || (!identity.authority && identity.storeId == id && p in identity.capabilities)
  {
    UpsertedLaws(list, identity);
  }

  lemma SavedNativeHolds(list: seq<NativeApp>, app: NativeApp, id: string, p: string)
    requires UniqueStores(list) && NativeHolds(UpsertedNative(list, app), id, p)
    ensures NativeHolds(list, id, p) || (!app.authority && app.storeId == id && p in app.capabilities)
  {
    UpsertedNativeLaws(list, app);
  }

  lemma ReconnectSource(sys: System, op: Op, id: string, p: string)
    requires Inv(sys) && Enabled(sys, op) && op.Reconnect? && Holds(Apply(sys, op).store, id, p)
    ensures Explained(sys.store, op, id, p)
  {
    var s := sys.store;
    var stored := s.browser[op.index];
    assert stored in s.browser;
    var app := if stored.authority then None else op.app;
    var approval := if app.Some? then LiveApproval(s, app.value.storeId, op.now) else None;
    var record := ContinuedRecord(stored, op.client, app, approval, op.catalog, op.now);
    assert !record.authority && approval.None? ==> record.capabilities == stored.capabilities && record.storeId == stored.storeId;
    hide UniqueKeys, Upserted, RecordsInv, NativesInv, UniqueStores, ContinuedRecord;
    if BrowserHolds(Upserted(s.browser, record), id, p) {
      SavedHolds(s.browser, record, id, p);
    }
  }

  lemma PairSource(sys: System, op: Op, id: string, p: string)
    requires Inv(sys) && Enabled(sys, op) && op.PairWithApp? && Holds(Apply(sys, op).store, id, p)
    ensures Explained(sys.store, op, id, p)
  {
    var s := sys.store;
    if op.resolved.Some? {
      var app := App(op.resolved.value.storeId, op.resolved.value.declared - {MANAGE});
      var approval := LiveApproval(s, app.storeId, op.now);
      var existing := BestGrant(s.browser, |s.browser|, op.origins, app.storeId);
      BestGrantIsSaved(s.browser, |s.browser|, op.origins, app.storeId);
      var paired := PairedRecord(op.identity.(storeId := app.storeId), app, approval, existing, op.auto, op.reply, op.now);
      if paired.Some? && p in paired.value.capabilities {
        assert existing.Some? && p in existing.value.capabilities ==> BrowserHolds(s.browser, existing.value.storeId, p);
      }
      hide UniqueKeys, Upserted, RecordsInv, NativesInv, UniqueStores, BestGrant;
      if paired.Some? && BrowserHolds(Upserted(s.browser, paired.value), id, p) {
        SavedHolds(s.browser, paired.value, id, p);
      }
    }
  }

  lemma AuthoritySource(sys: System, op: Op, id: string, p: string)
    requires Inv(sys) && Enabled(sys, op) && (op.Update? || op.Revoke? || op.PairAsAuthority?) && Holds(Apply(sys, op).store, id, p)
    ensures Explained(sys.store, op, id, p)
  {
    var s := sys.store;
    hide UniqueKeys, Upserted, UpsertedNative, RecordsInv, NativesInv, UniqueStores, Find, FindNative, Without;
    forall identity | BrowserHolds(Upserted(s.browser, identity), id, p)
      ensures BrowserHolds(s.browser, id, p) || (!identity.authority && identity.storeId == id && p in identity.capabilities)
    {
      SavedHolds(s.browser, identity, id, p);
    }
    forall app | NativeHolds(UpsertedNative(s.native, app), id, p)
      ensures NativeHolds(s.native, id, p) || (!app.authority && app.storeId == id && p in app.capabilities)
    {
      SavedNativeHolds(s.native, app, id, p);
    }
    if !op.PairAsAuthority? {
      FindLaws(s.browser, op.keyId, op.origin, op.storeId);
      FindNativeLaws(s.native, NativeTarget(op.keyId, op.storeId));
      WithoutLaws(s.browser, op.keyId, op.origin, op.storeId);
    }
  }

  lemma NativeSource(sys: System, op: Op, id: string, p: string)
    requires Inv(sys) && Enabled(sys, op) && Holds(Apply(sys, op).store, id, p)
    requires op.Install? || op.Uninstall? || op.ConnectNative? || op.Review? || op.RecordCatalog?
    ensures Explained(sys.store, op, id, p)
  {
    var s := sys.store;
    hide UniqueKeys, UpsertedNative, RecordsInv, NativesInv, UniqueStores, FindNative, WithoutNative;
    forall app | NativeHolds(UpsertedNative(s.native, app), id, p)
      ensures NativeHolds(s.native, id, p) || (!app.authority && app.storeId == id && p in app.capabilities)
    {
      SavedNativeHolds(s.native, app, id, p);
    }
    var target := if op.RecordCatalog? then op.catalogId else op.storeId;
    FindNativeLaws(s.native, target);
    WithoutNativeLaws(s.native, target);
  }

  lemma SyncSource(sys: System, op: Op, id: string, p: string)
    requires Inv(sys) && Enabled(sys, op) && op.Sync? && Holds(Apply(sys, op).store, id, p)
    ensures Explained(sys.store, op, id, p)
  {
    IdentitySync.SyncLaws(sys.store.browser, op.synced);
  }

  lemma StepSource(sys: System, op: Op, id: string, p: string)
    requires Inv(sys) && Enabled(sys, op) && Holds(Apply(sys, op).store, id, p)
    ensures Explained(sys.store, op, id, p)
  {
    hide Inv, Enabled, Holds, Gives, Explained;
    if op.Reconnect? {
      ReconnectSource(sys, op, id, p);
    } else if op.PairWithApp? {
      PairSource(sys, op, id, p);
    } else if op.Update? || op.Revoke? || op.PairAsAuthority? {
      AuthoritySource(sys, op, id, p);
    } else if op.Sync? {
      SyncSource(sys, op, id, p);
    } else if op.PreApprove? || op.Disconnect? {
      OtherSource(sys, op, id, p);
    } else {
      NativeSource(sys, op, id, p);
    }
  }

  lemma OtherSource(sys: System, op: Op, id: string, p: string)
    requires Enabled(sys, op) && (op.PreApprove? || op.Disconnect?) && Holds(Apply(sys, op).store, id, p)
    ensures Explained(sys.store, op, id, p)
  {
  }

  ghost predicate GivenIn(ops: seq<Op>, id: string, p: string) {
    exists op :: op in ops && Gives(op, id, p)
  }

  lemma GivenLater(ops: seq<Op>, id: string, p: string)
    requires ops != []
    ensures GivenIn(ops[1..], id, p) || Gives(ops[0], id, p) ==> GivenIn(ops, id, p)
  {
  }

  /** No permission without a decision, over every run: what an ordinary app holds at the end it
      held at the start, or an operation of the run gave it to that app; an old grant without an
      app id counts for every app. */
  lemma {:induction false} PermissionsAreDecided(sys: System, ops: seq<Op>, sys': System, id: string, p: string)
    requires Inv(sys) && Runs(sys, ops, sys') && Holds(sys'.store, id, p)
    ensures Holds(sys.store, id, p) || Holds(sys.store, "", p) || GivenIn(ops, id, p) || GivenIn(ops, "", p)
    decreases |ops|
  {
    hide Inv, Enabled, Apply, Holds, Gives, GivenIn;
    if ops != [] {
      var next := Apply(sys, ops[0]);
      StepKeepsInv(sys, ops[0]);
      PermissionsAreDecided(next, ops[1..], sys', id, p);
      if Holds(next.store, id, p) {
        StepSource(sys, ops[0], id, p);
      }
      if Holds(next.store, "", p) {
        StepSource(sys, ops[0], "", p);
      }
      GivenLater(ops, id, p);
      GivenLater(ops, "", p);
    }
  }
}
