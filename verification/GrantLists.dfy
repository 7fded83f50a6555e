/** Lists of grant records: the invariant of one record, unique keys, and what the list
    operations keep. */
module GrantLists {
  import opened Grants

  predicate RecordInv(i: Identity) {
    && i.valid
    && (i.approvedAt > 0 ==> i.capabilities <= i.declared)
    && (MANAGE in i.capabilities <==> i.authority)
  }

  predicate NativeInv(a: NativeApp) {
    && a.valid
    && (!a.authority ==> a.capabilities <= a.declared)
    && (MANAGE in a.capabilities <==> a.authority)
    && (!a.authority && a.approvedAt == 0 ==> a.capabilities == {})
  }

  predicate RecordsInv(list: seq<Identity>) {
    forall i :: 0 <= i < |list| ==> RecordInv(list[i])
  }

  predicate NativesInv(list: seq<NativeApp>) {
    forall i :: 0 <= i < |list| ==> NativeInv(list[i])
  }

  predicate UniqueKeys(list: seq<Identity>) {
    forall i, j :: 0 <= i < j < |list| ==> !SameKey(list[i], list[j])
  }

  predicate UniqueStores(list: seq<NativeApp>) {
    forall i, j :: 0 <= i < j < |list| ==> list[i].storeId != list[j].storeId
  }

  lemma {:induction false} ReplacedAt(list: seq<Identity>, identity: Identity)
    ensures forall i :: 0 <= i < |list| ==> Replaced(list, identity)[i] == if SameKey(list[i], identity) then identity else list[i]
  {
    if list != [] {
      ReplacedAt(list[1..], identity);
    }
  }

  /** Saving a record puts it in the list, leaves every other record as it was, and keeps keys unique. */
  lemma UpsertedLaws(list: seq<Identity>, identity: Identity)
    requires UniqueKeys(list)
    ensures UniqueKeys(Upserted(list, identity)) && identity in Upserted(list, identity)
    ensures forall r :: r in Upserted(list, identity) <==> r == identity || (r in list && !SameKey(r, identity))
    ensures RecordsInv(list) && RecordInv(identity) ==> RecordsInv(Upserted(list, identity))
  {
    hide RecordInv, Replaced;
    ReplacedAt(list, identity);
    var r := Upserted(list, identity);
    if HasKey(list, identity) {
      var i :| 0 <= i < |list| && SameKey(list[i], identity);
      assert r[i] == identity;
      forall x | x in list && !SameKey(x, identity)
        ensures x in r
      {
        var j :| 0 <= j < |list| && list[j] == x;
        assert r[j] == x;
      }
    } else {
      assert r[|list|] == identity;
    }
  }

  lemma {:induction false} ReplacedNativeAt(list: seq<NativeApp>, app: NativeApp)
    ensures forall i :: 0 <= i < |list| ==> ReplacedNative(list, app)[i] == if list[i].storeId == app.storeId then app else list[i]
  {
    if list != [] {
      ReplacedNativeAt(list[1..], app);
    }
  }

  lemma UpsertedNativeLaws(list: seq<NativeApp>, app: NativeApp)
    requires UniqueStores(list)
    ensures UniqueStores(UpsertedNative(list, app)) && app in UpsertedNative(list, app)
    ensures forall r :: r in UpsertedNative(list, app) <==> r == app || (r in list && r.storeId != app.storeId)
    ensures NativesInv(list) && NativeInv(app) ==> NativesInv(UpsertedNative(list, app))
  {
    hide NativeInv, ReplacedNative;
    ReplacedNativeAt(list, app);
    var r := UpsertedNative(list, app);
    if HasStore(list, app.storeId) {
      var i :| 0 <= i < |list| && list[i].storeId == app.storeId;
      assert r[i] == app;
      forall x | x in list && x.storeId != app.storeId
        ensures x in r
      {
        var j :| 0 <= j < |list| && list[j] == x;
        assert r[j] == x;
      }
    } else {
      assert r[|list|] == app;
    }
  }

  lemma HeadIsAlone(list: seq<Identity>)
    requires list != []
    ensures UniqueKeys(list) ==> UniqueKeys(list[1..]) && forall r :: r in list[1..] ==> !SameKey(list[0], r)
  {
  }

  lemma {:induction false} WithoutLaws(list: seq<Identity>, keyId: string, origin: string, storeId: string)
    ensures UniqueKeys(list) ==> UniqueKeys(Without(list, keyId, origin, storeId))
    ensures RecordsInv(list) ==> RecordsInv(Without(list, keyId, origin, storeId))
    ensures forall r :: r in Without(list, keyId, origin, storeId) <==> r in list && !Names(r, keyId, origin, storeId)
  {
    hide RecordInv, SameKey;
    if list != [] {
      WithoutLaws(list[1..], keyId, origin, storeId);
      assert list == [list[0]] + list[1..];
      HeadIsAlone(list);
    }
  }

  lemma StoreIsAlone(list: seq<NativeApp>)
    requires list != []
    ensures UniqueStores(list) ==> UniqueStores(list[1..]) && forall r :: r in list[1..] ==> r.storeId != list[0].storeId
  {
  }

  lemma {:induction false} WithoutNativeLaws(list: seq<NativeApp>, storeId: string)
    ensures UniqueStores(list) ==> UniqueStores(WithoutNative(list, storeId))
    ensures NativesInv(list) ==> NativesInv(WithoutNative(list, storeId))
    ensures forall r :: r in WithoutNative(list, storeId) <==> r in list && r.storeId != storeId
  {
    hide NativeInv, UniqueStores;
    WithoutNativeMembers(list, storeId);
    WithoutNativeUnique(list, storeId);
    forall i | 0 <= i < |WithoutNative(list, storeId)| && NativesInv(list) ensures NativeInv(WithoutNative(list, storeId)[i]) {
      var k :| 0 <= k < |list| && list[k] == WithoutNative(list, storeId)[i];
    }
  }

  lemma {:induction false} WithoutNativeMembers(list: seq<NativeApp>, storeId: string)
    ensures forall r :: r in WithoutNative(list, storeId) <==> r in list && r.storeId != storeId
  {
    if list != [] {
      WithoutNativeMembers(list[1..], storeId);
      assert list == [list[0]] + list[1..];
    }
  }

  lemma {:induction false} WithoutNativeUnique(list: seq<NativeApp>, storeId: string)
    ensures UniqueStores(list) ==> UniqueStores(WithoutNative(list, storeId))
  {
    if list != [] && UniqueStores(list) {
      StoreIsAlone(list);
      WithoutNativeUnique(list[1..], storeId);
      WithoutNativeMembers(list[1..], storeId);
      var rest := WithoutNative(list[1..], storeId);
      assert forall i :: 0 <= i < |rest| ==> rest[i] in rest;
    }
  }

  lemma {:induction false} FindLaws(list: seq<Identity>, keyId: string, origin: string, storeId: string)
    ensures var f := Find(list, keyId, origin, storeId);
      if f.Some? then f.value in list && Names(f.value, keyId, origin, storeId) && (RecordsInv(list) ==> RecordInv(f.value))
      else forall r :: r in list ==> !Names(r, keyId, origin, storeId)
  {
    if list != [] {
      FindLaws(list[1..], keyId, origin, storeId);
      assert list == [list[0]] + list[1..];
    }
  }

  lemma {:induction false} FindNativeLaws(list: seq<NativeApp>, storeId: string)
    ensures var f := FindNative(list, storeId);
      if f.Some? then f.value in list && f.value.storeId == storeId && (NativesInv(list) ==> NativeInv(f.value))
      else forall r :: r in list ==> r.storeId != storeId
  {
    if list != [] {
      FindNativeLaws(list[1..], storeId);
      assert list == [list[0]] + list[1..];
    }
  }
}
