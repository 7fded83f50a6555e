/** Merging the identities Dyner sends with the locally approved ones
    (shellagent/browser_identity.go). */
module IdentitySync {
  import opened Grants
  import opened GrantLists

  lemma {:induction false} LocallyApprovedLaws(list: seq<Identity>)
    ensures forall r :: r in LocallyApproved(list) <==> r in list && r.approvedAt > 0
    ensures UniqueKeys(list) ==> UniqueKeys(LocallyApproved(list))
  {
    if list != [] {
      LocallyApprovedLaws(list[1..]);
      assert list == [list[0]] + list[1..];
      HeadIsAlone(list);
    }
  }

  lemma KeyStays(before: seq<Identity>, r: Identity, key: Identity)
    ensures HasKey(before, key) ==> HasKey(before + [r], key)
    ensures SameKey(r, key) ==> HasKey(before + [r], key)
  {
    if HasKey(before, key) {
      var j :| 0 <= j < |before| && SameKey(before[j], key);
      assert (before + [r])[j] == before[j];
    }
    assert (before + [r])[|before|] == r;
  }

  lemma {:induction false} FirstOfEachLaws(list: seq<Identity>, n: nat)
    requires n <= |list|
    ensures UniqueKeys(FirstOfEach(list, n))
    ensures forall r :: r in FirstOfEach(list, n) ==> r in list[..n]
    ensures forall i :: 0 <= i < n ==> HasKey(FirstOfEach(list, n), list[i])
  {
    if n > 0 {
      FirstOfEachLaws(list, n - 1);
      var before := FirstOfEach(list, n - 1);
      assert list[..n] == list[..n - 1] + [list[n - 1]];
      forall i | 0 <= i < n
        ensures HasKey(FirstOfEach(list, n), list[i])
      {
        KeyStays(before, list[n - 1], list[i]);
      }
    }
  }

  /** No earlier record has its key. */
  predicate FirstAt(list: seq<Identity>, i: nat)
    requires i < |list|
  {
    forall j :: 0 <= j < i ==> !SameKey(list[j], list[i])
  }

  lemma KeyAlready(list: seq<Identity>, n: nat)
    requires n < |list|
    ensures HasKey(FirstOfEach(list, n), list[n]) <==> !FirstAt(list, n)
  {
    hide FirstOfEach;
    FirstOfEachLaws(list, n);
    var before := FirstOfEach(list, n);
    if HasKey(before, list[n]) {
      var k :| 0 <= k < |before| && SameKey(before[k], list[n]);
      assert before[k] in list[..n];
    }
    if !FirstAt(list, n) {
      var j :| 0 <= j < n && SameKey(list[j], list[n]);
      assert HasKey(before, list[j]);
    }
  }

  /** Normalizing keeps exactly the records that are the first of their key. */
  lemma {:induction false} FirstOfEachKeepsFirst(list: seq<Identity>, n: nat)
    requires n <= |list|
    ensures forall r :: r in FirstOfEach(list, n) <==> exists i :: 0 <= i < n && FirstAt(list, i) && list[i] == r
  {
    hide FirstAt, HasKey;
    if n > 0 {
      KeyAlready(list, n - 1);
      FirstOfEachKeepsFirst(list, n - 1);
    }
  }

  /** A list without duplicates at its front keeps that front, and only later records follow it. */
  lemma {:induction false} FrontStays(front: seq<Identity>, back: seq<Identity>, n: nat)
    requires UniqueKeys(front) && n <= |front + back|
    ensures var f := FirstOfEach(front + back, n);
      if n <= |front| then f == front[..n]
      else |f| >= |front| && f[..|front|] == front && forall r :: r in f[|front|..] ==> r in back
  {
    if n > 0 {
      FrontStays(front, back, n - 1);
      var before, r := FirstOfEach(front + back, n - 1), (front + back)[n - 1];
      if n <= |front| {
        assert !HasKey(before, r);
        assert front[..n] == front[..n - 1] + [front[n - 1]];
      } else {
        assert r == back[n - 1 - |front|];
        if n - 1 == |front| {
          assert before == front && front[..|front|] == front;
        }
      }
    }
  }

  lemma {:induction false} ApprovedSplit(a: seq<Identity>, b: seq<Identity>)
    requires forall r :: r in a ==> r.approvedAt > 0
    requires forall r :: r in b ==> r.approvedAt == 0
    ensures LocallyApproved(a + b) == a
  {
    if a != [] {
      assert (a + b)[1..] == a[1..] + b;
      ApprovedSplit(a[1..], b);
      assert a == [a[0]] + a[1..];
    } else if b != [] {
      assert (a + b)[1..] == a + b[1..];
      ApprovedSplit(a, b[1..]);
    }
  }

  lemma SyncValid(existing: seq<Identity>, synced: seq<Identity>)
    requires UniqueKeys(existing) && AllValid(existing) && AllValid(synced)
    ensures AllValid(LocallyApproved(existing) + synced)
  {
    var local := LocallyApproved(existing);
    LocallyApprovedLaws(existing);
    forall i | 0 <= i < |local + synced|
      ensures (local + synced)[i].valid
    {
      if i < |local| {
        assert local[i] in existing;
      }
    }
  }

  /** Syncing the same fresh list again changes nothing, when it carries no approval times. */
  lemma SyncIdempotent(existing: seq<Identity>, synced: seq<Identity>)
    requires UniqueKeys(existing) && AllValid(existing) && AllValid(synced)
    requires forall i :: 0 <= i < |synced| ==> synced[i].approvedAt == 0
    ensures Merged(Merged(existing, synced), synced) == Merged(existing, synced)
  {
    hide HasKey, SameKey, FirstAt, RecordInv;
    var local := LocallyApproved(existing);
    var all := local + synced;
    LocallyApprovedLaws(existing);
    SyncValid(existing, synced);
    FrontStays(local, synced, |all|);
    var merged := Merged(existing, synced);
    if |all| == |local| {
      assert merged == local + [];
      ApprovedSplit(local, []);
    } else {
      assert merged == local + merged[|local|..];
      ApprovedSplit(local, merged[|local|..]);
    }
  }

  lemma UniqueMember(list: seq<Identity>, a: Identity, b: Identity)
    requires UniqueKeys(list) && a in list && b in list && SameKey(a, b)
    ensures a == b
  {
  }

  lemma FreshKeysThere(local: seq<Identity>, synced: seq<Identity>)
    ensures forall i :: 0 <= i < |synced| ==> HasKey(FirstOfEach(local + synced, |local + synced|), synced[i])
  {
    hide HasKey, FirstOfEach, SameKey, UniqueKeys;
    var all := local + synced;
    FirstOfEachLaws(all, |all|);
    forall i | 0 <= i < |synced|
      ensures HasKey(FirstOfEach(all, |all|), synced[i])
    {
      assert all[|local| + i] == synced[i];
    }
  }

  lemma MergedForm(existing: seq<Identity>, synced: seq<Identity>)
    requires UniqueKeys(existing) && AllValid(existing) && AllValid(synced)
    ensures LocallyApproved(existing) <= Merged(existing, synced)
    ensures UniqueKeys(Merged(existing, synced))
    ensures forall r :: r in Merged(existing, synced) ==> r in LocallyApproved(existing) + synced
    ensures forall i :: 0 <= i < |synced| ==> HasKey(Merged(existing, synced), synced[i])
  {
    var local := LocallyApproved(existing);
    var all := local + synced;
    LocallyApprovedLaws(existing);
    SyncValid(existing, synced);
    hide HasKey, FirstOfEach, SameKey, LocallyApproved, AllValid, UniqueKeys, RecordInv;
    FirstOfEachLaws(all, |all|);
    FrontStays(local, synced, |all|);
    assert all[..|all|] == all;
    if synced == [] {
      assert local[..|all|] == local;
    }
    FreshKeysThere(local, synced);
  }

  /** With valid records, a sync keeps every locally approved grant as it is, lets it win over a
      fresh record of the same key, drops what was neither approved nor sent again, takes in a
      fresh record of every other key, and leaves keys unique. */
  lemma SyncLaws(existing: seq<Identity>, synced: seq<Identity>)
    requires UniqueKeys(existing) && AllValid(existing) && AllValid(synced)
    ensures UniqueKeys(Merged(existing, synced))
    ensures forall r :: r in existing && r.approvedAt > 0 ==> r in Merged(existing, synced)
    ensures forall r :: r in Merged(existing, synced) ==> (r in existing && r.approvedAt > 0) || r in synced
    ensures forall r, l :: r in Merged(existing, synced) && l in existing && l.approvedAt > 0 && SameKey(r, l) ==> r == l
    ensures forall i :: 0 <= i < |synced| ==> HasKey(Merged(existing, synced), synced[i])
  {
    hide HasKey, Merged, LocallyApproved, AllValid, UniqueKeys, SameKey;
    MergedForm(existing, synced);
    LocallyApprovedLaws(existing);
    var local, merged := LocallyApproved(existing), Merged(existing, synced);
    forall r | r in local
      ensures r in merged
    {
      var i :| 0 <= i < |local| && local[i] == r;
      assert merged[i] == r;
    }
    forall r, l | r in merged && l in existing && l.approvedAt > 0 && SameKey(r, l)
      ensures r == l
    {
      UniqueMember(merged, r, l);
    }
  }

  /** Without validity a sync does not remove duplicates: keys come out unique exactly when every
      record is valid or the two lists had no key in common to begin with. */
  lemma SyncUniqueExactly(existing: seq<Identity>, synced: seq<Identity>)
    ensures UniqueKeys(Merged(existing, synced)) <==>
      AllValid(LocallyApproved(existing) + synced) || UniqueKeys(LocallyApproved(existing) + synced)
  {
    var all := LocallyApproved(existing) + synced;
    FirstOfEachLaws(all, |all|);
  }

  /** Two records with one key, the approved one invalid, are both kept. */
  lemma SyncCanKeepDuplicates() returns (existing: seq<Identity>, synced: seq<Identity>)
    ensures |existing| == |synced| == 1 && UniqueKeys(existing) && UniqueKeys(synced)
    ensures !UniqueKeys(Merged(existing, synced))
  {
    var record := Identity("k", "o", "s", false, "", {}, {}, 1, false);
    existing, synced := [record], [record.(valid := true, approvedAt := 0)];
    assert LocallyApproved(existing) == existing;
    assert SameKey(existing[0], synced[0]);
    SyncUniqueExactly(existing, synced);
    var all := existing + synced;
    assert !all[0].valid && SameKey(all[0], all[1]);
  }
}
