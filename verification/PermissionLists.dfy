/** Permission lists as the agent keeps them: the helpers that unite, intersect and
    normalize them, and what they mean as sets (shellagent/browser_identity.go,
    shellagent/catalog/permission_catalog.go, shellagent/agent.go). */
module PermissionLists {
  import opened Texts

  // ----- string order

  /** Byte order, as Go's `sort.Strings` uses it. */
  predicate AtMost(a: string, b: string) {
    if a == [] then true
    else if b == [] then false
    else a[0] < b[0] || (a[0] == b[0] && AtMost(a[1..], b[1..]))
  }

  /** One text comes before another when it begins it, or is smaller where the two first differ. */
  lemma {:induction false} AtMostMeans(a: string, b: string)
    ensures AtMost(a, b) <==> a <= b || exists i :: 0 <= i < |a| && i < |b| && a[..i] == b[..i] && a[i] < b[i]
  {
    if a != [] && b != [] && a[0] == b[0] {
      AtMostMeans(a[1..], b[1..]);
      assert a == [a[0]] + a[1..] && b == [b[0]] + b[1..];
      assert a <= b <==> a[1..] <= b[1..];
      if i :| 0 <= i < |a| && i < |b| && a[..i] == b[..i] && a[i] < b[i] {
        assert a[1..][..i - 1] == a[..i][1..] && b[1..][..i - 1] == b[..i][1..];
        assert a[1..][i - 1] < b[1..][i - 1];
      }
      if i :| 0 <= i < |a[1..]| && i < |b[1..]| && a[1..][..i] == b[1..][..i] && a[1..][i] < b[1..][i] {
        assert a[..i + 1] == [a[0]] + a[1..][..i] && b[..i + 1] == [b[0]] + b[1..][..i];
        assert a[i + 1] < b[i + 1];
      }
    } else if a != [] && b != [] && a[0] < b[0] {
      assert a[..0] == b[..0];
    } else if a != [] && b != [] {
      assert forall i :: 0 < i <= |a| && i <= |b| ==> a[..i][0] != b[..i][0];
    }
  }

  lemma {:induction false} AtMostTotal(a: string, b: string)
    ensures AtMost(a, b) || AtMost(b, a)
  {
    if a != [] && b != [] {
      AtMostTotal(a[1..], b[1..]);
    }
  }

  lemma {:induction false} AtMostAntisymmetric(a: string, b: string)
    requires AtMost(a, b) && AtMost(b, a)
    ensures a == b
  {
    if a != [] {
      AtMostAntisymmetric(a[1..], b[1..]);
      assert a == [a[0]] + a[1..] && b == [b[0]] + b[1..];
    }
  }

  lemma {:induction false} AtMostTransitive(a: string, b: string, c: string)
    requires AtMost(a, b) && AtMost(b, c)
    ensures AtMost(a, c)
  {
    if a != [] && a[0] == b[0] && b[0] == c[0] {
      AtMostTransitive(a[1..], b[1..], c[1..]);
    }
  }

  /** Sorted and without repetition. */
  ghost predicate Canonical(s: seq<string>) {
    forall i, j :: 0 <= i < j < |s| ==> AtMost(s[i], s[j]) && s[i] != s[j]
  }

  function Elements(s: seq<string>): set<string> {
    set x | x in s
  }

  lemma ElementsAppend(s: seq<string>, x: string)
    ensures Elements(s + [x]) == Elements(s) + {x}
  {
  }

  lemma NoElements(s: seq<string>)
    ensures Elements(s) == {} ==> s == []
  {
    if s != [] {
      assert s[0] in Elements(s);
    }
  }

  /** A canonical list is determined by its elements, which is why comparing normalized lists
      compares sets. */
  lemma {:induction false} CanonicalUnique(a: seq<string>, b: seq<string>)
    requires Canonical(a) && Canonical(b) && Elements(a) == Elements(b)
    ensures a == b
  {
    if a == [] {
      NoElements(b);
    } else {
      assert a[0] in Elements(b);
      assert b != [];
      assert b[0] in Elements(a);
      AtMostAntisymmetric(LeastOf(a, b[0]), LeastOf(b, a[0]));
      assert Elements(a[1..]) == Elements(a) - {a[0]} by {
        assert a == [a[0]] + a[1..];
      }
      assert Elements(b[1..]) == Elements(b) - {b[0]} by {
        assert b == [b[0]] + b[1..];
      }
      CanonicalUnique(a[1..], b[1..]);
      assert a == [a[0]] + a[1..] && b == [b[0]] + b[1..];
    }
  }

  /** The first element of a canonical list is at most every other. */
  ghost function LeastOf(s: seq<string>, x: string): (least: string)
    requires Canonical(s) && x in s
    ensures least == s[0] && AtMost(least, x)
  {
    AtMostTotal(s[0], s[0]);
    s[0]
  }

  // ----- sorting

  /** Sort a list without repetitions. */
  method Sort(values: seq<string>) returns (sorted: seq<string>)
    requires forall i, j :: 0 <= i < j < |values| ==> values[i] != values[j]
    ensures Canonical(sorted) && Elements(sorted) == Elements(values)
  {
    sorted := [];
    for i := 0 to |values|
      invariant Canonical(sorted) && Elements(sorted) == Elements(values[..i])
    {
      assert values[..i + 1] == values[..i] + [values[i]];
      assert forall j :: 0 <= j < |sorted| ==> sorted[j] in Elements(sorted);
      sorted := Insert(sorted, values[i]);
    }
    assert values[..|values|] == values;
  }

  method Insert(sorted: seq<string>, value: string) returns (result: seq<string>)
    requires Canonical(sorted) && value !in sorted
    ensures Canonical(result) && Elements(result) == Elements(sorted) + {value}
  {
    var at := 0;
    while at < |sorted| && AtMost(sorted[at], value)
      invariant 0 <= at <= |sorted|
      invariant forall j :: 0 <= j < at ==> AtMost(sorted[j], value)
    {
      at := at + 1;
    }
    forall j | at <= j < |sorted|
      ensures AtMost(value, sorted[j])
    {
      AtMostTotal(sorted[at], value);
      if j > at {
        AtMostTransitive(value, sorted[at], sorted[j]);
      }
    }
    result := sorted[..at] + [value] + sorted[at..];
    assert sorted == sorted[..at] + sorted[at..];
  }

  // ----- the helpers

  /** Each value once, in order of appearance; the empty string can be left out. */
  method Distinct(values: seq<string>, dropEmpty: bool) returns (result: seq<string>)
    ensures forall i, j :: 0 <= i < j < |result| ==> result[i] != result[j]
    ensures Elements(result) == if dropEmpty then Elements(values) - {""} else Elements(values)
  {
    var seen: set<string> := {};
    result := [];
    for i := 0 to |values|
      invariant seen == Elements(result) == if dropEmpty then Elements(values[..i]) - {""} else Elements(values[..i])
      invariant forall i, j :: 0 <= i < j < |result| ==> result[i] != result[j]
    {
      assert values[..i + 1] == values[..i] + [values[i]];
      if !(dropEmpty && values[i] == "") && values[i] !in seen {
        assert forall j :: 0 <= j < |result| ==> result[j] in Elements(result);
        seen := seen + {values[i]};
        result := result + [values[i]];
      }
    }
    assert values[..|values|] == values;
  }

  function Trims(permissions: seq<string>): set<string> {
    set p | p in permissions :: TrimSpace(p)
  }

  lemma TrimsAppend(permissions: seq<string>, p: string)
    ensures Trims(permissions + [p]) == Trims(permissions) + {TrimSpace(p)}
  {
    hide TrimSpace;
    assert p in permissions + [p];
    forall t | t in Trims(permissions) ensures t in Trims(permissions + [p]) {
      var q :| q in permissions && TrimSpace(q) == t;
      assert q in permissions + [p];
    }
  }

  /** Trimmed, without the empty name, each once, sorted. */
  method NormalizePermissionSet(permissions: seq<string>) returns (result: seq<string>)
    ensures Canonical(result)
    ensures Elements(result) == Trims(permissions) - {""}
  {
    hide TrimSpace, Trims;
    var seen: set<string> := {};
    result := [];
    assert Trims([]) == {} by { NoTrims(); }
    for i := 0 to |permissions|
      invariant seen == Elements(result) == Trims(permissions[..i]) - {""}
      invariant forall i, j :: 0 <= i < j < |result| ==> result[i] != result[j]
    {
      assert permissions[..i + 1] == permissions[..i] + [permissions[i]];
      TrimsAppend(permissions[..i], permissions[i]);
      var permission := TrimSpace(permissions[i]);
      if permission != "" && permission !in seen {
        assert forall j :: 0 <= j < |result| ==> result[j] in Elements(result);
        seen := seen + {permission};
        ElementsAppend(result, permission);
        result := result + [permission];
      }
    }
    assert permissions[..|permissions|] == permissions;
    result := Sort(result);
  }

  lemma NoTrims()
    ensures Trims([]) == {}
  {
  }

  method UnionStrings(left: seq<string>, right: seq<string>) returns (result: seq<string>)
    ensures Canonical(result) && Elements(result) == Elements(left) + Elements(right) - {""}
  {
    var distinct := Distinct(left + right, true);
    result := Sort(distinct);
  }

  /** Every text of the left list as often as it is there if the right list has it, and no other. */
  ghost predicate Counted(result: seq<string>, left: seq<string>, right: seq<string>) {
    forall x :: multiset(result)[x] == if x in right then multiset(left)[x] else 0
  }

  lemma NothingCounted(right: seq<string>)
    ensures Counted([], [], right)
  {
  }

  lemma CountedNext(result: seq<string>, left: seq<string>, right: seq<string>, x: string)
    requires Counted(result, left, right)
    ensures Counted(if x in right then result + [x] else result, left + [x], right)
  {
  }

  /** Intersection keeps the left list's order and repetitions. */
  method IntersectStrings(left: seq<string>, right: seq<string>) returns (result: seq<string>)
    ensures Elements(result) == Elements(left) * Elements(right)
    ensures Counted(result, left, right)
    ensures Canonical(left) ==> Canonical(result)
  {
    hide Counted;
    var allowed := Elements(right);
    result := [];
    assert Counted([], [], right) by { NothingCounted(right); }
    for i := 0 to |left|
      invariant Elements(result) == Elements(left[..i]) * Elements(right)
      invariant forall x :: x in result ==> x in left[..i]
      invariant Counted(result, left[..i], right)
      invariant Canonical(left) ==> Canonical(result)
    {
      assert left[..i + 1] == left[..i] + [left[i]];
      ElementsAppend(left[..i], left[i]);
      CountedNext(result, left[..i], right, left[i]);
      if left[i] in allowed {
        assert Canonical(left) ==> forall x :: x in left[..i] ==> AtMost(x, left[i]) && x != left[i];
        ElementsAppend(result, left[i]);
        result := result + [left[i]];
      }
    }
    assert left[..|left|] == left;
  }

  /** The comparison used on every frame: equal exactly when the two lists have the same members. */
  method SameCapabilitySet(left: seq<string>, right: seq<string>) returns (same: bool)
    ensures same <==> Elements(left) == Elements(right)
  {
    var l := Distinct(left, false);
    l := Sort(l);
    var r := Distinct(right, false);
    r := Sort(r);
    if Elements(l) == Elements(r) {
      CanonicalUnique(l, r);
    }
    same := l == r;
  }
}
