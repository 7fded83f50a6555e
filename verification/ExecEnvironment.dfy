/** The environment of a started process (shellagent/proc/process.go): a list of NAME=value entries
    edited in place through an index from names to slots; removing swaps the last entry in. */
module ExecEnvironment {
  import opened Options
  import opened Texts

  const MAX_VARS := 64
  const MAX_BYTES := 16 * 1024

  /** A requested value: null removes the name, anything that is not a text is refused. */
  datatype Value = Null | Text(text: string) | Other

  datatype Result = Inherit | Ok(entries: seq<string>) | Invalid

  /** The part of an entry before its first '='. */
  function Name(entry: string): (name: string)
    ensures '=' !in name
  {
    if entry == "" || entry[0] == '=' then "" else [entry[0]] + Name(entry[1..])
  }

  lemma {:induction false} NameOfEntry(name: string, value: string)
    requires '=' !in name
    ensures Name(name + "=" + value) == name
  {
    if name != "" {
      assert (name + "=" + value)[1..] == name[1..] + "=" + value;
      NameOfEntry(name[1..], value);
    }
  }

  predicate Letter(c: char) {
    'A' <= c <= 'Z' || 'a' <= c <= 'z' || c == '_'
  }

  predicate Identifier(name: string) {
    name != "" && Letter(name[0]) && forall i :: 0 <= i < |name| ==> Letter(name[i]) || '0' <= name[i] <= '9'
  }

  predicate Acceptable(name: string, value: Value) {
    Identifier(name) && (value.Null? || (value.Text? && ByteLength(value.text) <= MAX_BYTES))
  }

  predicate AcceptableAll(extra: map<string, Value>) {
    |extra| <= MAX_VARS && forall n :: n in extra ==> Acceptable(n, extra[n])
  }

  // ----- the list and its index, as values

  datatype Env = Env(entries: seq<string>, index: map<string, nat>)

  /** The slot of the last entry of each name; entries without '=' are not indexed. */
  function IndexOf(entries: seq<string>): map<string, nat> {
    if entries == [] then map[]
    else
      var (front, last) := (entries[..|entries| - 1], entries[|entries| - 1]);
      if '=' in last then IndexOf(front)[Name(last) := |front|] else IndexOf(front)
  }

  /** Every indexed slot holds an entry of that name. */
  ghost predicate Consistent(e: Env) {
    forall n :: n in e.index ==> e.index[n] < |e.entries| && Name(e.entries[e.index[n]]) == n
  }

  function Put(e: Env, name: string, value: string): Env
    requires Consistent(e)
  {
    var entry := name + "=" + value;
    if name in e.index then e.(entries := e.entries[e.index[name] := entry])
    else Env(e.entries + [entry], e.index[name := |e.entries|])
  }

  function Drop(e: Env, name: string): Env
    requires Consistent(e)
  {
    if name !in e.index then e
    else
      var (slot, last) := (e.index[name], |e.entries| - 1);
      var moved := e.entries[last];
      var index := e.index - {name};
      Env(e.entries[slot := moved][..last], if slot < last then index[Name(moved) := slot] else index)
  }

  function Step(e: Env, name: string, value: Value): Env
    requires Consistent(e)
  {
    if value.Text? then Put(e, name, value.text) else Drop(e, name)
  }

  lemma {:induction false} IndexConsistent(entries: seq<string>)
    ensures Consistent(Env(entries, IndexOf(entries)))
  {
    if entries != [] {
      IndexConsistent(entries[..|entries| - 1]);
    }
  }

  lemma StepConsistent(e: Env, name: string, value: Value)
    requires Consistent(e) && '=' !in name
    ensures Consistent(Step(e, name, value))
  {
    hide Name;
    if value.Text? {
      NameOfEntry(name, value.text);
    }
  }

  // ----- what the edits must come to

  /** How often a text occurs in the right result: an entry of a name that was not asked about as
      often as before, and the asked-for entry once. */
  ghost function Wanted(base: seq<string>, extra: map<string, Value>, entry: string): nat {
    var n := Name(entry);
    if n !in extra then multiset(base)[entry]
    else if extra[n].Text? && entry == n + "=" + extra[n].text then 1
    else 0
  }

  /** The list is the base overridden by `extra` with the null names removed, as a multiset. */
  ghost predicate Overridden(entries: seq<string>, base: seq<string>, extra: map<string, Value>) {
    forall entry :: multiset(entries)[entry] == Wanted(base, extra, entry)
  }

  /** The only entry of that name, if any, is the indexed one. */
  ghost predicate Sole(e: Env, name: string) {
    forall i :: 0 <= i < |e.entries| && Name(e.entries[i]) == name ==> name in e.index && e.index[name] == i
  }

  /** What `Sole` asks of a base list: no name twice, and no bare name. */
  lemma SoleMeans(base: seq<string>, name: string)
    ensures Sole(Env(base, IndexOf(base)), name) <==>
            (forall i :: 0 <= i < |base| && Name(base[i]) == name ==> '=' in base[i]) &&
            (forall i, j :: 0 <= i < j < |base| && Name(base[i]) == name ==> Name(base[j]) != name)
  {
    hide Name;
    IndexMeans(base, name);
    IndexConsistent(base);
  }

  lemma {:induction false} IndexMeans(base: seq<string>, name: string)
    ensures name in IndexOf(base) <==> exists i :: 0 <= i < |base| && Name(base[i]) == name && '=' in base[i]
    ensures name in IndexOf(base) ==> IndexOf(base)[name] < |base| && '=' in base[IndexOf(base)[name]]
  {
    hide Name;
    if base != [] {
      var front := base[..|base| - 1];
      IndexMeans(front, name);
      assert forall i :: 0 <= i < |front| ==> front[i] == base[i];
    }
  }

  // ----- one edit, counted

  function Once(b: bool): nat {
    if b then 1 else 0
  }

  lemma SwapDrop(s: seq<string>, slot: nat)
    requires slot < |s|
    ensures multiset(s[slot := s[|s| - 1]][..|s| - 1]) == multiset(s) - multiset{s[slot]}
  {
    var last := |s| - 1;
    var t := s[slot := s[last]];
    assert t == t[..last] + [s[last]];
    var kept := multiset(t[..last]);
    assert multiset(t) == kept + multiset{s[last]};
    assert kept + multiset{s[last]} == multiset(s) - multiset{s[slot]} + multiset{s[last]};
    assert kept == kept + multiset{s[last]} - multiset{s[last]};
  }

  lemma CountAt(s: seq<string>, slot: nat, x: string)
    requires slot < |s| && forall i :: 0 <= i < |s| && s[i] == x ==> i == slot
    ensures multiset(s)[x] == Once(s[slot] == x)
  {
    assert s == s[..slot] + [s[slot]] + s[slot + 1..];
    assert x !in s[..slot] && x !in s[slot + 1..];
  }

  lemma PutCounts(e: Env, name: string, value: string, x: string)
    requires Consistent(e)
    ensures multiset(Put(e, name, value).entries)[x] ==
            multiset(e.entries)[x] + Once(x == name + "=" + value) - Once(name in e.index && x == e.entries[e.index[name]])
  {
    hide Name;
  }

  lemma DropCounts(e: Env, name: string, x: string)
    requires Consistent(e)
    ensures multiset(Drop(e, name).entries)[x] ==
            multiset(e.entries)[x] - Once(name in e.index && x == e.entries[e.index[name]])
  {
    hide Name;
    if name in e.index {
      var slot := e.index[name];
      SwapDrop(e.entries, slot);
      assert multiset(Drop(e, name).entries) == multiset(e.entries) - multiset{e.entries[slot]};
      assert e.entries[slot] in multiset(e.entries);
    }
  }

  /** One edit takes out the indexed entry and puts in the requested one. */
  lemma StepCounts(e: Env, name: string, value: Value, x: string)
    requires Consistent(e)
    ensures multiset(Step(e, name, value).entries)[x] == multiset(e.entries)[x] +
            Once(value.Text? && x == name + "=" + value.text) - Once(name in e.index && x == e.entries[e.index[name]])
  {
    hide Put, Drop, Name;
    if value.Text? {
      PutCounts(e, name, value.text, x);
    } else {
      DropCounts(e, name, x);
    }
  }

  /** Edits leave the entries of other names alone. */
  lemma StepOthers(e: Env, name: string, value: Value, x: string)
    requires Consistent(e) && '=' !in name && Name(x) != name
    ensures multiset(Step(e, name, value).entries)[x] == multiset(e.entries)[x]
  {
    hide Name, Step;
    StepCounts(e, name, value, x);
    if value.Text? {
      NameOfEntry(name, value.text);
    }
  }

  /** An edit of a name with a single indexed entry does what was asked. */
  lemma StepSole(e: Env, name: string, value: Value, x: string)
    requires Consistent(e) && '=' !in name && Name(x) == name && Sole(e, name)
    ensures multiset(Step(e, name, value).entries)[x] == Once(value.Text? && x == name + "=" + value.text)
  {
    hide Name, Step;
    StepCounts(e, name, value, x);
    if name in e.index {
      CountAt(e.entries, e.index[name], x);
    } else {
      assert x !in e.entries;
    }
  }

  lemma StepKeepsSole(e: Env, name: string, value: Value, other: string)
    requires Consistent(e) && '=' !in name && other != name && Sole(e, other)
    ensures Sole(Step(e, name, value), other)
  {
    hide Name;
    if value.Text? {
      NameOfEntry(name, value.text);
    }
  }

  /** An entry that is not the indexed one of its name outlives an edit of that name. */
  lemma StepMisses(e: Env, name: string, value: Value, i: nat)
    requires Consistent(e) && '=' !in name && i < |e.entries| && Name(e.entries[i]) == name
    requires !(name in e.index && e.index[name] == i)
    ensures
      var x := e.entries[i];
      multiset(Step(e, name, value).entries)[x] >= 1 + Once(value.Text? && x == name + "=" + value.text)
  {
    hide Name, Step;
    var x := e.entries[i];
    StepCounts(e, name, value, x);
    assert x in multiset(e.entries);
    if name in e.index {
      TwoOf(e.entries, i, e.index[name]);
    }
  }

  lemma TwoOf(s: seq<string>, i: nat, j: nat)
    requires i < |s| && j < |s| && i != j
    ensures multiset(s)[s[i]] >= 1 + Once(s[i] == s[j])
  {
    var (low, high) := if i < j then (i, j) else (j, i);
    assert s == s[..low] + [s[low]] + s[low + 1..high] + [s[high]] + s[high + 1..];
  }

  // ----- all edits, in any order

  /** The names of `extra`, each once, in the order the map happened to be iterated. */
  ghost predicate IsOrder(order: seq<string>, extra: map<string, Value>) {
    (forall n :: n in order <==> n in extra) && Distinct(order)
  }

  ghost predicate Distinct(order: seq<string>) {
    forall i, j :: 0 <= i < j < |order| ==> order[i] != order[j]
  }

  ghost predicate Names(order: seq<string>, extra: map<string, Value>) {
    forall n :: n in order ==> n in extra && '=' !in n
  }

  ghost function Run(e: Env, order: seq<string>, extra: map<string, Value>): (r: Env)
    requires Consistent(e) && Names(order, extra)
    ensures Consistent(r)
    decreases |order|
  {
    if order == [] then e
    else
      StepConsistent(e, order[0], extra[order[0]]);
      Run(Step(e, order[0], extra[order[0]]), order[1..], extra)
  }

  /** What each edit asked for, of the names in `order`, starting from `from`. */
  ghost function WantedAfter(from: seq<string>, order: seq<string>, extra: map<string, Value>, x: string): nat
    requires Names(order, extra)
  {
    var n := Name(x);
    if n !in order then multiset(from)[x] else Once(extra[n].Text? && x == n + "=" + extra[n].text)
  }

  lemma {:induction false} RunWanted(e: Env, order: seq<string>, extra: map<string, Value>, x: string)
    requires Consistent(e) && Names(order, extra) && Distinct(order)
    requires Name(x) in order ==> Sole(e, Name(x))
    ensures multiset(Run(e, order, extra).entries)[x] == WantedAfter(e.entries, order, extra, x)
    decreases |order|
  {
    hide Name, Step, Sole;
    if order != [] {
      var (first, rest) := (order[0], order[1..]);
      var next := Step(e, first, extra[first]);
      StepConsistent(e, first, extra[first]);
      if Name(x) == first {
        StepSole(e, first, extra[first], x);
      } else {
        StepOthers(e, first, extra[first], x);
        if Name(x) in order {
          StepKeepsSole(e, first, extra[first], Name(x));
        }
      }
      RunWanted(next, rest, extra, x);
    }
  }

  lemma {:induction false} RunKeepsOthers(e: Env, order: seq<string>, extra: map<string, Value>, x: string)
    requires Consistent(e) && Names(order, extra) && Name(x) !in order
    ensures multiset(Run(e, order, extra).entries)[x] == multiset(e.entries)[x]
    decreases |order|
  {
    hide Name, Step;
    if order != [] {
      StepConsistent(e, order[0], extra[order[0]]);
      StepOthers(e, order[0], extra[order[0]], x);
      RunKeepsOthers(Step(e, order[0], extra[order[0]]), order[1..], extra, x);
    }
  }

  function Start(base: seq<string>): Env {
    Env(base, IndexOf(base))
  }

  ghost predicate SoleNames(base: seq<string>, extra: map<string, Value>) {
    forall n :: n in extra ==> Sole(Start(base), n)
  }

  lemma OrderNames(order: seq<string>, extra: map<string, Value>)
    requires AcceptableAll(extra) && forall n :: n in order ==> n in extra
    ensures Names(order, extra)
  {
    assert forall n :: n in extra ==> Identifier(n) && '=' !in n;
  }

  /** Whatever the order, the base is overridden as asked, provided no requested name comes twice
      or bare in the base. */
  lemma EnvironmentOverridden(base: seq<string>, order: seq<string>, extra: map<string, Value>)
    requires AcceptableAll(extra) && IsOrder(order, extra) && SoleNames(base, extra)
    requires Consistent(Start(base)) && Names(order, extra)
    ensures Overridden(Run(Start(base), order, extra).entries, base, extra)
  {
    hide Name, Run, Sole, Start, Consistent;
    forall x ensures multiset(Run(Start(base), order, extra).entries)[x] == Wanted(base, extra, x) {
      RunWanted(Start(base), order, extra, x);
      assert Start(base).entries == base by { StartEntries(base); }
    }
  }

  lemma StartEntries(base: seq<string>)
    ensures Start(base).entries == base
  {
  }

  /** And without that proviso there is an order in which an old entry of a requested name stays. */
  lemma SomeOrderFails(base: seq<string>, extra: map<string, Value>, name: string) returns (order: seq<string>)
    requires AcceptableAll(extra) && Consistent(Start(base)) && name in extra && !Sole(Start(base), name)
    ensures IsOrder(order, extra) && Names(order, extra)
    ensures !Overridden(Run(Start(base), order, extra).entries, base, extra)
  {
    hide Name, Step, AcceptableAll, Consistent;
    var rest := Enumerate(extra.Keys - {name});
    order := [name] + rest;
    OrderNames(order, extra);
    OrderNames(rest, extra);
    var e := Start(base);
    var i :| 0 <= i < |base| && Name(base[i]) == name && !(name in e.index && e.index[name] == i);
    StepConsistent(e, name, extra[name]);
    StepMisses(e, name, extra[name], i);
    assert order[0] == name && order[1..] == rest;
    RunKeepsOthers(Step(e, name, extra[name]), rest, extra, base[i]);
    assert multiset(Run(e, order, extra).entries)[base[i]] > Wanted(base, extra, base[i]);
  }

  lemma {:induction false} Enumerate(names: set<string>) returns (order: seq<string>)
    ensures Distinct(order) && forall n :: n in order <==> n in names
    decreases names
  {
    if names == {} {
      order := [];
    } else {
      var n :| n in names;
      var rest := Enumerate(names - {n});
      order := [n] + rest;
    }
  }

  /** The list and index that an iteration order produces. */
  ghost function Final(base: seq<string>, order: seq<string>, extra: map<string, Value>): (e: Env)
    requires AcceptableAll(extra) && IsOrder(order, extra)
    ensures Consistent(e)
  {
    IndexConsistent(base);
    OrderNames(order, extra);
    Run(Start(base), order, extra)
  }

  ghost function Produced(base: seq<string>, order: seq<string>, extra: map<string, Value>): seq<string>
    requires AcceptableAll(extra) && IsOrder(order, extra)
  {
    Final(base, order, extra).entries
  }

  ghost predicate AlwaysOverridden(base: seq<string>, extra: map<string, Value>)
    requires AcceptableAll(extra)
  {
    forall order :: IsOrder(order, extra) ==> Overridden(Produced(base, order, extra), base, extra)
  }

  /** The swap-delete edits amount to overriding the base, whatever order the map is iterated in,
      exactly when no requested name comes twice or bare in the base. */
  lemma OverriddenExactly(base: seq<string>, extra: map<string, Value>)
    requires AcceptableAll(extra)
    ensures AlwaysOverridden(base, extra) <==> SoleNames(base, extra)
  {
    hide Name, Run, Sole, AcceptableAll, Consistent, Overridden, Start;
    IndexConsistent(base);
    assert Start(base) == Env(base, IndexOf(base)) by { StartIs(base); }
    if SoleNames(base, extra) {
      forall order | IsOrder(order, extra) ensures Overridden(Produced(base, order, extra), base, extra) {
        OrderNames(order, extra);
        EnvironmentOverridden(base, order, extra);
      }
    } else {
      var name :| name in extra && !Sole(Start(base), name);
      var order := SomeOrderFails(base, extra, name);
      assert !Overridden(Produced(base, order, extra), base, extra);
    }
  }

  lemma StartIs(base: seq<string>)
    ensures Start(base) == Env(base, IndexOf(base))
  {
  }

  /** A name that is unique in the base stays unique, and the index finds it: it names exactly the
      slot of the one entry, and nothing when there is none. */
  lemma UniqueNamesStay(base: seq<string>, order: seq<string>, extra: map<string, Value>, name: string)
    requires AcceptableAll(extra) && IsOrder(order, extra) && Sole(Start(base), name)
    ensures
      var e := Final(base, order, extra);
      Sole(e, name) &&
      (forall i, j :: 0 <= i < j < |e.entries| && Name(e.entries[i]) == name ==> Name(e.entries[j]) != name) &&
      (name in e.index <==> exists i :: 0 <= i < |e.entries| && Name(e.entries[i]) == name)
  {
    IndexConsistent(base);
    OrderNames(order, extra);
    RunKeepsSole(Start(base), order, extra, name);
  }

  lemma StepKeepsSoleToo(e: Env, name: string, value: Value)
    requires Consistent(e) && '=' !in name && Sole(e, name)
    ensures Sole(Step(e, name, value), name)
  {
    hide Name;
    if value.Text? {
      NameOfEntry(name, value.text);
    }
  }

  lemma {:induction false} RunKeepsSole(e: Env, order: seq<string>, extra: map<string, Value>, name: string)
    requires Consistent(e) && Names(order, extra) && Sole(e, name)
    ensures Sole(Run(e, order, extra), name)
    decreases |order|
  {
    hide Name, Step, Sole, Consistent;
    if order != [] {
      var first := order[0];
      StepConsistent(e, first, extra[first]);
      if first == name {
        StepKeepsSoleToo(e, name, extra[first]);
      } else {
        StepKeepsSole(e, first, extra[first], name);
      }
      RunKeepsSole(Step(e, first, extra[first]), order[1..], extra, name);
    }
  }

  // ----- what a started process sees

  /** The last NAME=value entry of a name: repeated names resolve to it when a process starts. */
  ghost function Seen(entries: seq<string>, name: string): Option<string> {
    if entries == [] then None
    else
      var last := entries[|entries| - 1];
      if '=' in last && Name(last) == name then Some(last) else Seen(entries[..|entries| - 1], name)
  }

  /** What should be seen of a name: what was asked for, or else what the base shows. */
  ghost function Asked(base: seq<string>, extra: map<string, Value>, name: string): Option<string> {
    if name !in extra then Seen(base, name)
    else if extra[name].Text? then Some(name + "=" + extra[name].text)
    else None
  }

  lemma {:induction false} SeenMeans(entries: seq<string>, name: string)
    ensures Seen(entries, name).Some? ==> Seen(entries, name).value in entries
    ensures Seen(entries, name).Some? ==> '=' in Seen(entries, name).value && Name(Seen(entries, name).value) == name
    ensures Seen(entries, name).None? ==> forall x :: x in entries && Name(x) == name ==> '=' !in x
  {
    hide Name;
    if entries != [] {
      SeenMeans(entries[..|entries| - 1], name);
      assert entries == entries[..|entries| - 1] + [entries[|entries| - 1]];
    }
  }

  /** Names that come once each are seen as asked, in every iteration order. */
  lemma SeenWhenUnique(base: seq<string>, order: seq<string>, extra: map<string, Value>, name: string)
    requires AcceptableAll(extra) && IsOrder(order, extra) && SoleNames(base, extra) && Sole(Start(base), name)
    ensures Seen(Produced(base, order, extra), name) == Asked(base, extra, name)
  {
    hide Name, Run, Sole, AcceptableAll, Consistent, Start, Overridden, SoleNames;
    IndexConsistent(base);
    OrderNames(order, extra);
    assert Start(base) == Env(base, IndexOf(base)) by { StartIs(base); }
    EnvironmentOverridden(base, order, extra);
    UniqueNamesStay(base, order, extra, name);
    SoleIsUnique(base, name);
    SameSeen(base, Produced(base, order, extra), extra, name);
  }

  lemma SoleIsUnique(base: seq<string>, name: string)
    requires Sole(Start(base), name)
    ensures forall i, j :: 0 <= i < j < |base| && Name(base[i]) == name ==> Name(base[j]) != name
  {
    hide Name;
  }

  lemma SameSeen(base: seq<string>, entries: seq<string>, extra: map<string, Value>, name: string)
    requires Overridden(entries, base, extra) && (name in extra ==> '=' !in name)
    requires forall i, j :: 0 <= i < j < |base| && Name(base[i]) == name ==> Name(base[j]) != name
    requires forall i, j :: 0 <= i < j < |entries| && Name(entries[i]) == name ==> Name(entries[j]) != name
    ensures Seen(entries, name) == Asked(base, extra, name)
  {
    hide Name, Overridden, Seen;
    SeenMeans(entries, name);
    SeenMeans(base, name);
    forall x | Name(x) == name ensures x in entries <==> Wanted(base, extra, x) > 0 {
      WantedIsThere(entries, base, extra, x);
    }
    if name in extra && extra[name].Text? {
      var asked := name + "=" + extra[name].text;
      NameOfEntry(name, extra[name].text);
      assert asked[|name|] == '=' && asked in entries;
    } else if name !in extra {
      assert forall x :: Name(x) == name ==> (x in entries <==> x in base);
    }
  }

  lemma WantedIsThere(entries: seq<string>, base: seq<string>, extra: map<string, Value>, x: string)
    requires Overridden(entries, base, extra)
    ensures x in entries <==> Wanted(base, extra, x) > 0
  {
    hide Name, Wanted;
    assert multiset(entries)[x] == Wanted(base, extra, x);
  }

  predicate Shows(entry: string, name: string) {
    '=' in entry && Name(entry) == name
  }

  /** The last NAME=value entry of a name is in slot `i`. */
  ghost predicate LastAt(entries: seq<string>, i: nat, name: string) {
    i < |entries| && Shows(entries[i], name) && forall j :: i < j < |entries| ==> !Shows(entries[j], name)
  }

  /** The index holds the last NAME=value entry of every name. */
  ghost predicate Latest(e: Env) {
    (forall n :: n in e.index ==> LastAt(e.entries, e.index[n], n)) &&
    (forall j :: 0 <= j < |e.entries| && '=' in e.entries[j] ==> Name(e.entries[j]) in e.index)
  }

  lemma {:induction false} IndexLatest(base: seq<string>)
    ensures Latest(Env(base, IndexOf(base)))
  {
    hide Name, Latest;
    if base == [] {
      NoEntries();
    } else {
      var front, last := base[..|base| - 1], base[|base| - 1];
      IndexLatest(front);
      assert base == front + [last];
      LatestNext(front, IndexOf(front), last);
    }
  }

  lemma NoEntries()
    ensures Latest(Env([], map[]))
  {
  }

  lemma LastAtAppend(front: seq<string>, last: string, i: nat, name: string)
    ensures LastAt(front, i, name) && !Shows(last, name) ==> LastAt(front + [last], i, name)
    ensures Shows(last, name) ==> LastAt(front + [last], |front|, name)
  {
    hide Shows;
  }

  lemma LatestNext(front: seq<string>, index: map<string, nat>, last: string)
    requires Latest(Env(front, index))
    ensures Latest(Env(front + [last], if '=' in last then index[Name(last) := |front|] else index))
  {
    hide Name, LastAt;
    var (entries, next) := (front + [last], if '=' in last then index[Name(last) := |front|] else index);
    forall n | n in next ensures LastAt(entries, next[n], n) {
      LastAtAppend(front, last, next[n], n);
    }
    forall j | 0 <= j < |entries| && '=' in entries[j] ensures Name(entries[j]) in next {
      assert j < |front| ==> entries[j] == front[j];
    }
  }

  lemma {:induction false} SeenAt(entries: seq<string>, name: string, i: nat)
    requires LastAt(entries, i, name)
    ensures Seen(entries, name) == Some(entries[i])
  {
    hide Name;
    if i < |entries| - 1 {
      assert !Shows(entries[|entries| - 1], name);
      SeenAt(entries[..|entries| - 1], name, i);
    }
  }

  lemma SeenOfLatest(e: Env, name: string)
    requires Latest(e)
    ensures Seen(e.entries, name) == if name in e.index then Some(e.entries[e.index[name]]) else None
  {
    hide Name;
    if name in e.index {
      SeenAt(e.entries, name, e.index[name]);
    } else {
      SeenMeans(e.entries, name);
    }
  }

  /** Setting a name shows its new value and leaves what is seen of the others. */
  lemma PutSeen(e: Env, name: string, value: string, other: string)
    requires Latest(e) && Consistent(e) && '=' !in name
    ensures Latest(Put(e, name, value))
    ensures Seen(Put(e, name, value).entries, other) == if other == name then Some(name + "=" + value) else Seen(e.entries, other)
  {
    hide Seen, Latest;
    PutLatest(e, name, value);
    SeenOfLatest(e, other);
    SeenOfLatest(Put(e, name, value), other);
  }

  lemma PutLatest(e: Env, name: string, value: string)
    requires Latest(e) && Consistent(e) && '=' !in name
    ensures Latest(Put(e, name, value))
  {
    var entry := name + "=" + value;
    NameOfEntry(name, value);
    assert entry[|name|] == '=';
    hide Name;
    if name !in e.index {
      LatestNext(e.entries, e.index, entry);
    }
  }

  lemma {:induction false} RunSeen(e: Env, order: seq<string>, extra: map<string, Value>, name: string)
    requires Latest(e) && Consistent(e) && Names(order, extra) && Distinct(order)
    requires forall n :: n in order ==> extra[n].Text?
    ensures Seen(Run(e, order, extra).entries, name) == if name in order then Some(name + "=" + extra[name].text) else Seen(e.entries, name)
    decreases |order|
  {
    hide Name, Seen, Latest, Put, Consistent;
    if order != [] {
      var (first, rest) := (order[0], order[1..]);
      StepConsistent(e, first, extra[first]);
      PutSeen(e, first, extra[first].text, name);
      RunSeen(Step(e, first, extra[first]), rest, extra, name);
    }
  }

  /** A request that removes nothing is seen as asked, whatever the base and the order. */
  lemma SeenWithoutRemovals(base: seq<string>, order: seq<string>, extra: map<string, Value>, name: string)
    requires AcceptableAll(extra) && IsOrder(order, extra) && forall n :: n in extra ==> extra[n].Text?
    ensures Seen(Produced(base, order, extra), name) == Asked(base, extra, name)
  {
    hide Name, Seen, Run, Latest, AcceptableAll, Consistent;
    IndexConsistent(base);
    OrderNames(order, extra);
    IndexLatest(base);
    assert Start(base) == Env(base, IndexOf(base)) by { StartIs(base); }
    RunSeen(Start(base), order, extra, name);
  }

  lemma {:induction false} SeenAppend(a: seq<string>, b: seq<string>, name: string)
    ensures Seen(a + b, name) == if Seen(b, name).Some? then Seen(b, name) else Seen(a, name)
  {
    hide Name;
    if b == [] {
      assert a + b == a;
    } else {
      var front := b[..|b| - 1];
      assert (a + b)[..|a + b| - 1] == a + front && (a + b)[|a + b| - 1] == b[|b| - 1];
      SeenAppend(a, front, name);
    }
  }

  /** The entries between the removed slot and the last one, which takes its place. */
  ghost function Between(e: Env, name: string): seq<string>
    requires Consistent(e) && name in e.index && e.index[name] < |e.entries| - 1
  {
    e.entries[e.index[name] + 1..|e.entries| - 1]
  }

  /** The moved entry passes another of its own name that says something else. */
  ghost predicate Overtakes(e: Env, name: string, other: string)
    requires Consistent(e)
  {
    name in e.index && e.index[name] < |e.entries| - 1 &&
    var moved := e.entries[|e.entries| - 1];
    Shows(moved, other) && Seen(Between(e, name), other).Some? && Seen(Between(e, name), other) != Some(moved)
  }

  /** One removal changes what is seen of another name exactly when the entry that takes the removed
      one's place passes a different entry of that name. */
  lemma DropSeenExactly(e: Env, name: string, other: string)
    requires Consistent(e) && other != name
    ensures Seen(Drop(e, name).entries, other) == Seen(e.entries, other) <==> !Overtakes(e, name, other)
  {
    hide Name;
    if name in e.index {
      var (slot, last) := (e.index[name], |e.entries| - 1);
      var (before, removed, moved) := (e.entries[..slot], e.entries[slot], e.entries[last]);
      OneSeen(removed, other);
      OneSeen(moved, other);
      if slot == last {
        assert e.entries == before + [removed] && Drop(e, name).entries == before;
        SeenAppend(before, [removed], other);
      } else {
        var between := Between(e, name);
        assert e.entries == before + [removed] + (between + [moved]);
        assert Drop(e, name).entries == before + [moved] + between;
        hide Seen, Drop, Consistent;
        SeenAppend(before, [removed], other);
        SeenAppend(between, [moved], other);
        SeenAppend(before + [removed], between + [moved], other);
        SeenAppend(before, [moved], other);
        SeenAppend(before + [moved], between, other);
      }
    }
  }

  lemma OneSeen(entry: string, name: string)
    ensures Seen([entry], name) == if Shows(entry, name) then Some(entry) else None
  {
    assert [entry][..0] == [];
  }

  /** A removal can change what is seen of a name that comes twice and was not asked about: the
      last entry takes the removed one's place. */
  lemma RemovalReordersDuplicates() returns (base: seq<string>, order: seq<string>, extra: map<string, Value>)
    ensures AcceptableAll(extra) && IsOrder(order, extra) && SoleNames(base, extra) && "B" !in extra
    ensures Seen(base, "B") == Some("B=2") && Seen(Produced(base, order, extra), "B") == Some("B=1")
  {
    base, order, extra := ["X=1", "B=1", "B=2"], ["X"], map["X" := Null];
    ShortNames();
    hide Name, Seen, Latest, Consistent;
    assert extra.Keys == {"X"} && |extra| == |extra.Keys|;
    SeenAt(base, "B", 2);
    OneIndex();
    var e := Start(base);
    IndexConsistent(base);
    OrderNames(order, extra);
    StepConsistent(e, "X", Null);
    assert order[1..] == [];
    assert Produced(base, order, extra) == Step(e, "X", Null).entries;
    assert Step(e, "X", Null).entries == ["B=2", "B=1"];
    SeenAt(["B=2", "B=1"], "B", 1);
  }

  lemma ShortNames()
    ensures Shows("X=1", "X") && Shows("B=1", "B") && Shows("B=2", "B")
  {
    NameOfEntry("X", "1");
    NameOfEntry("B", "1");
    NameOfEntry("B", "2");
    assert "X" + "=" + "1" == "X=1" && "B" + "=" + "1" == "B=1" && "B" + "=" + "2" == "B=2";
    assert "X=1"[1] == '=' && "B=1"[1] == '=' && "B=2"[1] == '=';
  }

  lemma OneIndex()
    ensures "X" in IndexOf(["X=1", "B=1", "B=2"]) && IndexOf(["X=1", "B=1", "B=2"])["X"] == 0
  {
    ShortNames();
    hide Name;
    var base := ["X=1", "B=1", "B=2"];
    assert base[..2] == ["X=1", "B=1"] && ["X=1", "B=1"][..1] == ["X=1"] && ["X=1"][..0] == [];
    assert IndexOf(["X=1"]) == map["X" := 0];
    assert IndexOf(["X=1", "B=1"]) == map["X" := 0, "B" := 1];
  }

  // ----- the code

  class Environment {
    var env: seq<string>
    var index: map<string, nat>

    ghost function View(): Env
      reads this
    {
      Env(env, index)
    }

    constructor (base: seq<string>)
      ensures View() == Start(base) && Consistent(View())
    {
      hide Name;
      env, index := base, map[];
      new;
      for i := 0 to |base|
        invariant env == base && index == IndexOf(base[..i])
      {
        assert base[..i + 1][..i] == base[..i];
        var entry := base[i];
        if '=' in entry {
          index := index[Name(entry) := i];
        }
      }
      assert base[..|base|] == base;
      IndexConsistent(base);
    }

    method Set(name: string, value: string)
      requires Consistent(View()) && '=' !in name
      modifies this
      ensures View() == Put(old(View()), name, value) && Consistent(View())
    {
      hide Name;
      StepConsistent(View(), name, Text(value));
      var entry := name + "=" + value;
      if name in index {
        env := env[index[name] := entry];
        return;
      }
      index := index[name := |env|];
      env := env + [entry];
    }

    method Unset(name: string)
      requires Consistent(View()) && '=' !in name
      modifies this
      ensures View() == Drop(old(View()), name) && Consistent(View())
    {
      hide Name;
      StepConsistent(View(), name, Null);
      if name !in index {
        return;
      }
      var i := index[name];
      var last := |env| - 1;
      var moved := env[last];
      env := env[i := moved];
      env := env[..last];
      index := index - {name};
      if i < last {
        index := index[Name(moved) := i];
      }
    }
  }

  /** A name of letters, digits and underscores that does not begin with a digit, and a text of at most
      16384 bytes or nothing. */
  ghost predicate Settable(name: string, value: Value) {
    && name != "" && !('0' <= name[0] <= '9')
    && (forall c :: c in name ==> 'A' <= c <= 'Z' || 'a' <= c <= 'z' || '0' <= c <= '9' || c == '_')
    && !value.Other? && (value.Text? ==> ByteLength(value.text) <= 16384)
  }

  lemma OneMeans(name: string, value: Value)
    ensures Acceptable(name, value) <==> Settable(name, value)
  {
    hide ByteLength;
    if Identifier(name) {
      assert name[0] in name;
    } else if name != "" && !('0' <= name[0] <= '9') {
      if !Letter(name[0]) {
        assert name[0] in name;
      } else {
        var i :| 0 <= i < |name| && !(Letter(name[i]) || '0' <= name[i] <= '9');
        assert name[i] in name;
      }
    }
  }

  lemma AcceptableMeans(request: Option<map<string, Value>>)
    ensures request.Some? ==>
      (AcceptableAll(request.value) <==> |request.value| <= 64 && forall n :: n in request.value ==> Settable(n, request.value[n]))
  {
    hide ByteLength;
    if request.Some? {
      forall n | n in request.value ensures Acceptable(n, request.value[n]) <==> Settable(n, request.value[n]) {
        OneMeans(n, request.value[n]);
      }
    }
  }

  /** The edited environment. Map iteration picks the names in an order the caller cannot know; it
      comes out as `order`. */
  method EnvironmentFor(request: Option<map<string, Value>>, base: seq<string>) returns (result: Result, ghost order: seq<string>)
    ensures request.None? ==> result == Inherit
    ensures request.Some? && !AcceptableAll(request.value) ==> result == Invalid
    ensures request.Some? && AcceptableAll(request.value) ==>
      IsOrder(order, request.value) && result == Ok(Produced(base, order, request.value))
    ensures request.Some? ==>
      (result.Ok? <==> |request.value| <= 64 && forall n :: n in request.value ==> Settable(n, request.value[n]))
  {
    AcceptableMeans(request);
    hide Settable;
    hide Name, Identifier, Put, Drop, IndexOf, Consistent;
    order := [];
    if request.None? {
      return Inherit, [];
    }
    var extra := request.value;
    if |extra| > MAX_VARS {
      return Invalid, [];
    }
    var e := new Environment(base);
    var left := extra.Keys;
    while left != {}
      invariant Consistent(Start(base)) && Consistent(e.View()) && fresh(e)
      invariant left <= extra.Keys && Distinct(order)
      invariant forall n :: n in order <==> n in extra && n !in left
      invariant Names(order, extra) && forall n :: n in order ==> Acceptable(n, extra[n])
      invariant e.View() == Run(Start(base), order, extra)
      decreases left
    {
      var name :| name in left;
      left := left - {name};
      var raw := extra[name];
      if !Identifier(name) || raw.Other? || (raw.Text? && ByteLength(raw.text) > MAX_BYTES) {
        return Invalid, [];
      }
      IdentifierHasNoEquals(name);
      RunAppend(Start(base), order, name, extra);
      order := order + [name];
      if raw.Null? {
        e.Unset(name);
      } else {
        e.Set(name, raw.text);
      }
    }
    return Ok(e.env), order;
  }

  lemma IdentifierHasNoEquals(name: string)
    requires Identifier(name)
    ensures '=' !in name
  {
  }

  lemma {:induction false} RunAppend(e: Env, order: seq<string>, name: string, extra: map<string, Value>)
    requires Consistent(e) && Names(order + [name], extra)
    requires Names(order, extra)
    ensures Run(e, order + [name], extra) == Step(Run(e, order, extra), name, extra[name])
    decreases |order|
  {
    hide Name, Step;
    if order == [] {
      assert (order + [name])[1..] == [];
      StepConsistent(e, name, extra[name]);
    } else {
      assert (order + [name])[1..] == order[1..] + [name];
      StepConsistent(e, order[0], extra[order[0]]);
      RunAppend(Step(e, order[0], extra[order[0]]), order[1..], name, extra);
    }
  }
}
