/** Global shortcuts of a presentation session (shellagent/desktop/presentation_model.go): parsing
    accelerators, and the registry that ties accelerators, keys and native ids together. */
module Shortcuts {
  import opened Options
  import opened Texts

  const MAX_ACCELERATOR := 128
  const MAX_SHORTCUTS := 64
  const MAX_ID := 0xbfff
  const TWO_32 := 0x1_0000_0000

  // ----- accelerators

  /** The modifier bits 1, 2, 4 and 8 as flags. */
  datatype Modifiers = Modifiers(alt: bool, ctrl: bool, shift: bool, cmd: bool)

  datatype PresentationKey = PresentationKey(code: nat, modifiers: Modifiers)

  /** Upper and lower case, where the result is ASCII; other letters never match a name. */
  function Upper(c: char): char {
    if 'a' <= c <= 'z' then c - 'a' + 'A' else if c == '\U{017F}' then 'S' else if c == '\U{0131}' then 'I' else c
  }

  function Lower(c: char): char {
    if 'A' <= c <= 'Z' then c - 'A' + 'a' else if c == '\U{0130}' then 'i' else if c == '\U{212A}' then 'k' else c
  }

  function ToUpper(s: string): string {
    seq(|s|, i requires 0 <= i < |s| => Upper(s[i]))
  }

  function ToLower(s: string): string {
    seq(|s|, i requires 0 <= i < |s| => Lower(s[i]))
  }

  function WithModifier(m: Modifiers, part: string, darwin: bool): Option<Modifiers> {
    var name := ToLower(TrimSpace(part));
    if name == "alt" || name == "option" then Some(m.(alt := true))
    else if name == "ctrl" || name == "control" then Some(m.(ctrl := true))
    else if name == "shift" then Some(m.(shift := true))
    else if name == "cmd" || name == "command" || name == "super" || name == "meta" then Some(m.(cmd := true))
    else if name == "commandorcontrol" || name == "cmdorctrl" then Some(if darwin then m.(cmd := true) else m.(ctrl := true))
    else None
  }

  function WithModifiers(m: Modifiers, parts: seq<string>, darwin: bool): Option<Modifiers>
    decreases |parts|
  {
    if parts == [] then Some(m)
    else
      match WithModifier(m, parts[0], darwin)
      case Some(more) => WithModifiers(more, parts[1..], darwin)
      case None => None
  }

  /** Digits to a number; an out-of-range number is refused by the caller's bounds all the same. */
  function Digits(s: string): Option<nat> {
    if s == "" then None
    else
      var last := s[|s| - 1];
      if !('0' <= last <= '9') then None
      else if |s| == 1 then Some((last - '0') as nat)
      else
        match Digits(s[..|s| - 1])
        case Some(n) => Some(10 * n + (last - '0') as nat)
        case None => None
  }

  /** The number after an F. A sign never matters: a plus separates parts, a minus gives no positive number. */
  function FunctionKey(s: string): Option<nat> {
    match Digits(s)
    case Some(n) => if 1 <= n <= 20 then Some(n) else None
    case None => None
  }

  function NamedKey(key: string): nat {
    if key == "SPACE" then 32 else if key == "TAB" then 9 else if key == "ENTER" then 13 else if key == "RETURN" then 13
    else if key == "ESC" then 27 else if key == "ESCAPE" then 27 else if key == "BACKSPACE" then 8 else if key == "DELETE" then 46
    else if key == "INSERT" then 45 else if key == "HOME" then 36 else if key == "END" then 35 else if key == "PAGEUP" then 33
    else if key == "PAGEDOWN" then 34 else if key == "LEFT" then 37 else if key == "UP" then 38 else if key == "RIGHT" then 39
    else if key == "DOWN" then 40 else if key == "PLUS" then 187 else if key == "MINUS" then 189 else if key == "COMMA" then 188
    else if key == "PERIOD" then 190 else 0
  }

  predicate Plain(c: char) {
    'A' <= c <= 'Z' || '0' <= c <= '9'
  }

  function KeyCode(part: string): nat {
    var key := ToUpper(TrimSpace(part));
    if |key| == 1 && Plain(key[0]) then key[0] as nat
    else if key != "" && key[0] == 'F' && FunctionKey(key[1..]).Some? then 111 + FunctionKey(key[1..]).value
    else NamedKey(key)
  }

  const NO_MODIFIERS := Modifiers(false, false, false, false)

  function Parse(accelerator: string, darwin: bool): Option<PresentationKey> {
    var parts := Split(accelerator, '+');
    if |parts| < 2 || ByteLength(accelerator) > MAX_ACCELERATOR then None
    else
      match WithModifiers(NO_MODIFIERS, parts[..|parts| - 1], darwin)
      case None => None
      case Some(m) =>
        var code := KeyCode(parts[|parts| - 1]);
        if code == 0 then None else Some(PresentationKey(code, m))
  }

  method ParsePresentationKey(accelerator: string, darwin: bool) returns (key: Option<PresentationKey>)
    ensures key == Parse(accelerator, darwin)
  {
    hide Split, WithModifier, KeyCode, ByteLength;
    var parts := Split(accelerator, '+');
    if |parts| < 2 || ByteLength(accelerator) > MAX_ACCELERATOR {
      return None;
    }
    var modifiers := NO_MODIFIERS;
    var names := parts[..|parts| - 1];
    for i := 0 to |names|
      invariant WithModifiers(modifiers, names[i..], darwin) == WithModifiers(NO_MODIFIERS, names, darwin)
    {
      assert names[i..][0] == names[i] && names[i..][1..] == names[i + 1..];
      var more := WithModifier(modifiers, names[i], darwin);
      if more.None? {
        return None;
      }
      modifiers := more.value;
    }
    var code := KeyCode(parts[|parts| - 1]);
    if code == 0 {
      return None;
    }
    return Some(PresentationKey(code, modifiers));
  }

  // ----- the registry, as a state machine

  /** `registered` is what the operating system holds: native id to key. */
  datatype State = State(shortcuts: map<string, nat>, keys: map<PresentationKey, string>, nextID: nat,
    registered: map<nat, PresentationKey>)

  datatype Answer = Yes | No | TooMany | NoMoreIds | BadKey

  datatype Command = Register(accelerator: string, accepted: bool) | Unregister(accelerator: string) | UnregisterAll

  function Registered(s: State, accelerator: string, key: PresentationKey, accepted: bool): (State, Answer) {
    if key in s.keys then (s, No)
    else if |s.shortcuts| >= MAX_SHORTCUTS then (s, TooMany)
    else
      var id := (s.nextID + 1) % TWO_32;
      if id > MAX_ID then (s.(nextID := id), NoMoreIds)
      else if !accepted then (s.(nextID := id), No)
      else (State(s.shortcuts[accelerator := id], s.keys[key := accelerator], id, s.registered[id := key]), Yes)
  }

  function Unregistered(s: State, key: PresentationKey): State
    requires key in s.keys ==> s.keys[key] in s.shortcuts
  {
    if key !in s.keys then s
    else
      var original := s.keys[key];
      State(s.shortcuts - {original}, s.keys - {key}, s.nextID, s.registered - {s.shortcuts[original]})
  }

  function Cleared(s: State): State {
    State(map[], map[], s.nextID, s.registered - s.shortcuts.Values)
  }

  function Apply(s: State, c: Command, darwin: bool): (State, Answer)
    requires Tied(s, darwin)
  {
    if c.UnregisterAll? then (Cleared(s), Yes)
    else
      match Parse(c.accelerator, darwin)
      case None => (s, BadKey)
      case Some(key) => if c.Register? then Registered(s, c.accelerator, key, c.accepted) else (Unregistered(s, key), Yes)
  }

  /** Accelerators and keys are in bijection: an accelerator is filed under the key it parses to. */
  predicate Tied(s: State, darwin: bool) {
    (forall k :: k in s.keys ==> s.keys[k] in s.shortcuts && Parse(s.keys[k], darwin) == Some(k)) &&
    (forall a :: a in s.shortcuts ==> Parse(a, darwin).Some? && Parse(a, darwin).value in s.keys && s.keys[Parse(a, darwin).value] == a)
  }

  /** No two accelerators share a native id. */
  predicate Injective(m: map<string, nat>) {
    forall a, b :: a in m && b in m && m[a] == m[b] ==> a == b
  }

  /** The operating system holds exactly the ids of the registry, each with its key. */
  predicate Native(s: State) {
    s.registered.Keys == s.shortcuts.Values &&
    forall k :: k in s.keys && s.keys[k] in s.shortcuts ==>
      s.shortcuts[s.keys[k]] in s.registered && s.registered[s.shortcuts[s.keys[k]]] == k
  }

  predicate Inv(s: State, darwin: bool) {
    Tied(s, darwin) && Injective(s.shortcuts) && Native(s) && |s.shortcuts| <= MAX_SHORTCUTS
  }

  /** Ids in use were given out before. */
  predicate Issued(s: State) {
    forall a :: a in s.shortcuts ==> 1 <= s.shortcuts[a] <= s.nextID
  }

  lemma RegisterKeepsTied(s: State, a: string, accepted: bool, darwin: bool)
    requires Tied(s, darwin) && Parse(a, darwin).Some?
    ensures Tied(Registered(s, a, Parse(a, darwin).value, accepted).0, darwin)
  {
    hide Parse;
  }

  lemma UnregisterKeepsTied(s: State, key: PresentationKey, darwin: bool)
    requires Tied(s, darwin)
    ensures Tied(Unregistered(s, key), darwin)
  {
    hide Parse;
  }

  lemma ValuesAfter(m: map<string, nat>, a: string, id: nat)
    requires a !in m
    ensures |m[a := id]| == |m| + 1 && m[a := id].Values == m.Values + {id}
  {
    SizeAfter(m, a, id);
    var n := m[a := id];
    assert n[a] == id;
    forall v | v in m.Values ensures v in n.Values {
      var b :| b in m && m[b] == v;
      assert n[b] == v;
    }
  }

  lemma SizeAfter(m: map<string, nat>, a: string, id: nat)
    requires a !in m
    ensures |m[a := id]| == |m| + 1
  {
    assert m[a := id].Keys == m.Keys + {a};
    assert |m[a := id]| == |m[a := id].Keys| && |m| == |m.Keys|;
  }

  lemma ValuesWithout(m: map<string, nat>, a: string)
    requires a in m && Injective(m)
    ensures |m - {a}| == |m| - 1 && (m - {a}).Values == m.Values - {m[a]}
  {
    var n := m - {a};
    assert n.Keys == m.Keys - {a};
    assert |n| == |n.Keys| && |m| == |m.Keys|;
    forall v | v in m.Values - {m[a]} ensures v in n.Values {
      var b :| b in m && m[b] == v;
      assert b in n && n[b] == v;
    }
  }

  /** What the bijection of accelerators and keys says without parsing. */
  lemma TiedMeans(s: State, darwin: bool)
    requires Tied(s, darwin)
    ensures forall k :: k in s.keys ==> s.keys[k] in s.shortcuts
    ensures forall k, l :: k in s.keys && l in s.keys && s.keys[k] == s.keys[l] ==> k == l
    ensures forall a :: a in s.shortcuts ==>
      Parse(a, darwin).Some? && Parse(a, darwin).value in s.keys && s.keys[Parse(a, darwin).value] == a
  {
    hide Parse;
  }

  lemma FreshIdInjective(m: map<string, nat>, a: string, id: nat)
    requires Injective(m) && a !in m && id !in m.Values
    ensures Injective(m[a := id])
  {
    assert forall b :: b in m ==> m[b] in m.Values;
  }

  lemma FreshIdNative(s: State, a: string, key: PresentationKey, id: nat)
    requires Native(s) && a !in s.shortcuts && key !in s.keys && id !in s.shortcuts.Values
    requires forall k :: k in s.keys ==> s.keys[k] in s.shortcuts
    ensures Native(State(s.shortcuts[a := id], s.keys[key := a], id, s.registered[id := key]))
  {
    ValuesAfter(s.shortcuts, a, id);
    var t := State(s.shortcuts[a := id], s.keys[key := a], id, s.registered[id := key]);
    assert t.registered.Keys == s.registered.Keys + {id};
    forall k | k in t.keys && t.keys[k] in t.shortcuts
      ensures t.shortcuts[t.keys[k]] in t.registered && t.registered[t.shortcuts[t.keys[k]]] == k
    {
      if k != key {
        assert s.keys[k] in s.shortcuts && s.shortcuts[s.keys[k]] in s.shortcuts.Values;
      }
    }
  }

  lemma RegisterFreshId(s: State, a: string, key: PresentationKey, id: nat)
    requires Injective(s.shortcuts) && Native(s) && a !in s.shortcuts && key !in s.keys && id !in s.shortcuts.Values
    requires forall k :: k in s.keys ==> s.keys[k] in s.shortcuts
    ensures
      var t := State(s.shortcuts[a := id], s.keys[key := a], id, s.registered[id := key]);
      Injective(t.shortcuts) && Native(t) && |t.shortcuts| == |s.shortcuts| + 1
  {
    FreshIdInjective(s.shortcuts, a, id);
    FreshIdNative(s, a, key, id);
    hide Injective, Native;
    ValuesAfter(s.shortcuts, a, id);
  }

  lemma RegisterUsedId(m: map<string, nat>, a: string, id: nat)
    requires a !in m && id in m.Values
    ensures !Injective(m[a := id])
  {
    var b :| b in m && m[b] == id;
    assert m[a := id][b] == m[a := id][a];
  }

  /** The counter has come round to an id that a shortcut still has. */
  predicate ReusesId(s: State, key: PresentationKey, accepted: bool) {
    var id := (s.nextID + 1) % TWO_32;
    key !in s.keys && |s.shortcuts| < MAX_SHORTCUTS && accepted && id <= MAX_ID && id in s.shortcuts.Values
  }

  /** Registering keeps the bijections exactly when the next id is not one still in use: a condition
      on the registry before the call. */
  lemma RegisterKeepsInvExactly(s: State, a: string, accepted: bool, darwin: bool)
    requires Inv(s, darwin) && Parse(a, darwin).Some?
    ensures
      var key := Parse(a, darwin).value;
      Inv(Registered(s, a, key, accepted).0, darwin) <==> !ReusesId(s, key, accepted)
  {
    hide Parse, Tied, Native, Injective;
    RegisterKeepsTied(s, a, accepted, darwin);
    TiedMeans(s, darwin);
    var key := Parse(a, darwin).value;
    var (t, answer) := Registered(s, a, key, accepted);
    if answer.Yes? {
      if t.nextID in s.shortcuts.Values {
        RegisterUsedId(s.shortcuts, a, t.nextID);
      } else {
        RegisterFreshId(s, a, key, t.nextID);
      }
    } else {
      assert Native(t) == Native(s) by { SameIds(s, t); }
    }
  }

  lemma SameIds(s: State, t: State)
    requires t == s.(nextID := t.nextID)
    ensures Native(t) == Native(s)
  {
  }

  lemma UnregisterIds(s: State, key: PresentationKey)
    requires Injective(s.shortcuts) && Native(s) && key in s.keys
    requires forall k :: k in s.keys ==> s.keys[k] in s.shortcuts
    requires forall k, l :: k in s.keys && l in s.keys && s.keys[k] == s.keys[l] ==> k == l
    ensures
      var t := Unregistered(s, key);
      Injective(t.shortcuts) && Native(t) && |t.shortcuts| == |s.shortcuts| - 1
  {
    var t := Unregistered(s, key);
    ValuesWithout(s.shortcuts, s.keys[key]);
    assert t.registered.Keys == s.registered.Keys - {s.shortcuts[s.keys[key]]};
  }

  lemma UnregisterKeepsInv(s: State, key: PresentationKey, darwin: bool)
    requires Inv(s, darwin)
    ensures key in s.keys ==> s.keys[key] in s.shortcuts
    ensures Inv(Unregistered(s, key), darwin)
  {
    TiedMeans(s, darwin);
    UnregisterKeepsTied(s, key, darwin);
    hide Parse, Tied, Native, Injective;
    if key in s.keys {
      UnregisterIds(s, key);
    }
  }

  /** Unregistering by any spelling of a key removes the shortcut filed under that key, its native id
      and nothing else. */
  lemma UnregisterRemovesAlias(s: State, a: string, alias: string, darwin: bool)
    requires Inv(s, darwin) && a in s.shortcuts && Parse(alias, darwin) == Parse(a, darwin)
    ensures
      var t := Apply(s, Unregister(alias), darwin).0;
      Inv(t, darwin) && t.shortcuts == s.shortcuts - {a} && t.registered == s.registered - {s.shortcuts[a]} &&
      t.keys == s.keys - {Parse(a, darwin).value}
  {
    hide Parse, Native, Injective;
    TiedMeans(s, darwin);
    UnregisterKeepsInv(s, Parse(a, darwin).value, darwin);
  }

  /** Unregistering everything empties the registry and the operating system's side of it. */
  lemma ClearKeepsInv(s: State, darwin: bool)
    requires Inv(s, darwin)
    ensures Inv(Cleared(s), darwin) && Cleared(s).registered == map[]
  {
    hide Parse, Tied;
    ClearedTied(s, darwin);
    assert Cleared(s).registered.Keys == {};
    var none: map<string, nat> := map[];
    assert none.Values == {};
  }

  // ----- runs

  function Attempts(commands: seq<Command>): nat {
    if commands == [] then 0 else (if commands[0].Register? then 1 else 0) + Attempts(commands[1..])
  }

  function Run(s: State, commands: seq<Command>, darwin: bool): (t: State)
    requires Tied(s, darwin)
    ensures Tied(t, darwin)
    decreases |commands|
  {
    if commands == [] then s
    else
      ApplyKeepsTied(s, commands[0], darwin);
      Run(Apply(s, commands[0], darwin).0, commands[1..], darwin)
  }

  lemma ApplyKeepsTied(s: State, c: Command, darwin: bool)
    requires Tied(s, darwin)
    ensures Tied(Apply(s, c, darwin).0, darwin)
  {
    hide Parse, Tied, Registered, Unregistered;
    if c.UnregisterAll? {
      assert Tied(Cleared(s), darwin) by { ClearedTied(s, darwin); }
    } else if Parse(c.accelerator, darwin).Some? {
      if c.Register? {
        RegisterKeepsTied(s, c.accelerator, c.accepted, darwin);
      } else {
        UnregisterKeepsTied(s, Parse(c.accelerator, darwin).value, darwin);
      }
    }
  }

  lemma ClearedTied(s: State, darwin: bool)
    ensures Tied(Cleared(s), darwin)
  {
  }

  lemma RegisterIssues(s: State, a: string, key: PresentationKey, accepted: bool)
    requires Issued(s) && s.nextID < TWO_32
    ensures !ReusesId(s, key, accepted)
    ensures s.nextID + 1 < TWO_32 ==>
      Issued(Registered(s, a, key, accepted).0) && Registered(s, a, key, accepted).0.nextID <= s.nextID + 1
  {
  }

  lemma ApplyKeepsInv(s: State, c: Command, darwin: bool)
    requires Inv(s, darwin) && (c.Register? ==> Issued(s) && s.nextID < TWO_32)
    ensures Inv(Apply(s, c, darwin).0, darwin)
    ensures Issued(s) && (c.Register? ==> s.nextID + 1 < TWO_32) ==>
      Issued(Apply(s, c, darwin).0) && Apply(s, c, darwin).0.nextID <= s.nextID + (if c.Register? then 1 else 0)
  {
    hide Parse, Inv, Registered, ReusesId;
    assert Tied(s, darwin) by { InvTied(s, darwin); }
    if c.UnregisterAll? {
      ClearKeepsInv(s, darwin);
    } else if Parse(c.accelerator, darwin).Some? {
      var key := Parse(c.accelerator, darwin).value;
      if c.Register? {
        hide Tied, Issued;
        RegisterKeepsInvExactly(s, c.accelerator, c.accepted, darwin);
        RegisterIssues(s, c.accelerator, key, c.accepted);
      } else {
        UnregisterKeepsInv(s, key, darwin);
      }
    }
  }

  lemma InvTied(s: State, darwin: bool)
    requires Inv(s, darwin)
    ensures Tied(s, darwin)
  {
  }

  const EMPTY := State(map[], map[], 0, map[])

  lemma {:induction false} RunKeepsInv(s: State, commands: seq<Command>, darwin: bool)
    requires Inv(s, darwin)
    requires (Issued(s) && s.nextID + Attempts(commands) <= TWO_32) || Attempts(commands) == 0
    ensures Inv(Run(s, commands, darwin), darwin)
    decreases |commands|
  {
    hide Apply, Tied, Native, Injective, Issued;
    if commands != [] {
      ApplyKeepsInv(s, commands[0], darwin);
      RunKeepsInv(Apply(s, commands[0], darwin).0, commands[1..], darwin);
    }
  }

  lemma EmptyInv(darwin: bool)
    ensures Inv(EMPTY, darwin) && Issued(EMPTY)
  {
    assert EMPTY.registered.Keys == EMPTY.shortcuts.Values;
  }

  /** After any commands with at most 2^32 register attempts the registry is a bijection of
      accelerators, keys and native ids, and the operating system holds exactly those ids. */
  lemma RegistryInvariant(commands: seq<Command>, darwin: bool)
    requires Attempts(commands) <= TWO_32
    ensures Tied(EMPTY, darwin) && Inv(Run(EMPTY, commands, darwin), darwin)
  {
    EmptyInv(darwin);
    RunKeepsInv(EMPTY, commands, darwin);
  }

  // ----- one attempt more

  lemma {:induction false} RunAppend(s: State, a: seq<Command>, b: seq<Command>, darwin: bool)
    requires Tied(s, darwin)
    ensures Run(s, a + b, darwin) == Run(Run(s, a, darwin), b, darwin)
    ensures Attempts(a + b) == Attempts(a) + Attempts(b)
    decreases |a|
  {
    hide Apply, Tied;
    if a == [] {
      assert a + b == b;
    } else {
      assert (a + b)[0] == a[0] && (a + b)[1..] == a[1..] + b;
      ApplyKeepsTied(s, a[0], darwin);
      RunAppend(Apply(s, a[0], darwin).0, a[1..], b, darwin);
    }
  }

  function Refusals(accelerator: string, n: nat): seq<Command> {
    if n == 0 then [] else [Register(accelerator, false)] + Refusals(accelerator, n - 1)
  }

  lemma RefusalMeans(s: State, y: string, darwin: bool)
    requires Tied(s, darwin) && Parse(y, darwin).Some? && Parse(y, darwin).value !in s.keys && |s.shortcuts| < MAX_SHORTCUTS
    ensures Apply(s, Register(y, false), darwin).0 == s.(nextID := (s.nextID + 1) % TWO_32)
  {
    hide Parse, Tied;
  }

  /** Attempts that the operating system refuses move the counter and nothing else. */
  lemma {:induction false} RefusalsMean(s: State, y: string, n: nat, darwin: bool)
    requires Tied(s, darwin) && Parse(y, darwin).Some? && Parse(y, darwin).value !in s.keys
    requires |s.shortcuts| < MAX_SHORTCUTS && s.nextID < TWO_32
    ensures Run(s, Refusals(y, n), darwin) == s.(nextID := (s.nextID + n) % TWO_32)
    ensures Attempts(Refusals(y, n)) == n
    decreases n
  {
    hide Apply, Parse, Tied;
    if n > 0 {
      RefusalMeans(s, y, darwin);
      ApplyKeepsTied(s, Register(y, false), darwin);
      var next := s.(nextID := (s.nextID + 1) % TWO_32);
      RefusalsMean(next, y, n - 1, darwin);
      assert Refusals(y, n)[1..] == Refusals(y, n - 1);
      Wrapped(s.nextID, n);
    }
  }

  lemma Wrapped(id: nat, n: nat)
    requires id < TWO_32 && n > 0
    ensures ((id + 1) % TWO_32 + (n - 1)) % TWO_32 == (id + n) % TWO_32
  {
    if id + 1 == TWO_32 {
      assert id + n == TWO_32 + (n - 1);
    }
  }

  /** The bound is tight: a registration, 2^32 - 1 refused ones and one more, 2^32 + 1 attempts in
      all, leave two shortcuts with one native id. */
  lemma OneAttemptMore(x: string, y: string, darwin: bool) returns (commands: seq<Command>)
    requires Parse(x, darwin).Some? && Parse(y, darwin).Some? && Parse(x, darwin) != Parse(y, darwin)
    ensures Attempts(commands) == TWO_32 + 1
    ensures Tied(EMPTY, darwin) && !Injective(Run(EMPTY, commands, darwin).shortcuts)
  {
    hide Parse, Tied, Native, Injective, Apply, Inv, Issued;
    EmptyInv(darwin);
    InvTied(EMPTY, darwin);
    var key := Parse(x, darwin).value;
    var first, last := [Register(x, true)], [Register(y, true)];
    var middle := Refusals(y, TWO_32 - 1);
    commands := first + (middle + last);
    var s1 := State(map[x := 1], map[key := x], 1, map[1 := key]);
    FirstRegistered(x, darwin);
    RunOne(EMPTY, first[0], darwin);
    RefusalsMean(s1, y, TWO_32 - 1, darwin);
    var s2 := s1.(nextID := 0);
    assert Run(s1, middle, darwin) == s2;
    RunOne(s2, last[0], darwin);
    SecondRegistered(s2, x, y, darwin);
    RunAppend(EMPTY, first, middle + last, darwin);
    RunAppend(s1, middle, last, darwin);
  }

  lemma RunOne(s: State, c: Command, darwin: bool)
    requires Tied(s, darwin)
    ensures Run(s, [c], darwin) == Apply(s, c, darwin).0
    ensures Attempts([c]) == if c.Register? then 1 else 0
  {
    hide Apply, Tied;
    ApplyKeepsTied(s, c, darwin);
    assert [c][1..] == [];
  }

  lemma FirstRegistered(x: string, darwin: bool)
    requires Parse(x, darwin).Some? && Tied(EMPTY, darwin)
    ensures
      var key := Parse(x, darwin).value;
      Apply(EMPTY, Register(x, true), darwin).0 == State(map[x := 1], map[key := x], 1, map[1 := key])
  {
    hide Parse, Tied;
  }

  lemma SecondRegistered(s: State, x: string, y: string, darwin: bool)
    requires Parse(x, darwin).Some? && Parse(y, darwin).Some? && Parse(x, darwin) != Parse(y, darwin) && Tied(s, darwin)
    requires s.shortcuts == map[x := 1] && s.keys == map[Parse(x, darwin).value := x] && s.nextID == 0
    ensures !Injective(Apply(s, Register(y, true), darwin).0.shortcuts)
  {
    hide Parse, Tied;
    var t := Apply(s, Register(y, true), darwin).0;
    assert s.shortcuts.Keys == {x} && |s.shortcuts| == |s.shortcuts.Keys|;
    assert x != y && t.shortcuts[x] == t.shortcuts[y] == 1;
  }

  // ----- the code

  /** An attempt is answered by the first check that fails: the accelerator, the key, the room of 64, the
      next 32-bit id up to 49151, the operating system. Only the last three get as far as the id. */
  ghost predicate Registers(b: State, key: Option<PresentationKey>, accelerator: string, accepted: bool, a: State, answer: Answer) {
    var id := (b.nextID + 1) % 0x1_0000_0000;
    if key.None? then answer == BadKey && a == b
    else if key.value in b.keys then answer == No && a == b
    else if |b.shortcuts| >= 64 then answer == TooMany && a == b
    else
      && a.nextID == id
      && if id > 49151 || !accepted then
        && answer == (if id > 49151 then NoMoreIds else No)
        && a.shortcuts == b.shortcuts && a.keys == b.keys && a.registered == b.registered
      else
        && answer == Yes && a.shortcuts == b.shortcuts[accelerator := id]
        && a.keys == b.keys[key.value := accelerator] && a.registered == b.registered[id := key.value]
  }

  /** Giving back a key removes its accelerator, itself and its native id, if it is registered. */
  ghost predicate Unregisters(b: State, key: Option<PresentationKey>, a: State, answer: Answer) {
    if key.None? then answer == BadKey && a == b
    else
      && answer == Yes && a.nextID == b.nextID
      && if key.value in b.keys && b.keys[key.value] in b.shortcuts then
        && a.shortcuts == b.shortcuts - {b.keys[key.value]} && a.keys == b.keys - {key.value}
        && a.registered == b.registered - {b.shortcuts[b.keys[key.value]]}
      else key.value !in b.keys && a == b
  }

  /** The operating system's hot-key table. Whether it takes a key is its own affair. */
  class HotKeys {
    var registered: map<nat, PresentationKey>

    constructor ()
      ensures registered == map[]
    {
      registered := map[];
    }

    method Register(id: nat, key: PresentationKey, accepted: bool) returns (ok: bool)
      modifies this
      ensures ok == accepted
      ensures registered == if ok then old(registered)[id := key] else old(registered)
    {
      if accepted {
        registered := registered[id := key];
      }
      return accepted;
    }

    method Unregister(id: nat)
      modifies this
      ensures registered == old(registered) - {id}
    {
      registered := registered - {id};
    }
  }

  class Controller {
    const native: HotKeys
    const darwin: bool
    var shortcuts: map<string, nat>
    var keys: map<PresentationKey, string>
    var nextID: nat

    constructor (native: HotKeys, darwin: bool)
      requires native.registered == map[]
      ensures this.native == native && this.darwin == darwin && View() == EMPTY
    {
      this.native, this.darwin := native, darwin;
      shortcuts, keys, nextID := map[], map[], 0;
    }

    ghost function View(): State
      reads this, native
    {
      State(shortcuts, keys, nextID, native.registered)
    }

    method Register(accelerator: string, accepted: bool) returns (answer: Answer)
      requires Tied(View(), darwin)
      modifies this, native
      ensures (View(), answer) == Apply(old(View()), Command.Register(accelerator, accepted), darwin)
      ensures Registers(old(View()), Parse(accelerator, darwin), accelerator, accepted, View(), answer)
    {
      hide Parse, Tied;
      var key := ParsePresentationKey(accelerator, darwin);
      if key.None? {
        return BadKey;
      }
      if key.value in keys {
        return No;
      }
      if |shortcuts| >= MAX_SHORTCUTS {
        return TooMany;
      }
      nextID := (nextID + 1) % TWO_32;
      if nextID > MAX_ID {
        return NoMoreIds;
      }
      var ok := native.Register(nextID, key.value, accepted);
      if !ok {
        return No;
      }
      shortcuts := shortcuts[accelerator := nextID];
      keys := keys[key.value := accelerator];
      return Yes;
    }

    method Unregister(accelerator: string) returns (answer: Answer)
      requires Tied(View(), darwin)
      modifies this, native
      ensures (View(), answer) == Apply(old(View()), Command.Unregister(accelerator), darwin)
      ensures Unregisters(old(View()), Parse(accelerator, darwin), View(), answer)
    {
      hide Parse;
      TiedMeans(View(), darwin);
      hide Tied;
      var key := ParsePresentationKey(accelerator, darwin);
      if key.None? {
        return BadKey;
      }
      if key.value in keys {
        var original := keys[key.value];
        native.Unregister(shortcuts[original]);
        shortcuts := shortcuts - {original};
        keys := keys - {key.value};
      }
      return Yes;
    }

    /** The loop that both unregisterAll and close run over the registry, in any order. */
    method UnregisterIds()
      modifies native
      ensures native.registered == old(native.registered) - shortcuts.Values
    {
      var left := shortcuts.Keys;
      ghost var done: set<nat> := {};
      while left != {}
        invariant left <= shortcuts.Keys
        invariant forall a :: a in shortcuts && a !in left ==> shortcuts[a] in done
        invariant done <= shortcuts.Values
        invariant native.registered == old(native.registered) - done
        decreases left
      {
        var a :| a in left;
        left := left - {a};
        done := done + {shortcuts[a]};
        native.Unregister(shortcuts[a]);
      }
      assert done == shortcuts.Values;
    }

    method UnregisterAll() returns (answer: Answer)
      requires Tied(View(), darwin)
      modifies this, native
      ensures (View(), answer) == Apply(old(View()), Command.UnregisterAll, darwin)
      ensures answer == Yes && shortcuts == map[] && keys == map[] && nextID == old(nextID)
      ensures forall id :: id in native.registered <==>
        id in old(native.registered) && forall a :: a in old(shortcuts) ==> old(shortcuts)[a] != id
    {
      hide Parse, Tied;
      UnregisterIds();
      shortcuts, keys := map[], map[];
      return Yes;
    }

    /** Closing the session leaves the operating system nothing of it. */
    method Close()
      requires Inv(View(), darwin)
      modifies native
      ensures native.registered == map[]
    {
      hide Parse, Tied;
      UnregisterIds();
      assert native.registered.Keys == {};
    }

    /** The accelerator of a native event; with unique ids the order of the search does not matter. */
    method Hotkey(id: nat) returns (accelerator: Option<string>)
      ensures accelerator.None? ==> id !in shortcuts.Values
      ensures accelerator.Some? ==> accelerator.value in shortcuts && shortcuts[accelerator.value] == id
      ensures Injective(shortcuts) ==> forall a :: a in shortcuts && shortcuts[a] == id ==> accelerator == Some(a)
    {
      var left := shortcuts.Keys;
      while left != {}
        invariant left <= shortcuts.Keys
        invariant forall a :: a in shortcuts && a !in left ==> shortcuts[a] != id
        decreases left
      {
        var a :| a in left;
        if shortcuts[a] == id {
          return Some(a);
        }
        left := left - {a};
      }
      return None;
    }
  }
}
