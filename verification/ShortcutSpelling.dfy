/** Spelling shortcut keys out: an inverse of the accelerator parser
    (shellagent/desktop/presentation_model.go). */
module ShortcutSpelling {
  import opened Options
  import opened Texts
  import opened Shortcuts

  function ModifierNames(m: Modifiers): seq<string> {
    (if m.alt then ["Alt"] else []) + (if m.ctrl then ["Ctrl"] else []) +
    (if m.shift then ["Shift"] else []) + (if m.cmd then ["Cmd"] else [])
  }

  predicate Named(code: nat) {
    code in {32, 9, 13, 27, 8, 46, 45, 36, 35, 33, 34, 37, 38, 39, 40, 187, 189, 188, 190}
  }

  function NameOf(code: nat): string {
    if code == 32 then "SPACE" else if code == 9 then "TAB" else if code == 13 then "ENTER" else if code == 27 then "ESC"
    else if code == 8 then "BACKSPACE" else if code == 46 then "DELETE" else if code == 45 then "INSERT" else if code == 36 then "HOME"
    else if code == 35 then "END" else if code == 33 then "PAGEUP" else if code == 34 then "PAGEDOWN" else if code == 37 then "LEFT"
    else if code == 38 then "UP" else if code == 39 then "RIGHT" else if code == 40 then "DOWN" else if code == 187 then "PLUS"
    else if code == 189 then "MINUS" else if code == 188 then "COMMA" else "PERIOD"
  }

  predicate PlainCode(code: nat) {
    65 <= code <= 90 || 48 <= code <= 57
  }

  predicate ValidCode(code: nat) {
    PlainCode(code) || 112 <= code <= 131 || Named(code)
  }

  function KeyName(code: nat): string
    requires ValidCode(code)
  {
    if PlainCode(code) then [code as char]
    else if 112 <= code <= 131 then
      var n := code - 111;
      if n < 10 then ['F', '0' + n as char] else ['F', '0' + (n / 10) as char, '0' + (n % 10) as char]
    else NameOf(code)
  }

  /** The keys the parser can yield: at least one modifier and a known code. */
  predicate Valid(k: PresentationKey) {
    k.modifiers != NO_MODIFIERS && ValidCode(k.code)
  }

  function Spelling(k: PresentationKey): string
    requires Valid(k)
  {
    Join(ModifierNames(k.modifiers) + [KeyName(k.code)], '+')
  }

  // ----- modifiers

  lemma Trimmed(s: string)
    requires s != "" && !Space(s[0]) && !Space(s[|s| - 1])
    ensures TrimSpace(s) == s
  {
  }

  lemma ModifierWords(m: Modifiers, darwin: bool)
    ensures WithModifier(m, "Alt", darwin) == Some(m.(alt := true))
    ensures WithModifier(m, "Ctrl", darwin) == Some(m.(ctrl := true))
    ensures WithModifier(m, "Shift", darwin) == Some(m.(shift := true))
    ensures WithModifier(m, "Cmd", darwin) == Some(m.(cmd := true))
  {
    assert TrimSpace("Alt") == "Alt" && ToLower("Alt") == "alt";
    assert TrimSpace("Ctrl") == "Ctrl" && ToLower("Ctrl") == "ctrl";
    assert TrimSpace("Shift") == "Shift" && ToLower("Shift") == "shift";
    assert TrimSpace("Cmd") == "Cmd" && ToLower("Cmd") == "cmd";
  }

  lemma {:induction false} WithModifiersAppend(m: Modifiers, a: seq<string>, b: seq<string>, darwin: bool)
    requires WithModifiers(m, a, darwin).Some?
    ensures WithModifiers(m, a + b, darwin) == WithModifiers(WithModifiers(m, a, darwin).value, b, darwin)
    decreases |a|
  {
    hide WithModifier;
    if a == [] {
      assert a + b == b;
    } else {
      assert (a + b)[0] == a[0] && (a + b)[1..] == a[1..] + b;
      WithModifiersAppend(WithModifier(m, a[0], darwin).value, a[1..], b, darwin);
    }
  }

  lemma ModifiersRead(m: Modifiers, darwin: bool)
    ensures WithModifiers(NO_MODIFIERS, ModifierNames(m), darwin) == Some(m)
  {
    hide WithModifier;
    var a := if m.alt then ["Alt"] else [];
    var b := if m.ctrl then ["Ctrl"] else [];
    var c := if m.shift then ["Shift"] else [];
    var d := if m.cmd then ["Cmd"] else [];
    var n0 := NO_MODIFIERS;
    var n1 := n0.(alt := m.alt);
    var n2 := n1.(ctrl := m.ctrl);
    var n3 := n2.(shift := m.shift);
    ModifierWords(n0, darwin);
    ModifierWords(n1, darwin);
    ModifierWords(n2, darwin);
    ModifierWords(n3, darwin);
    WithModifiersAppend(n0, a, b, darwin);
    WithModifiersAppend(n0, a + b, c, darwin);
    WithModifiersAppend(n0, a + b + c, d, darwin);
  }

  lemma WithModifierGrows(m: Modifiers, part: string, darwin: bool)
    ensures WithModifier(m, part, darwin).Some? ==> WithModifier(m, part, darwin).value != NO_MODIFIERS
  {
  }

  lemma {:induction false} WithModifiersGrows(m: Modifiers, parts: seq<string>, darwin: bool)
    requires WithModifiers(m, parts, darwin).Some? && (m != NO_MODIFIERS || parts != [])
    ensures WithModifiers(m, parts, darwin).value != NO_MODIFIERS
    decreases |parts|
  {
    hide WithModifier;
    if parts != [] {
      WithModifierGrows(m, parts[0], darwin);
      WithModifiersGrows(WithModifier(m, parts[0], darwin).value, parts[1..], darwin);
    }
  }

  // ----- keys

  predicate Capital(s: string) {
    forall i :: 0 <= i < |s| ==> Plain(s[i])
  }

  lemma CapitalStays(s: string)
    requires Capital(s) && s != ""
    ensures ToUpper(TrimSpace(s)) == s && '+' !in s
  {
    Trimmed(s);
  }

  lemma NamesInverse(code: nat)
    requires Named(code)
    ensures NamedKey(NameOf(code)) == code
  {
  }

  lemma NamesRead(code: nat)
    requires Named(code)
    ensures Capital(NameOf(code)) && 1 < |NameOf(code)| <= 9 && NameOf(code)[0] != 'F' && NamedKey(NameOf(code)) == code
  {
    NamesInverse(code);
    hide NamedKey;
  }

  lemma FunctionKeysRead(n: nat)
    requires 1 <= n <= 20
    ensures
      var digits := if n < 10 then ['0' + n as char] else ['0' + (n / 10) as char, '0' + (n % 10) as char];
      FunctionKey(digits) == Some(n)
  {
    if n >= 10 {
      var digits := ['0' + (n / 10) as char, '0' + (n % 10) as char];
      assert digits[..1] == ['0' + (n / 10) as char];
      assert Digits(digits[..1]) == Some(n / 10);
      assert (digits[1] - '0') as nat == n % 10;
      assert Digits(digits) == Some(10 * (n / 10) + n % 10);
    } else {
      assert Digits(['0' + n as char]) == Some(n);
    }
  }

  lemma KeyReads(code: nat)
    requires ValidCode(code)
    ensures KeyCode(KeyName(code)) == code && Capital(KeyName(code)) && 1 <= |KeyName(code)| <= 9
  {
    hide NamedKey, NameOf;
    if PlainCode(code) {
      CapitalStays(KeyName(code));
    } else if 112 <= code <= 131 {
      var name := KeyName(code);
      FunctionKeysRead(code - 111);
      CapitalStays(name);
      var n := code - 111;
      assert name[1..] == if n < 10 then ['0' + n as char] else ['0' + (n / 10) as char, '0' + (n % 10) as char];
    } else {
      NamesRead(code);
      CapitalStays(KeyName(code));
    }
  }

  lemma KeyCodesAreValid(part: string)
    ensures KeyCode(part) == 0 || ValidCode(KeyCode(part))
  {
    hide ToUpper, TrimSpace, FunctionKey;
    assert NamedKey(ToUpper(TrimSpace(part))) == 0 || Named(NamedKey(ToUpper(TrimSpace(part))));
    FunctionKeyRange(ToUpper(TrimSpace(part)));
  }

  lemma FunctionKeyRange(key: string)
    ensures key != "" && FunctionKey(key[1..]).Some? ==> 1 <= FunctionKey(key[1..]).value <= 20
  {
  }

  // ----- whole accelerators

  predicate Short(parts: seq<string>) {
    forall p :: p in parts ==> |p| <= 9 && forall i :: 0 <= i < |p| ==> p[i] < '\U{0080}'
  }

  lemma {:induction false} AsciiBytes(s: string)
    requires forall i :: 0 <= i < |s| ==> s[i] < '\U{0080}'
    ensures ByteLength(s) == |s|
  {
    if s != "" {
      AsciiBytes(s[1..]);
    }
  }

  lemma {:induction false} JoinIsShort(parts: seq<string>)
    requires parts != [] && Short(parts)
    ensures |Join(parts, '+')| <= 10 * |parts| - 1
    ensures forall i :: 0 <= i < |Join(parts, '+')| ==> Join(parts, '+')[i] < '\U{0080}'
  {
    assert parts[0] in parts;
    if |parts| > 1 {
      JoinIsShort(parts[1..]);
    }
  }

  lemma ModifierNamesAre(m: Modifiers)
    ensures |ModifierNames(m)| <= 4 && (m != NO_MODIFIERS ==> ModifierNames(m) != [])
    ensures forall p :: p in ModifierNames(m) ==> p == "Alt" || p == "Ctrl" || p == "Shift" || p == "Cmd"
  {
  }

  /** Every spelling reads back as its key. */
  lemma SpellingParses(k: PresentationKey, darwin: bool)
    requires Valid(k)
    ensures Parse(Spelling(k), darwin) == Some(k)
  {
    hide Split, Join, WithModifiers, KeyCode, KeyName, ModifierNames, ByteLength;
    var names, name := ModifierNames(k.modifiers), KeyName(k.code);
    var parts := names + [name];
    ModifierNamesAre(k.modifiers);
    ModifiersRead(k.modifiers, darwin);
    KeyReads(k.code);
    forall p | p in parts ensures '+' !in p && |p| <= 9 && forall i :: 0 <= i < |p| ==> p[i] < '\U{0080}' {
      if p == name {
        CapitalStays(p);
      }
    }
    SplitOfJoin(parts, '+');
    JoinIsShort(parts);
    AsciiBytes(Join(parts, '+'));
    assert parts[..|parts| - 1] == names;
  }

  /** The parser yields exactly the valid keys, so two accelerators name the same shortcut exactly
      when they have the same spelling. */
  lemma ParseYieldsValid(a: string, darwin: bool)
    ensures Parse(a, darwin).Some? ==> Valid(Parse(a, darwin).value)
  {
    hide Split, WithModifiers, KeyCode, ByteLength;
    var parts := Split(a, '+');
    if Parse(a, darwin).Some? {
      WithModifiersGrows(NO_MODIFIERS, parts[..|parts| - 1], darwin);
      KeyCodesAreValid(parts[|parts| - 1]);
    }
  }

  lemma AliasesShareSpelling(a: string, b: string, darwin: bool)
    requires Parse(a, darwin).Some? && Parse(b, darwin).Some?
    ensures Valid(Parse(a, darwin).value) && Valid(Parse(b, darwin).value)
    ensures Parse(a, darwin) == Parse(b, darwin) <==> Spelling(Parse(a, darwin).value) == Spelling(Parse(b, darwin).value)
  {
    hide Parse, Spelling;
    ParseYieldsValid(a, darwin);
    ParseYieldsValid(b, darwin);
    SpellingParses(Parse(a, darwin).value, darwin);
    SpellingParses(Parse(b, darwin).value, darwin);
  }

  /** Two actual shortcuts share a native id after 2^32 + 1 attempts. */
  lemma IdReuseHappens(darwin: bool) returns (commands: seq<Command>)
    ensures Attempts(commands) == TWO_32 + 1
    ensures Tied(EMPTY, darwin) && !Inv(Run(EMPTY, commands, darwin), darwin)
  {
    hide Parse, Spelling, Injective, Tied, Native;
    var shift := NO_MODIFIERS.(shift := true);
    var a, b := PresentationKey(65, shift), PresentationKey(66, shift);
    SpellingParses(a, darwin);
    SpellingParses(b, darwin);
    commands := OneAttemptMore(Spelling(a), Spelling(b), darwin);
  }
}
