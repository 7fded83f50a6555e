/** The names an accelerator is made of: every modifier alias on either platform, every key name,
    and which accelerators are refused (shellagent/desktop/presentation_model.go). */
module ShortcutNames {
  import opened Options
  import opened Texts
  import opened Shortcuts

  // ----- words, whatever their case and the space around them

  /** The character in lower case is `l`; two letters outside ASCII fold to ASCII ones. */
  predicate LowersTo(c: char, l: char) {
    if 'a' <= l <= 'z' then c == l || c == l - 'a' + 'A' || (c == '\U{212A}' && l == 'k') || (c == '\U{0130}' && l == 'i')
    else c == l && !('A' <= c <= 'Z') && c != '\U{212A}' && c != '\U{0130}'
  }

  predicate UppersTo(c: char, u: char) {
    if 'A' <= u <= 'Z' then c == u || c == u - 'A' + 'a' || (c == '\U{017F}' && u == 'S') || (c == '\U{0131}' && u == 'I')
    else c == u && !('a' <= c <= 'z') && c != '\U{017F}' && c != '\U{0131}'
  }

  /** The part is the word in some case, with space around it. */
  ghost predicate Reads(part: string, word: string) {
    exists left: string, right: string, middle: string ::
      && part == left + middle + right && AllSpace(left) && AllSpace(right) && |middle| == |word|
      && forall i :: 0 <= i < |word| ==> LowersTo(middle[i], word[i])
  }

  ghost predicate ReadsKey(part: string, word: string) {
    exists left: string, right: string, middle: string ::
      && part == left + middle + right && AllSpace(left) && AllSpace(right) && |middle| == |word|
      && forall i :: 0 <= i < |word| ==> UppersTo(middle[i], word[i])
  }

  lemma CaseMeans(c: char, l: char)
    ensures LowersTo(c, l) <==> Lower(c) == l
    ensures UppersTo(c, l) <==> Upper(c) == l
  {
  }

  /** Space has no case. */
  lemma SpaceKeepsCase(c: char)
    ensures Space(c) ==> Lower(c) == c && Upper(c) == c
  {
  }

  /** A part says a word exactly when the source's trimming and folding give it. */
  lemma ReadsMeans(part: string, word: string)
    requires Tight(word)
    ensures Reads(part, word) <==> ToLower(TrimSpace(part)) == word
  {
    hide Space, Lower, Upper, TrimSpace, LowersTo;
    forall c, l ensures LowersTo(c, l) <==> Lower(c) == l {
      CaseMeans(c, l);
    }
    forall c: char ensures Space(c) ==> Lower(c) == c {
      SpaceKeepsCase(c);
    }
    if left: string, right: string, middle: string :|
      && part == left + middle + right && AllSpace(left) && AllSpace(right) && |middle| == |word|
      && forall i :: 0 <= i < |word| ==> LowersTo(middle[i], word[i]) {
      TrimUnique(left, middle, right);
      assert ToLower(middle) == word;
    }
    var left, right := TrimMeans(part);
    assert part == left + TrimSpace(part) + right;
  }

  lemma ReadsKeyMeans(part: string, word: string)
    requires Tight(word)
    ensures ReadsKey(part, word) <==> ToUpper(TrimSpace(part)) == word
  {
    hide Space, Lower, Upper, TrimSpace, UppersTo;
    forall c, l ensures UppersTo(c, l) <==> Upper(c) == l {
      CaseMeans(c, l);
    }
    forall c: char ensures Space(c) ==> Upper(c) == c {
      SpaceKeepsCase(c);
    }
    if left: string, right: string, middle: string :|
      && part == left + middle + right && AllSpace(left) && AllSpace(right) && |middle| == |word|
      && forall i :: 0 <= i < |word| ==> UppersTo(middle[i], word[i]) {
      TrimUnique(left, middle, right);
      assert ToUpper(middle) == word;
    }
    var left, right := TrimMeans(part);
    assert part == left + TrimSpace(part) + right;
  }

  // ----- modifiers

  ghost predicate SaysAlt(part: string) {
    Reads(part, "alt") || Reads(part, "option")
  }

  /** Two names mean Cmd on macOS and Ctrl elsewhere. */
  ghost predicate SaysEither(part: string) {
    Reads(part, "commandorcontrol") || Reads(part, "cmdorctrl")
  }

  ghost predicate SaysCtrl(part: string, darwin: bool) {
    Reads(part, "ctrl") || Reads(part, "control") || (SaysEither(part) && !darwin)
  }

  ghost predicate SaysShift(part: string) {
    Reads(part, "shift")
  }

  ghost predicate SaysCmd(part: string, darwin: bool) {
    Reads(part, "cmd") || Reads(part, "command") || Reads(part, "super") || Reads(part, "meta") || (SaysEither(part) && darwin)
  }

  ghost predicate SaysModifier(part: string, darwin: bool) {
    SaysAlt(part) || SaysCtrl(part, darwin) || SaysShift(part) || SaysCmd(part, darwin)
  }

  lemma WordsAreTight()
    ensures forall w :: w in {"alt", "option", "ctrl", "control", "shift", "cmd"} ==> Tight(w)
    ensures forall w :: w in {"command", "super", "meta", "commandorcontrol", "cmdorctrl"} ==> Tight(w)
  {
  }

  /** A part adds the modifier it says, in any case and with space around it, and no other; a part that
      says none is refused. */
  lemma ModifierMeans(m: Modifiers, part: string, darwin: bool)
    ensures WithModifier(m, part, darwin) ==
      if !SaysModifier(part, darwin) then None
      else Some(Modifiers(m.alt || SaysAlt(part), m.ctrl || SaysCtrl(part, darwin), m.shift || SaysShift(part),
        m.cmd || SaysCmd(part, darwin)))
  {
    hide Reads, ToLower, TrimSpace, Tight;
    WordsAreTight();
    ReadsMeans(part, "alt");
    ReadsMeans(part, "option");
    ReadsMeans(part, "ctrl");
    ReadsMeans(part, "control");
    ReadsMeans(part, "shift");
    ReadsMeans(part, "cmd");
    ReadsMeans(part, "command");
    ReadsMeans(part, "super");
    ReadsMeans(part, "meta");
    ReadsMeans(part, "commandorcontrol");
    ReadsMeans(part, "cmdorctrl");
  }

  lemma {:induction false} ModifiersMean(m: Modifiers, parts: seq<string>, darwin: bool)
    ensures WithModifiers(m, parts, darwin).Some? <==> forall p :: p in parts ==> SaysModifier(p, darwin)
    ensures WithModifiers(m, parts, darwin).Some? ==>
      WithModifiers(m, parts, darwin).value == Modifiers(
        m.alt || exists p :: p in parts && SaysAlt(p), m.ctrl || exists p :: p in parts && SaysCtrl(p, darwin),
        m.shift || exists p :: p in parts && SaysShift(p), m.cmd || exists p :: p in parts && SaysCmd(p, darwin))
    decreases |parts|
  {
    hide SaysModifier, SaysAlt, SaysCtrl, SaysShift, SaysCmd, WithModifier;
    if parts != [] {
      assert parts == [parts[0]] + parts[1..];
      assert forall p :: p in parts <==> p == parts[0] || p in parts[1..];
      ModifierMeans(m, parts[0], darwin);
      if SaysModifier(parts[0], darwin) {
        ModifiersMean(WithModifier(m, parts[0], darwin).value, parts[1..], darwin);
      }
    }
  }

  // ----- keys

  /** Every key name and its code. */
  const KEY_NAMES := [("SPACE", 32), ("TAB", 9), ("ENTER", 13), ("RETURN", 13), ("ESC", 27), ("ESCAPE", 27), ("BACKSPACE", 8),
    ("DELETE", 46), ("INSERT", 45), ("HOME", 36), ("END", 35), ("PAGEUP", 33), ("PAGEDOWN", 34), ("LEFT", 37), ("UP", 38),
    ("RIGHT", 39), ("DOWN", 40), ("PLUS", 187), ("MINUS", 189), ("COMMA", 188), ("PERIOD", 190)]

  /** A number in decimal digits, whatever zeros it begins with. */
  lemma {:induction false} DigitsMean(d: string)
    ensures Digits(d).Some? <==> d != "" && forall i :: 0 <= i < |d| ==> '0' <= d[i] <= '9'
    ensures forall c: char :: '0' <= c <= '9' ==> Digits([c]) == Some((c - '0') as nat)
    ensures forall c: char :: '0' <= c <= '9' && Digits(d).Some? ==> Digits(d + [c]) == Some(10 * Digits(d).value + (c - '0') as nat)
  {
    if |d| > 1 {
      DigitsMean(d[..|d| - 1]);
      assert d == d[..|d| - 1] + [d[|d| - 1]];
    }
    forall c: char | '0' <= c <= '9' && Digits(d).Some?
      ensures Digits(d + [c]) == Some(10 * Digits(d).value + (c - '0') as nat)
    {
      assert (d + [c])[..|d|] == d;
    }
  }

  /** The part is a letter or a digit, F and a number from 1 to 20, or a key name, in any case and with
      space around it, and this is its code. */
  ghost predicate NamesKey(part: string, code: nat) {
    || (exists u: char :: Plain(u) && ReadsKey(part, [u]) && code == u as nat)
    || (exists d: string :: Digits(d).Some? && 1 <= Digits(d).value <= 20 && ReadsKey(part, "F" + d) && code == 111 + Digits(d).value)
    || (exists i :: 0 <= i < |KEY_NAMES| && ReadsKey(part, KEY_NAMES[i].0) && code == KEY_NAMES[i].1)
  }

  lemma KeyWord(part: string, word: string)
    requires word != "" && forall i :: 0 <= i < |word| ==> Plain(word[i])
    ensures ReadsKey(part, word) <==> ToUpper(TrimSpace(part)) == word
  {
    ReadsKeyMeans(part, word);
  }

  lemma NamesArePlain(i: nat)
    requires i < |KEY_NAMES|
    ensures KEY_NAMES[i].0 != "" && forall k :: 0 <= k < |KEY_NAMES[i].0| ==> Plain(KEY_NAMES[i].0[k])
    ensures |KEY_NAMES[i].0| > 1 && KEY_NAMES[i].0[0] != 'F'
  {
  }

  lemma NameCodes(key: string)
    ensures forall i :: 0 <= i < |KEY_NAMES| && key == KEY_NAMES[i].0 ==> NamedKey(key) == KEY_NAMES[i].1
    ensures NamedKey(key) != 0 ==> exists i :: 0 <= i < |KEY_NAMES| && key == KEY_NAMES[i].0
  {
    var n := KEY_NAMES;
    if forall i :: 0 <= i < |n| ==> key != n[i].0 {
      assert key != n[0].0 && key != n[1].0 && key != n[2].0 && key != n[3].0 && key != n[4].0 && key != n[5].0 && key != n[6].0;
      assert key != n[7].0 && key != n[8].0 && key != n[9].0 && key != n[10].0 && key != n[11].0 && key != n[12].0 && key != n[13].0;
      assert key != n[14].0 && key != n[15].0 && key != n[16].0 && key != n[17].0 && key != n[18].0 && key != n[19].0 && key != n[20].0;
    }
  }

  /** An accelerator's last part is understood exactly when it names a key, and gives its code. */
  lemma KeyMeans(part: string, code: nat)
    requires code != 0
    ensures KeyCode(part) == code <==> NamesKey(part, code)
  {
    hide NamedKey, ReadsKey, ToUpper, TrimSpace, Digits;
    var key := ToUpper(TrimSpace(part));
    NameCodes(key);
    forall i: nat | i < |KEY_NAMES| ensures ReadsKey(part, KEY_NAMES[i].0) <==> key == KEY_NAMES[i].0
      ensures |KEY_NAMES[i].0| > 1 && KEY_NAMES[i].0[0] != 'F'
    {
      NamesArePlain(i);
      KeyWord(part, KEY_NAMES[i].0);
    }
    forall u: char | Plain(u) ensures ReadsKey(part, [u]) <==> key == [u] {
      KeyWord(part, [u]);
    }
    forall d: string | Digits(d).Some? ensures ReadsKey(part, "F" + d) <==> key == "F" + d ensures d != "" {
      DigitsMean(d);
      KeyWord(part, "F" + d);
    }
    hide KEY_NAMES;
    if key != "" {
      assert key == [key[0]] + key[1..];
    }
  }

  // ----- whole accelerators

  ghost predicate NamesSomeKey(part: string) {
    exists code :: code != 0 && NamesKey(part, code)
  }

  /** An accelerator is accepted exactly when it has two parts or more, is at most 128 bytes long, all
      its parts but the last say modifiers and the last names a key; it stands for all those modifiers
      and that key. */
  lemma AcceleratorMeans(parts: seq<string>, darwin: bool)
    requires parts != [] && forall p :: p in parts ==> '+' !in p
    ensures var (names, last) := (parts[..|parts| - 1], parts[|parts| - 1]);
      var key := Parse(Join(parts, '+'), darwin);
      && (key.Some? <==>
        && names != [] && ByteLength(Join(parts, '+')) <= 128
        && (forall p :: p in names ==> SaysModifier(p, darwin)) && NamesSomeKey(last))
      && (key.Some? ==> NamesKey(last, key.value.code) && key.value.modifiers == Modifiers(
        exists p :: p in names && SaysAlt(p), exists p :: p in names && SaysCtrl(p, darwin),
        exists p :: p in names && SaysShift(p), exists p :: p in names && SaysCmd(p, darwin)))
  {
    hide Split, Join, WithModifiers, KeyCode, ByteLength, NamesKey, SaysModifier, SaysAlt, SaysCtrl, SaysShift, SaysCmd;
    SplitOfJoin(parts, '+');
    var (names, last) := (parts[..|parts| - 1], parts[|parts| - 1]);
    ModifiersMean(NO_MODIFIERS, names, darwin);
    forall code: nat | code != 0 ensures KeyCode(last) == code <==> NamesKey(last, code) {
      KeyMeans(last, code);
    }
    assert KeyCode(last) != 0 ==> NamesKey(last, KeyCode(last));
  }
}
