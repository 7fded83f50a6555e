/** Text helpers shared by the path and shortcut models: trimming, lengths in bytes, splitting and
    joining at a separator, and hexadecimal digits. */
module Texts {
  import opened Options

  function Nibble(c: char): (n: Option<nat>)
    ensures n.Some? ==> n.value < 16
  {
    if '0' <= c <= '9' then Some((c - '0') as nat)
    else if 'a' <= c <= 'f' then Some((c - 'a') as nat + 10)
    else if 'A' <= c <= 'F' then Some((c - 'A') as nat + 10)
    else None
  }

  predicate Space(c: char) {
    '\t' <= c <= '\r' || c == ' ' || c == '\U{0085}' || c == '\U{00A0}' || c == '\U{1680}' ||
    '\U{2000}' <= c <= '\U{200A}' || c == '\U{2028}' || c == '\U{2029}' || c == '\U{202F}' || c == '\U{205F}' || c == '\U{3000}'
  }

  function TrimSpace(s: string): string {
    if s == "" then ""
    else if Space(s[0]) then TrimSpace(s[1..])
    else if Space(s[|s| - 1]) then TrimSpace(s[..|s| - 1])
    else s
  }

  /** The characters that count as space, one by one. */
  lemma SpaceMeans(c: char)
    ensures Space(c) <==> c in ['\t', '\n', '\U{000B}', '\U{000C}', '\r', ' ', '\U{0085}', '\U{00A0}', '\U{1680}', '\U{2000}',
      '\U{2001}', '\U{2002}', '\U{2003}', '\U{2004}', '\U{2005}', '\U{2006}', '\U{2007}', '\U{2008}', '\U{2009}', '\U{200A}',
      '\U{2028}', '\U{2029}', '\U{202F}', '\U{205F}', '\U{3000}']
  {
  }

  predicate AllSpace(s: string) {
    forall i :: 0 <= i < |s| ==> Space(s[i])
  }

  /** Text that trimming leaves as it is. */
  predicate Tight(s: string) {
    s != "" ==> !Space(s[0]) && !Space(s[|s| - 1])
  }

  /** Trimming takes off space at both ends and nothing else. */
  lemma {:induction false} TrimMeans(s: string) returns (left: string, right: string)
    ensures s == left + TrimSpace(s) + right && AllSpace(left) && AllSpace(right) && Tight(TrimSpace(s))
    decreases |s|
  {
    hide Space;
    left, right := "", "";
    if s != "" && Space(s[0]) {
      var l, r := TrimMeans(s[1..]);
      var t := TrimSpace(s[1..]);
      assert s == [s[0]] + (l + t + r) == ([s[0]] + l) + t + r;
      left, right := [s[0]] + l, r;
    } else if s != "" && Space(s[|s| - 1]) {
      var l, r := TrimMeans(s[..|s| - 1]);
      var t := TrimSpace(s[..|s| - 1]);
      assert s == (l + t + r) + [s[|s| - 1]] == l + t + (r + [s[|s| - 1]]);
      left, right := l, r + [s[|s| - 1]];
    } else {
      assert s == "" + s + "";
    }
  }

  /** There is one way to do that. */
  lemma {:induction false} TrimUnique(left: string, t: string, right: string)
    requires AllSpace(left) && AllSpace(right) && Tight(t)
    ensures TrimSpace(left + t + right) == t
    decreases |left| + |right|
  {
    var s := left + t + right;
    if left != "" {
      assert s[1..] == left[1..] + t + right;
      TrimUnique(left[1..], t, right);
    } else if right != "" {
      var front := right[..|right| - 1];
      assert s[..|s| - 1] == left + t + front;
      if t == "" {
        assert s[1..] == left + t + right[1..];
        TrimUnique(left, t, right[1..]);
      } else {
        TrimUnique(left, t, front);
      }
    } else {
      assert s == t;
    }
  }

  /** The length in UTF-8, which is what the source's limits count. */
  function ByteLength(s: string): nat {
    if s == "" then 0 else Width(s[0]) + ByteLength(s[1..])
  }

  function Width(c: char): nat {
    if c < '\U{0080}' then 1 else if c < '\U{0800}' then 2 else if c < '\U{10000}' then 3 else 4
  }

  /** A character in UTF-8, as numbers: section 3 of RFC 3629. */
  function Utf8(c: char): seq<nat> {
    var n := c as nat;
    if n < 0x80 then [n]
    else if n < 0x800 then [0xC0 + n / 0x40, 0x80 + n % 0x40]
    else if n < 0x10000 then [0xE0 + n / 0x1000, 0x80 + n / 0x40 % 0x40, 0x80 + n % 0x40]
    else [0xF0 + n / 0x40000, 0x80 + n / 0x1000 % 0x40, 0x80 + n / 0x40 % 0x40, 0x80 + n % 0x40]
  }

  function Utf8All(s: string): seq<nat> {
    if s == "" then [] else Utf8(s[0]) + Utf8All(s[1..])
  }

  /** The length counted is the length of the encoding. */
  lemma {:induction false} ByteLengthIsUtf8(s: string)
    ensures ByteLength(s) == |Utf8All(s)|
  {
    if s != "" {
      ByteLengthIsUtf8(s[1..]);
    }
  }

  lemma {:induction false} ByteLengthAppend(a: string, b: string)
    ensures ByteLength(a + b) == ByteLength(a) + ByteLength(b)
  {
    if a == "" {
      assert a + b == b;
    } else {
      assert (a + b)[1..] == a[1..] + b;
      ByteLengthAppend(a[1..], b);
    }
  }

  /** The pieces of a text between separators. */
  function Split(s: string, sep: char): (parts: seq<string>)
    ensures parts != []
  {
    if s == "" then [""]
    else if s[0] == sep then [""] + Split(s[1..], sep)
    else Glue(s[0], Split(s[1..], sep))
  }

  function Glue(c: char, parts: seq<string>): (r: seq<string>)
    requires parts != []
    ensures r != []
  {
    [[c] + parts[0]] + parts[1..]
  }

  function Join(parts: seq<string>, sep: char): string
    requires parts != []
  {
    if |parts| == 1 then parts[0] else parts[0] + [sep] + Join(parts[1..], sep)
  }

  lemma JoinOfGlue(c: char, parts: seq<string>, sep: char)
    requires parts != []
    ensures Join(Glue(c, parts), sep) == [c] + Join(parts, sep)
  {
    assert Glue(c, parts)[1..] == parts[1..];
    if |parts| > 1 {
      var rest := Join(parts[1..], sep);
      assert [c] + parts[0] + [sep] + rest == [c] + (parts[0] + [sep] + rest);
    }
  }

  lemma JoinOfEmpty(parts: seq<string>, sep: char)
    requires parts != []
    ensures Join([""] + parts, sep) == [sep] + Join(parts, sep)
  {
    assert ([""] + parts)[1..] == parts;
  }

  lemma {:induction false} JoinOfSplit(s: string, sep: char)
    ensures Join(Split(s, sep), sep) == s
  {
    hide Join, Glue;
    if s == "" {
      JoinOfOne("", sep);
    } else {
      JoinOfSplit(s[1..], sep);
      JoinOfEmpty(Split(s[1..], sep), sep);
      JoinOfGlue(s[0], Split(s[1..], sep), sep);
      assert s == [s[0]] + s[1..];
    }
  }

  lemma JoinOfOne(part: string, sep: char)
    ensures Join([part], sep) == part
  {
  }

  lemma GlueAppend(c: char, a: seq<string>, b: seq<string>)
    requires a != []
    ensures Glue(c, a + b) == Glue(c, a) + b
  {
    assert (a + b)[1..] == a[1..] + b;
  }

  lemma {:induction false} SplitAt(a: string, b: string, sep: char)
    ensures Split(a + [sep] + b, sep) == Split(a, sep) + Split(b, sep)
  {
    hide Glue;
    var s := a + [sep] + b;
    if a == "" {
      assert s[1..] == b;
    } else {
      assert s[0] == a[0] && s[1..] == a[1..] + [sep] + b;
      SplitAt(a[1..], b, sep);
      GlueAppend(a[0], Split(a[1..], sep), Split(b, sep));
    }
  }

  lemma {:induction false} JoinAppend(a: seq<string>, b: seq<string>, sep: char)
    requires a != [] && b != []
    ensures Join(a + b, sep) == Join(a, sep) + [sep] + Join(b, sep)
  {
    if |a| == 1 {
      assert (a + b)[1..] == b;
    } else {
      assert (a + b)[1..] == a[1..] + b;
      JoinAppend(a[1..], b, sep);
      var (x, y, z) := (a[0], Join(a[1..], sep), Join(b, sep));
      assert x + [sep] + (y + [sep] + z) == (x + [sep] + y) + [sep] + z;
    }
  }

  lemma {:induction false} SplitOfPlain(s: string, sep: char)
    requires sep !in s
    ensures Split(s, sep) == [s]
  {
    if s != "" {
      SplitOfPlain(s[1..], sep);
      assert s == [s[0]] + s[1..];
    }
  }

  /** Joining pieces without the separator and splitting again gives them back. */
  lemma {:induction false} SplitOfJoin(parts: seq<string>, sep: char)
    requires parts != [] && forall p :: p in parts ==> sep !in p
    ensures Split(Join(parts, sep), sep) == parts
  {
    SplitOfPlain(parts[0], sep);
    if |parts| == 1 {
      assert parts == [parts[0]];
    } else {
      SplitOfJoin(parts[1..], sep);
      SplitAt(parts[0], Join(parts[1..], sep), sep);
      assert parts == [parts[0]] + parts[1..];
    }
  }
}
