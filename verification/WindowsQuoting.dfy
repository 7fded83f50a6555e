/** Quoting an argument list into one Windows command line
    (shellagent/desktop/user_session_windows.go), against the rules of Microsoft's "Parsing C
    command-line arguments". */
module WindowsQuoting {

  /** What ranging over a Go text gives: its runes, and each byte that is not part of one. */
  datatype Unit = Rune(c: char) | Broken(value: nat)

  type text = seq<Unit>

  const QUOTE := Rune('"')
  const BACKSLASH := Rune('\\')
  const SPACE := Rune(' ')
  const TAB := Rune('\t')
  const NEWLINE := Rune('\n')
  const VERTICAL_TAB := Rune('\U{000B}')
  const REPLACEMENT := Rune('\U{FFFD}')

  /** A byte that is not part of a rune is written as the replacement character. */
  function Written(u: Unit): Unit {
    if u.Broken? then REPLACEMENT else u
  }

  function Repaired(s: text): (r: text)
    ensures |r| == |s|
    ensures forall i :: 0 <= i < |s| ==> r[i] == Written(s[i])
  {
    seq(|s|, i requires 0 <= i < |s| => Written(s[i]))
  }

  /** Every byte belongs to a rune. */
  predicate WellFormed(s: text) {
    forall i :: 0 <= i < |s| ==> s[i].Rune?
  }

  lemma RepairedExactly(s: text)
    ensures Repaired(s) == s <==> WellFormed(s)
  {
    if !WellFormed(s) {
      var i :| 0 <= i < |s| && s[i].Broken?;
      assert Repaired(s)[i] != s[i];
    }
  }

  lemma RepairedCons(s: text)
    requires s != []
    ensures Repaired(s) == [Written(s[0])] + Repaired(s[1..])
  {
  }

  function Backslashes(n: nat): (s: text)
    ensures |s| == n && forall i :: 0 <= i < n ==> s[i] == BACKSLASH
  {
    seq(n, _ => BACKSLASH)
  }

  predicate Special(c: Unit) {
    c == SPACE || c == TAB || c == NEWLINE || c == VERTICAL_TAB || c == QUOTE
  }

  predicate NeedsQuotes(arg: text) {
    exists i :: 0 <= i < |arg| && Special(arg[i])
  }

  // ----- the quoting, as a function

  /** What is written for the rest of an argument after `pending` backslashes, with the closing quote. */
  function Body(rest: text, pending: nat): text {
    if rest == [] then Backslashes(2 * pending) + [QUOTE]
    else if rest[0] == BACKSLASH then Body(rest[1..], pending + 1)
    else if rest[0] == QUOTE then Backslashes(2 * pending + 1) + [QUOTE] + Body(rest[1..], 0)
    else Backslashes(pending) + [Written(rest[0])] + Body(rest[1..], 0)
  }

  function Quote(arg: text): (q: text)
    ensures q != []
  {
    if arg == [] then [QUOTE, QUOTE] else if !NeedsQuotes(arg) then arg else [QUOTE] + Body(arg, 0)
  }

  function Join(args: seq<text>): text {
    if args == [] then []
    else if |args| == 1 then Quote(args[0])
    else Quote(args[0]) + [SPACE] + Join(args[1..])
  }

  // ----- Microsoft's argument rules

  /** The characters that end an unquoted argument; the rules name space and tab. */
  predicate Delimiters(d: set<Unit>) {
    {SPACE, TAB} <= d <= {SPACE, TAB, NEWLINE, VERTICAL_TAB}
  }

  function Leading(s: text): (n: nat)
    ensures n <= |s|
    ensures forall i :: 0 <= i < n ==> s[i] == BACKSLASH
    ensures n < |s| ==> s[n] != BACKSLASH
  {
    if s != [] && s[0] == BACKSLASH then 1 + Leading(s[1..]) else 0
  }

  /** One argument and what follows it. An even run of backslashes before a quote gives half as
      many and a delimiter quote, an odd run gives half as many and a literal quote, other runs
      stand for themselves; two quotes inside quotes are one literal quote. */
  function Token(s: text, quoted: bool, d: set<Unit>): (r: (text, text))
    ensures |r.1| <= |s|
    decreases |s|
  {
    var n := Leading(s);
    if n == |s| then (Backslashes(n), [])
    else if s[n] == QUOTE then
      if n % 2 == 1 then
        var (arg, rest) := Token(s[n + 1..], quoted, d);
        (Backslashes(n / 2) + [QUOTE] + arg, rest)
      else if quoted && n + 1 < |s| && s[n + 1] == QUOTE then
        var (arg, rest) := Token(s[n + 2..], quoted, d);
        (Backslashes(n / 2) + [QUOTE] + arg, rest)
      else
        var (arg, rest) := Token(s[n + 1..], !quoted, d);
        (Backslashes(n / 2) + arg, rest)
    else if !quoted && s[n] in d then (Backslashes(n), s[n..])
    else
      var (arg, rest) := Token(s[n + 1..], quoted, d);
      (Backslashes(n) + [s[n]] + arg, rest)
  }

  lemma TokenShrinks(s: text, d: set<Unit>)
    requires s != [] && s[0] !in d
    ensures |Token(s, false, d).1| < |s|
  {
    hide Backslashes;
    var n := Leading(s);
    assert n < |s| ==> |Token(s[n + 1..], false, d).1| < |s| && |Token(s[n + 1..], true, d).1| < |s|;
  }

  function Skip(s: text, d: set<Unit>): (r: text)
    ensures |r| <= |s| && (r != [] ==> r[0] !in d)
  {
    if s != [] && s[0] in d then Skip(s[1..], d) else s
  }

  function Arguments(s: text, d: set<Unit>): seq<text>
    decreases |s|
  {
    var start := Skip(s, d);
    if start == [] then []
    else
      var (arg, rest) := Token(start, false, d);
      TokenShrinks(start, d);
      [arg] + Arguments(rest, d)
  }

  /** The program name: quotes toggle and are dropped, and backslashes stand for themselves. */
  function Program(s: text, quoted: bool, d: set<Unit>): (r: (text, text))
    ensures forall i :: 0 <= i < |r.0| ==> r.0[i] != QUOTE
  {
    if s == [] then ([], [])
    else if s[0] == QUOTE then Program(s[1..], !quoted, d)
    else if !quoted && s[0] in d then ([], s)
    else
      var (name, rest) := Program(s[1..], quoted, d);
      ([s[0]] + name, rest)
  }

  /** A whole command line: the program name, then arguments. */
  function CommandLine(s: text, d: set<Unit>): seq<text> {
    var (name, rest) := Program(s, false, d);
    [name] + Arguments(rest, d)
  }

  // ----- one argument

  /** Where a quoted argument may end: at the end of the line or before a separating space. */
  predicate Ends(tail: text) {
    tail == [] || tail[0] == SPACE
  }

  lemma {:induction false} LeadingOfRun(n: nat, t: text)
    requires t == [] || t[0] != BACKSLASH
    ensures Leading(Backslashes(n) + t) == n
  {
    if n == 0 {
      assert Backslashes(n) + t == t;
    } else {
      assert (Backslashes(n) + t)[1..] == Backslashes(n - 1) + t;
      LeadingOfRun(n - 1, t);
    }
  }

  /** A run of backslashes before something that is neither a backslash nor a quote nor a
      delimiter, and before the end. */
  lemma TokenPlain(n: nat, c: Unit, t: text, quoted: bool, d: set<Unit>)
    requires c != BACKSLASH && c != QUOTE && (quoted || c !in d)
    ensures Token(Backslashes(n) + ([c] + t), quoted, d) == (Backslashes(n) + [c] + Token(t, quoted, d).0, Token(t, quoted, d).1)
  {
    var s := Backslashes(n) + ([c] + t);
    LeadingOfRun(n, [c] + t);
    assert s[n] == c && s[n + 1..] == t;
  }

  lemma TokenEnds(n: nat, tail: text, d: set<Unit>)
    requires Ends(tail) && Delimiters(d)
    ensures Token(Backslashes(n) + tail, false, d) == (Backslashes(n), tail)
  {
    var s := Backslashes(n) + tail;
    LeadingOfRun(n, tail);
    assert s[n..] == tail;
    if tail == [] {
      assert s == Backslashes(n);
    } else {
      assert s[n] == SPACE;
    }
  }

  /** A run of backslashes before a quote, inside quotes: a literal quote or the closing one. */
  lemma TokenQuote(n: nat, t: text, d: set<Unit>)
    ensures n % 2 == 1 ==>
      Token(Backslashes(n) + ([QUOTE] + t), true, d) == (Backslashes(n / 2) + [QUOTE] + Token(t, true, d).0, Token(t, true, d).1)
    ensures n % 2 == 0 && (t == [] || t[0] != QUOTE) ==>
      Token(Backslashes(n) + ([QUOTE] + t), true, d) == (Backslashes(n / 2) + Token(t, false, d).0, Token(t, false, d).1)
  {
    var s := Backslashes(n) + ([QUOTE] + t);
    LeadingOfRun(n, [QUOTE] + t);
    assert s[n] == QUOTE && s[n + 1..] == t;
    assert n + 1 < |s| ==> s[n + 1] == t[0];
  }

  /** Two quotes inside quotes, after an even run of backslashes, are one literal quote. */
  lemma TokenDoubled(n: nat, t: text, d: set<Unit>)
    requires n % 2 == 0
    ensures Token(Backslashes(n) + ([QUOTE, QUOTE] + t), true, d) ==
      (Backslashes(n / 2) + [QUOTE] + Token(t, true, d).0, Token(t, true, d).1)
  {
    var s := Backslashes(n) + ([QUOTE, QUOTE] + t);
    LeadingOfRun(n, [QUOTE, QUOTE] + t);
    assert s[n] == QUOTE && s[n + 1] == QUOTE && s[n + 2..] == t;
  }

  lemma Regroup(a: text, b: text, c: text, t: text)
    ensures a + b + c + t == a + (b + (c + t))
  {
  }

  lemma {:induction false} BodyParses(rest: text, pending: nat, tail: text, d: set<Unit>)
    requires Ends(tail) && Delimiters(d)
    ensures Token(Body(rest, pending) + tail, true, d) == (Backslashes(pending) + Repaired(rest), tail)
    decreases |rest|
  {
    hide Token, Delimiters, Ends, Repaired, Backslashes;
    if rest == [] {
      BodyEnds(pending, tail, d);
    } else if rest[0] == BACKSLASH {
      BodyParses(rest[1..], pending + 1, tail, d);
      PastBackslash(rest, pending);
    } else {
      BodyParses(rest[1..], 0, tail, d);
      BodyPastUnit(rest, pending, tail, d);
      PastUnit(rest, pending, []);
    }
  }

  lemma PastBackslash(rest: text, pending: nat)
    requires rest != [] && rest[0] == BACKSLASH
    ensures Backslashes(pending + 1) + Repaired(rest[1..]) == Backslashes(pending) + Repaired(rest)
  {
    RepairedCons(rest);
  }

  lemma PastUnit(rest: text, pending: nat, end: text)
    requires rest != []
    ensures Backslashes(pending) + [Written(rest[0])] + (Backslashes(0) + Repaired(rest[1..]) + end) ==
      Backslashes(pending) + Repaired(rest) + end
    ensures Backslashes(pending) + [Written(rest[0])] + (Backslashes(0) + Repaired(rest[1..])) == Backslashes(pending) + Repaired(rest)
  {
    RepairedCons(rest);
    hide Repaired;
    var tail := Repaired(rest[1..]);
    assert Backslashes(0) + tail == tail;
    assert Backslashes(pending) + [Written(rest[0])] + tail == Backslashes(pending) + Repaired(rest);
    assert Backslashes(pending) + [Written(rest[0])] + (tail + end) == Backslashes(pending) + [Written(rest[0])] + tail + end;
  }

  lemma BodyEnds(pending: nat, tail: text, d: set<Unit>)
    requires Ends(tail) && Delimiters(d)
    ensures Token(Body([], pending) + tail, true, d) == (Backslashes(pending) + Repaired([]), tail)
  {
    hide Token;
    assert Body([], pending) + tail == Backslashes(2 * pending) + ([QUOTE] + tail);
    TokenQuote(2 * pending, tail, d);
    assert Backslashes(0) + tail == tail;
    TokenEnds(0, tail, d);
    assert Backslashes(pending) + [] == Backslashes(pending) + Repaired([]);
  }

  lemma BodyPastUnit(rest: text, pending: nat, tail: text, d: set<Unit>)
    requires rest != [] && rest[0] != BACKSLASH
    ensures
      var (arg, left) := Token(Body(rest[1..], 0) + tail, true, d);
      Token(Body(rest, pending) + tail, true, d) == (Backslashes(pending) + [Written(rest[0])] + arg, left)
  {
    hide Token, Backslashes;
    var more := Body(rest[1..], 0);
    if rest[0] == QUOTE {
      Regroup(Backslashes(2 * pending + 1), [QUOTE], more, tail);
      hide Body;
      TokenQuote(2 * pending + 1, more + tail, d);
    } else {
      Regroup(Backslashes(pending), [Written(rest[0])], more, tail);
      hide Body;
      TokenPlain(pending, Written(rest[0]), more + tail, true, d);
    }
  }

  lemma PlainSuffix(arg: text, n: nat)
    requires !NeedsQuotes(arg) && n <= |arg|
    ensures !NeedsQuotes(arg[n..])
    ensures n < |arg| ==> !Special(arg[n])
  {
    assert forall i :: 0 <= i < |arg[n..]| ==> arg[n..][i] == arg[n + i];
  }

  lemma {:induction false} PlainParses(arg: text, tail: text, d: set<Unit>)
    requires !NeedsQuotes(arg) && Ends(tail) && Delimiters(d)
    ensures Token(arg + tail, false, d) == (arg, tail)
    decreases |arg|
  {
    hide Token, NeedsQuotes, Ends;
    var n := Leading(arg);
    var run := Backslashes(n);
    assert arg[..n] == run;
    if n == |arg| {
      assert arg == run;
      TokenEnds(n, tail, d);
    } else {
      var t := arg[n + 1..];
      PlainSuffix(arg, n);
      PlainSuffix(arg, n + 1);
      hide Special, Leading;
      PlainParses(t, tail, d);
      PlainStep(arg, n, t, tail, d);
    }
  }

  lemma PlainStep(arg: text, n: nat, t: text, tail: text, d: set<Unit>)
    requires n < |arg| && arg[..n] == Backslashes(n) && t == arg[n + 1..] && arg[n] != BACKSLASH && !Special(arg[n]) && Delimiters(d)
    requires Token(t + tail, false, d) == (t, tail)
    ensures Token(arg + tail, false, d) == (arg, tail)
  {
    hide Token;
    assert arg == Backslashes(n) + [arg[n]] + t;
    hide Backslashes;
    Regroup(Backslashes(n), [arg[n]], t, tail);
    TokenPlain(n, arg[n], t + tail, false, d);
  }

  lemma Opening(t: text, d: set<Unit>)
    ensures Token([QUOTE] + t, false, d) == Token(t, true, d)
  {
    assert ([QUOTE] + t)[1..] == t;
    assert Backslashes(0) + Token(t, true, d).0 == Token(t, true, d).0;
  }

  lemma EmptyQuote(arg: text)
    requires arg == [] || NeedsQuotes(arg)
    ensures Quote(arg) == [QUOTE] + Body(arg, 0)
  {
    if arg == [] {
      assert Body(arg, 0) == Backslashes(0) + [QUOTE] == [QUOTE];
    }
  }

  /** What the program is given for an argument: quoting writes each stray byte as U+FFFD. */
  function Received(arg: text): text {
    if NeedsQuotes(arg) then Repaired(arg) else arg
  }

  lemma QuotedParses(arg: text, tail: text, d: set<Unit>)
    requires (arg == [] || NeedsQuotes(arg)) && Ends(tail) && Delimiters(d)
    ensures Token(Quote(arg) + tail, false, d) == (Repaired(arg), tail)
  {
    hide Token, Body, NeedsQuotes, Ends, Delimiters;
    EmptyQuote(arg);
    hide Quote;
    BodyParses(arg, 0, tail, d);
    assert Backslashes(0) + Repaired(arg) == Repaired(arg);
    Opening(Body(arg, 0) + tail, d);
    assert [QUOTE] + Body(arg, 0) + tail == [QUOTE] + (Body(arg, 0) + tail);
  }

  lemma QuoteParses(arg: text, tail: text, d: set<Unit>)
    requires Ends(tail) && Delimiters(d)
    ensures Token(Quote(arg) + tail, false, d) == (Received(arg), tail)
  {
    hide Token, Body, NeedsQuotes, Ends, Delimiters;
    if arg == [] || NeedsQuotes(arg) {
      QuotedParses(arg, tail, d);
      assert arg == [] ==> Repaired(arg) == arg;
    } else {
      PlainParses(arg, tail, d);
    }
  }

  lemma QuoteStarts(arg: text, d: set<Unit>)
    requires Delimiters(d)
    ensures Quote(arg)[0] !in d
  {
    if arg != [] && !NeedsQuotes(arg) {
      PlainSuffix(arg, 0);
    }
  }

  // ----- the whole line

  function Tail(args: seq<text>): text
    requires args != []
  {
    if |args| == 1 then [] else [SPACE] + Join(args[1..])
  }

  lemma TailArguments(args: seq<text>, d: set<Unit>)
    requires Delimiters(d) && args != []
    ensures Arguments(Tail(args), d) == Arguments(Join(args[1..]), d)
  {
    hide Token, Quote;
    if |args| > 1 {
      var rest := Join(args[1..]);
      assert ([SPACE] + rest)[1..] == rest;
    }
  }

  function ReceivedAll(args: seq<text>): (r: seq<text>)
    ensures |r| == |args| && forall i :: 0 <= i < |args| ==> r[i] == Received(args[i])
  {
    seq(|args|, i requires 0 <= i < |args| => Received(args[i]))
  }

  /** Parsing a quoted line by the argument rules gives every argument as received: empty arguments,
      spaces, line breaks, quotes and any runs of backslashes included, and whether or not line
      breaks and vertical tabs count as delimiters. */
  lemma {:induction false} QuotingReceived(args: seq<text>, d: set<Unit>)
    requires Delimiters(d)
    ensures Arguments(Join(args), d) == ReceivedAll(args)
  {
    hide Token, Quote, Delimiters, Received;
    if args != [] {
      var tail := Tail(args);
      assert Join(args) == Quote(args[0]) + tail;
      QuoteParses(args[0], tail, d);
      QuoteStarts(args[0], d);
      QuotingReceived(args[1..], d);
      TailArguments(args, d);
      assert ReceivedAll(args) == [Received(args[0])] + ReceivedAll(args[1..]);
    }
  }

  /** The round trip: the list comes back exactly when no argument that needs quotes has a byte
      outside a rune; so every list of valid texts does. */
  lemma QuotingRoundTrip(args: seq<text>, d: set<Unit>)
    requires Delimiters(d)
    ensures Arguments(Join(args), d) == args <==> forall arg :: arg in args && NeedsQuotes(arg) ==> WellFormed(arg)
  {
    hide Arguments, Join, NeedsQuotes, Repaired;
    QuotingReceived(args, d);
    forall arg | arg in args ensures Received(arg) == arg <==> (NeedsQuotes(arg) ==> WellFormed(arg)) {
      RepairedExactly(arg);
    }
    if Arguments(Join(args), d) == args {
      forall arg | arg in args ensures Received(arg) == arg {
        var i :| 0 <= i < |args| && args[i] == arg;
      }
    }
  }

  /** The program name is read by other rules: it survives exactly when it needs no quotes, or is a
      valid text that has no quote of its own and does not end in a backslash. */
  predicate ProgramSafe(arg: text) {
    !NeedsQuotes(arg) || (WellFormed(arg) && QUOTE !in arg && arg[|arg| - 1] != BACKSLASH)
  }

  lemma {:induction false} ProgramOfRun(n: nat, t: text, d: set<Unit>)
    ensures Program(Backslashes(n) + t, true, d) == (Backslashes(n) + Program(t, true, d).0, Program(t, true, d).1)
  {
    var s := Backslashes(n) + t;
    if n == 0 {
      assert s == t;
      assert Backslashes(0) + Program(t, true, d).0 == Program(t, true, d).0;
    } else {
      assert s[1..] == Backslashes(n - 1) + t;
      ProgramOfRun(n - 1, t, d);
      var name := Program(t, true, d).0;
      assert Backslashes(n) + name == [BACKSLASH] + (Backslashes(n - 1) + name);
    }
  }

  /** The backslashes a text ends with, after `pending` more before it. */
  function Trailing(rest: text, pending: nat): nat {
    if rest == [] then pending else if rest[0] == BACKSLASH then Trailing(rest[1..], pending + 1) else Trailing(rest[1..], 0)
  }

  lemma {:induction false} TrailingZero(rest: text, pending: nat)
    ensures Trailing(rest, pending) == 0 <==> (if rest == [] then pending == 0 else rest[|rest| - 1] != BACKSLASH)
  {
    if rest != [] {
      TrailingZero(rest[1..], if rest[0] == BACKSLASH then pending + 1 else 0);
    }
  }

  /** Trailing backslashes come out twice, everything else once. */
  lemma {:induction false} ProgramOfBody(rest: text, pending: nat, tail: text, d: set<Unit>)
    requires QUOTE !in rest && Ends(tail) && Delimiters(d)
    ensures Program(Body(rest, pending) + tail, true, d) ==
            (Backslashes(pending) + Repaired(rest) + Backslashes(Trailing(rest, pending)), tail)
    decreases |rest|
  {
    hide Program, Delimiters, Ends, Backslashes, Repaired;
    if rest == [] {
      ProgramAtClose(pending, tail, d);
    } else if rest[0] == BACKSLASH {
      ProgramOfBody(rest[1..], pending + 1, tail, d);
      PastBackslash(rest, pending);
    } else {
      ProgramOfBody(rest[1..], 0, tail, d);
      ProgramPastUnit(rest, pending, tail, d);
      PastUnit(rest, pending, Backslashes(Trailing(rest, pending)));
    }
  }

  lemma ProgramAtClose(pending: nat, tail: text, d: set<Unit>)
    requires Ends(tail) && Delimiters(d)
    ensures Program(Body([], pending) + tail, true, d) == (Backslashes(pending) + Repaired([]) + Backslashes(pending), tail)
  {
    hide Program, Delimiters;
    ProgramOfRun(2 * pending, [QUOTE] + tail, d);
    assert Body([], pending) + tail == Backslashes(2 * pending) + ([QUOTE] + tail);
    ProgramCloses(tail, d);
    assert Backslashes(2 * pending) + [] == Backslashes(pending) + Repaired([]) + Backslashes(pending);
  }

  lemma ProgramPastUnit(rest: text, pending: nat, tail: text, d: set<Unit>)
    requires rest != [] && rest[0] != BACKSLASH && rest[0] != QUOTE
    ensures
      var (name, left) := Program(Body(rest[1..], 0) + tail, true, d);
      Program(Body(rest, pending) + tail, true, d) == (Backslashes(pending) + [Written(rest[0])] + name, left)
  {
    hide Program, Backslashes;
    var (w, more) := (Written(rest[0]), Body(rest[1..], 0));
    Regroup(Backslashes(pending), [w], more, tail);
    hide Body;
    ProgramOfRun(pending, [w] + (more + tail), d);
    ProgramChar(w, more + tail, d);
    assert Backslashes(pending) + ([w] + Program(more + tail, true, d).0) == Backslashes(pending) + [w] + Program(more + tail, true, d).0;
  }

  lemma ProgramChar(c: Unit, t: text, d: set<Unit>)
    requires c != QUOTE
    ensures Program([c] + t, true, d) == ([c] + Program(t, true, d).0, Program(t, true, d).1)
  {
    assert ([c] + t)[1..] == t;
  }

  lemma ProgramCloses(tail: text, d: set<Unit>)
    requires Ends(tail) && Delimiters(d)
    ensures Program([QUOTE] + tail, true, d) == ([], tail)
  {
    assert ([QUOTE] + tail)[1..] == tail;
  }

  lemma {:induction false} ProgramOfPlain(arg: text, tail: text, d: set<Unit>)
    requires !NeedsQuotes(arg) && Ends(tail) && Delimiters(d)
    ensures Program(arg + tail, false, d) == (arg, tail)
  {
    if arg == [] {
      assert arg + tail == tail;
    } else {
      assert (arg + tail)[1..] == arg[1..] + tail;
      PlainSuffix(arg, 0);
      PlainSuffix(arg, 1);
      ProgramOfPlain(arg[1..], tail, d);
      assert arg == [arg[0]] + arg[1..];
    }
  }

  lemma ProgramOfQuoted(arg: text, tail: text, d: set<Unit>)
    requires (arg == [] || NeedsQuotes(arg)) && QUOTE !in arg && Ends(tail) && Delimiters(d)
    ensures Program(Quote(arg) + tail, false, d) == (Repaired(arg) + Backslashes(Trailing(arg, 0)), tail)
  {
    hide Program, Body, Delimiters, Ends, NeedsQuotes, Repaired;
    EmptyQuote(arg);
    hide Quote;
    assert [QUOTE] + Body(arg, 0) + tail == [QUOTE] + (Body(arg, 0) + tail);
    ProgramOpens(Body(arg, 0) + tail, d);
    ProgramOfBody(arg, 0, tail, d);
    assert Backslashes(0) + Repaired(arg) == Repaired(arg);
  }

  /** The program name read back from a line that starts with a quoted argument. */
  lemma ProgramOfQuote(arg: text, tail: text, d: set<Unit>)
    requires Ends(tail) && Delimiters(d)
    ensures ProgramSafe(arg) ==> Program(Quote(arg) + tail, false, d) == (arg, tail)
    ensures !ProgramSafe(arg) ==> Program(Quote(arg) + tail, false, d).0 != arg
  {
    hide Program, Delimiters, Ends, Repaired, Special, Body;
    if arg != [] && !NeedsQuotes(arg) {
      ProgramOfPlain(arg, tail, d);
    } else if QUOTE in arg {
      NoQuoteLeft(Quote(arg) + tail, d);
    } else {
      ProgramOfQuoted(arg, tail, d);
      TrailingZero(arg, 0);
      RepairedExactly(arg);
      var extra := Backslashes(Trailing(arg, 0));
      assert |Repaired(arg) + extra| == |arg| + Trailing(arg, 0);
      assert extra == [] ==> Repaired(arg) + extra == Repaired(arg);
    }
  }

  /** A whole command line, program name included, comes back exactly when the program name is safe
      and no other argument that needs quotes has a byte outside a rune. */
  lemma CommandLineRoundTrip(args: seq<text>, d: set<Unit>)
    requires Delimiters(d) && args != []
    ensures CommandLine(Join(args), d) == args <==>
            ProgramSafe(args[0]) && forall arg :: arg in args[1..] && NeedsQuotes(arg) ==> WellFormed(arg)
  {
    hide Delimiters, Arguments, Quote, Program, ProgramSafe, NeedsQuotes;
    var arg, tail := args[0], Tail(args);
    assert Join(args) == Quote(arg) + tail;
    ProgramOfQuote(arg, tail, d);
    QuotingRoundTrip(args[1..], d);
    TailArguments(args, d);
    assert args == [arg] + args[1..];
    assert CommandLine(Join(args), d)[0] == Program(Join(args), false, d).0;
    assert CommandLine(Join(args), d)[1..] == Arguments(Program(Join(args), false, d).1, d);
  }

  /** A program name with a space and a final backslash comes back with two. */
  lemma ProgramNameDoubles(d: set<Unit>) returns (name: text)
    requires Delimiters(d)
    ensures WellFormed(name) && CommandLine(Join([name]), d) != [name]
  {
    hide CommandLine, Join, Delimiters;
    name := [SPACE, BACKSLASH];
    assert Special(name[0]);
    CommandLineRoundTrip([name], d);
  }

  lemma NoQuoteLeft(s: text, d: set<Unit>)
    ensures QUOTE !in Program(s, false, d).0
  {
  }

  lemma ProgramOpens(t: text, d: set<Unit>)
    ensures Program([QUOTE] + t, false, d) == Program(t, true, d)
  {
    assert ([QUOTE] + t)[1..] == t;
  }

  // ----- what is written

  /** Run by run: backslashes are doubled before a quote, which gets one more, and before the end; in
      front of anything else they stay as they are. */
  lemma {:induction false} BodyRuns(n: nat, t: text)
    ensures Body(Backslashes(n), 0) == Backslashes(2 * n) + [QUOTE]
    ensures Body(Backslashes(n) + ([QUOTE] + t), 0) == Backslashes(2 * n) + [BACKSLASH, QUOTE] + Body(t, 0)
    ensures t != [] && t[0] != BACKSLASH && t[0] != QUOTE ==>
      Body(Backslashes(n) + t, 0) == Backslashes(n) + [if t[0].Broken? then Rune('\U{FFFD}') else t[0]] + Body(t[1..], 0)
  {
    BodyRun(n, 0, []);
    assert Backslashes(n) + [] == Backslashes(n);
    BodyRun(n, 0, [QUOTE] + t);
    assert ([QUOTE] + t)[1..] == t;
    assert Backslashes(2 * n + 1) + [QUOTE] == Backslashes(2 * n) + [BACKSLASH, QUOTE];
    BodyRun(n, 0, t);
  }

  lemma {:induction false} BodyRun(n: nat, pending: nat, t: text)
    ensures Body(Backslashes(n) + t, pending) == Body(t, pending + n)
    decreases n
  {
    if n == 0 {
      assert Backslashes(0) + t == t;
    } else {
      assert (Backslashes(n) + t)[1..] == Backslashes(n - 1) + t;
      BodyRun(n - 1, pending + 1, t);
    }
  }

  /** A line is its arguments with one space between two. */
  lemma {:induction false} JoinMeans(a: seq<text>, b: seq<text>)
    requires a != [] && b != []
    ensures Join(a + b) == Join(a) + [Rune(' ')] + Join(b)
  {
    hide Quote;
    if |a| == 1 {
      assert (a + b)[1..] == b;
    } else {
      assert (a + b)[1..] == a[1..] + b;
      JoinMeans(a[1..], b);
      var (x, y, z) := (Quote(a[0]), Join(a[1..]), Join(b));
      assert x + [SPACE] + (y + [SPACE] + z) == (x + [SPACE] + y) + [SPACE] + z;
    }
  }

  // ----- the code

  /** An empty argument becomes two quotes; one with a space, a tab, a line break, a vertical tab or a
      quote is put in quotes; any other stays as it is. */
  ghost predicate Quotes(argument: text, value: text) {
    if argument == [] then value == [Rune('"'), Rune('"')]
    else if exists c :: c in argument && c in {Rune(' '), Rune('\t'), Rune('\n'), Rune('\U{000B}'), Rune('"')} then
      value == [Rune('"')] + Body(argument, 0)
    else value == argument
  }

  lemma QuoteMeans(argument: text)
    ensures Quotes(argument, Quote(argument))
  {
    forall c ensures Special(c) <==> c in {Rune(' '), Rune('\t'), Rune('\n'), Rune('\U{000B}'), Rune('"')} {
    }
    hide Special, Body;
    if i :| 0 <= i < |argument| && Special(argument[i]) {
      assert argument[i] in argument;
    }
  }

  method QuoteArgument(argument: text) returns (value: text)
    ensures value == Quote(argument)
    ensures Quotes(argument, value)
  {
    QuoteMeans(argument);
    hide Quotes;
    if argument == [] {
      return [QUOTE, QUOTE];
    }
    if forall i :: 0 <= i < |argument| ==> !Special(argument[i]) {
      return argument;
    }
    value := [QUOTE];
    var backslashes := 0;
    for i := 0 to |argument|
      invariant value + Body(argument[i..], backslashes) == [QUOTE] + Body(argument, 0)
    {
      var character := argument[i];
      assert argument[i..][1..] == argument[i + 1..];
      if character == BACKSLASH {
        backslashes := backslashes + 1;
      } else {
        if character == QUOTE {
          value := value + Backslashes(backslashes * 2 + 1) + [QUOTE];
        } else {
          value := value + Backslashes(backslashes) + [Written(character)];
        }
        backslashes := 0;
      }
    }
    value := value + Backslashes(backslashes * 2) + [QUOTE];
  }

  method QuoteWindowsCommandLine(args: seq<text>) returns (line: text)
    ensures line == Join(args)
  {
    hide Quote;
    line := [];
    for i := 0 to |args|
      invariant line + (if 0 < i < |args| then [SPACE] else []) + Join(args[i..]) == Join(args)
      invariant i == 0 ==> line == []
    {
      var quoted := QuoteArgument(args[i]);
      assert args[i..][1..] == args[i + 1..];
      line := if i == 0 then quoted else line + [SPACE] + quoted;
    }
  }
}
