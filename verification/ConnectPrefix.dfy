/** Which URLs an HTTP connect list allows (shellagent/connect/http_connect.go): string tests on
    the path, against prefixes of path segments. Every text here is a string of bytes, one character
    for each, so an escape is one character and a letter outside ASCII is several. */
module ConnectPrefix {
  import opened Options
  import opened Texts

  /** What the URL parser makes of a text it accepts. */
  datatype Url = Url(scheme: string, host: string, hasUser: bool, path: string)

  // ----- percent decoding

  /** A path escape is a percent sign and two hexadecimal digits; anything else after one is an error. */
  function Unescape(s: string): Option<string> {
    if s == "" then Some("")
    else if s[0] != '%' then
      match Unescape(s[1..])
      case Some(rest) => Some([s[0]] + rest)
      case None => None
    else if |s| < 3 then None
    else
      match (Nibble(s[1]), Nibble(s[2]), Unescape(s[3..]))
      case (Some(high), Some(low), Some(rest)) => Some([(16 * high + low) as char] + rest)
      case _ => None
  }

  predicate IsHex(c: char) {
    '0' <= c <= '9' || 'a' <= c <= 'f' || 'A' <= c <= 'F'
  }

  /** Position `i` holds a percent sign without two hexadecimal digits after it. */
  predicate BadEscape(s: string, i: nat)
    requires i < |s|
  {
    s[i] == '%' && (i + 2 >= |s| || !IsHex(s[i + 1]) || !IsHex(s[i + 2]))
  }

  /** A path is refused exactly when one of its percent signs is not followed by two hexadecimal digits. */
  lemma {:induction false} UnescapeRefuses(s: string)
    ensures Unescape(s).None? <==> exists i: nat :: i < |s| && BadEscape(s, i)
  {
    if s != "" {
      var n := if s[0] == '%' then 3 else 1;
      if n <= |s| && !BadEscape(s, 0) {
        UnescapeRefuses(s[n..]);
        forall i: nat | i < |s[n..]| ensures BadEscape(s[n..], i) <==> BadEscape(s, n + i) {
        }
        if i: nat :| i < |s| && BadEscape(s, i) {
          assert i >= n && BadEscape(s[n..], i - n);
        }
        if i: nat :| i < |s[n..]| && BadEscape(s[n..], i) {
          assert BadEscape(s, n + i);
        }
      } else {
        assert BadEscape(s, 0);
      }
    }
  }

  /** A path is decoded piece by piece. */
  lemma {:induction false} UnescapeAppend(a: string, b: string)
    requires Unescape(a).Some?
    ensures Unescape(a + b) == if Unescape(b).Some? then Some(Unescape(a).value + Unescape(b).value) else None
  {
    hide Unescape, Nibble;
    if a == "" {
      assert a + b == b;
      UnescapeNothing();
      if Unescape(b).Some? {
        assert "" + Unescape(b).value == Unescape(b).value;
      }
    } else if a[0] != '%' {
      assert a == [a[0]] + a[1..] && a + b == [a[0]] + (a[1..] + b);
      UnescapeLetter(a[0], a[1..]);
      UnescapeLetter(a[0], a[1..] + b);
      UnescapeAppend(a[1..], b);
      if Unescape(b).Some? {
        var (middle, last) := (Unescape(a[1..]).value, Unescape(b).value);
        assert [a[0]] + (middle + last) == ([a[0]] + middle) + last;
      }
    } else {
      UnescapeSign(a);
      assert a == a[..3] + a[3..] && a + b == a[..3] + (a[3..] + b);
      UnescapeTriple(a[..3], a[3..]);
      UnescapeTriple(a[..3], a[3..] + b);
      UnescapeAppend(a[3..], b);
      if Unescape(b).Some? {
        var (first, middle, last) := (Unescape(a).value[..1], Unescape(a[3..]).value, Unescape(b).value);
        assert Unescape(a).value == first + middle;
        assert first + (middle + last) == (first + middle) + last;
      }
    }
  }

  lemma UnescapeNothing()
    ensures Unescape("") == Some("")
  {
  }

  lemma UnescapeSign(s: string)
    requires s != "" && s[0] == '%' && Unescape(s).Some?
    ensures |s| >= 3
  {
  }

  lemma UnescapeLetter(c: char, rest: string)
    requires c != '%'
    ensures Unescape([c] + rest) == match Unescape(rest) case Some(tail) => Some([c] + tail) case None => None
  {
    assert ([c] + rest)[1..] == rest;
  }

  lemma UnescapeTriple(e: string, rest: string)
    requires |e| == 3 && e[0] == '%'
    ensures Unescape(e + rest) ==
      match (Nibble(e[1]), Nibble(e[2]), Unescape(rest))
      case (Some(high), Some(low), Some(tail)) => Some([(16 * high + low) as char] + tail)
      case _ => None
  {
    hide Nibble;
    assert (e + rest)[3..] == rest;
  }

  /** Text without percent signs is left as it is. */
  lemma {:induction false} UnescapePlain(s: string)
    requires '%' !in s
    ensures Unescape(s) == Some(s)
  {
    if s != "" {
      UnescapePlain(s[1..]);
      assert s == [s[0]] + s[1..];
    }
  }

  const UPPER := "0123456789ABCDEF"
  const LOWER := "0123456789abcdef"

  /** One byte as an escape, its digits from `high` and `low`. */
  function Escape(c: char, high: string, low: string): string
    requires c < 256 as char && |high| == 16 && |low| == 16
  {
    ['%', high[c as int / 16], low[c as int % 16]]
  }

  /** An escape stands for the byte whose digits it has, in either case. */
  lemma EscapeMeans(c: char, high: string, low: string)
    requires c < 256 as char && high in {UPPER, LOWER} && low in {UPPER, LOWER}
    ensures Unescape(Escape(c, high, low)) == Some([c])
  {
    DigitMeans(high, c as int / 16);
    DigitMeans(low, c as int % 16);
    var e := Escape(c, high, low);
    assert e + "" == e;
    UnescapeTriple(e, "");
    UnescapeNothing();
    hide Unescape, Nibble;
    assert 16 * (c as int / 16) + c as int % 16 == c as int;
    assert [c] + "" == [c];
  }

  lemma DigitMeans(digits: string, n: nat)
    requires digits in {UPPER, LOWER} && n < 16
    ensures Nibble(digits[n]) == Some(n)
  {
    var values := seq(16, i requires 0 <= i < 16 => Nibble(digits[i]));
    assert values == seq(16, i => Some(i));
  }

  predicate ByteText(s: string) {
    forall i :: 0 <= i < |s| ==> s[i] < 256 as char
  }

  /** A text escaped byte by byte. */
  function EscapeAll(s: string): string
    requires ByteText(s)
  {
    if s == "" then "" else Escape(s[0], UPPER, UPPER) + EscapeAll(s[1..])
  }

  lemma {:induction false} UnescapeOfEscape(s: string)
    requires ByteText(s)
    ensures Unescape(EscapeAll(s)) == Some(s)
  {
    hide Escape;
    if s != "" {
      UnescapeOfEscape(s[1..]);
      EscapeMeans(s[0], UPPER, UPPER);
      UnescapeAppend(Escape(s[0], UPPER, UPPER), EscapeAll(s[1..]));
      assert s == [s[0]] + s[1..];
    }
  }

  // ----- segments

  /** Segment prefixes in terms of the text: the whole path, or up to one of its slashes. */
  lemma SegmentPrefix(d: string, s: string)
    ensures Split(d, '/') <= Split(s, '/') <==> s == d || d + "/" <= s
  {
    hide Split, Join;
    if Split(d, '/') <= Split(s, '/') {
      var rest := Split(s, '/')[|Split(d, '/')|..];
      assert Split(s, '/') == Split(d, '/') + rest;
      JoinOfSplit(d, '/');
      JoinOfSplit(s, '/');
      if rest == [] {
        assert Split(s, '/') == Split(d, '/');
      } else {
        JoinAppend(Split(d, '/'), rest, '/');
        assert s[..|d + "/"|] == d + "/";
      }
    }
    if d + "/" <= s {
      var rest := s[|d + "/"|..];
      assert s == d + "/" + rest;
      SplitAt(d, rest, '/');
    }
  }

  // ----- the specification

  /** A pattern's segments, less one trailing empty segment. */
  function Stem(parts: seq<string>): seq<string> {
    if parts != [] && parts[|parts| - 1] == "" then parts[..|parts| - 1] else parts
  }

  function OrRoot(path: string): string {
    if path == "" then "/" else path
  }

  function Rooted(path: string): (r: string)
    ensures r != "" && r[0] == '/'
  {
    if "/" <= path then path else "/" + path
  }

  function Origin(u: Url): string {
    u.scheme + "://" + u.host
  }

  /** The segments the request asks for, when its path can be decoded. */
  function Requested(u: Url): Option<seq<string>> {
    match Unescape(OrRoot(u.path))
    case Some(decoded) => Some(Split(Rooted(decoded), '/'))
    case None => None
  }

  predicate Covers(pattern: Option<Url>, u: Url, segments: seq<string>) {
    pattern.Some? && Origin(pattern.value) == Origin(u) && Stem(Split(OrRoot(pattern.value.path), '/')) <= segments
  }

  predicate Allowed(request: Option<Url>, patterns: seq<Option<Url>>) {
    request.Some? && !request.value.hasUser && Requested(request.value).Some? &&
    ".." !in Requested(request.value).value &&
    exists i :: 0 <= i < |patterns| && Covers(patterns[i], request.value, Requested(request.value).value)
  }

  // ----- the string tests

  /** The tests of shellagent/connect/http_connect.go:112-122 on one pattern's path. */
  predicate PathTests(prefix: string, decoded: string) {
    prefix == "/" || decoded == prefix ||
    (EndsInSlash(prefix) && decoded == prefix[..|prefix| - 1]) ||
    (if EndsInSlash(prefix) then prefix else prefix + "/") <= decoded
  }

  predicate EndsInSlash(s: string) {
    s != "" && s[|s| - 1] == '/'
  }

  lemma StemOfPath(path: string)
    requires path != ""
    ensures Stem(Split(path, '/')) == Split(if EndsInSlash(path) then path[..|path| - 1] else path, '/')
  {
    hide Split;
    if !EndsInSlash(path) {
      LastSegment(path);
    } else {
      var d := path[..|path| - 1];
      assert path == d + "/" + "";
      SplitAt(d, "", '/');
      EmptySplit();
      assert (Split(d, '/') + [""])[..|Split(d, '/')|] == Split(d, '/');
    }
  }

  lemma LastSegment(path: string)
    ensures Split(path, '/')[|Split(path, '/')| - 1] == "" ==> path == "" || EndsInSlash(path)
  {
    hide Split, Join;
    var parts := Split(path, '/');
    var front, last := parts[..|parts| - 1], parts[|parts| - 1];
    assert parts == front + [last];
    JoinOfSplit(path, '/');
    JoinOfOne(last, '/');
    if front == [] {
      assert parts == [last];
    } else {
      JoinAppend(front, [last], '/');
    }
  }

  lemma EmptySplit()
    ensures Split("", '/') == [""]
  {
  }

  /** The string tests accept exactly when the pattern's segments, less one trailing slash, begin
      the request's: a partial segment never matches, and doubled slashes are segments too. */
  lemma PathTestsAreSegments(prefix: string, decoded: string)
    requires prefix != "" && decoded != "" && decoded[0] == '/'
    ensures PathTests(prefix, decoded) <==> Stem(Split(prefix, '/')) <= Split(decoded, '/')
  {
    hide Split, Stem;
    var d := if EndsInSlash(prefix) then prefix[..|prefix| - 1] else prefix;
    StemOfPath(prefix);
    SegmentPrefix(d, decoded);
    PathTestsByCut(prefix, decoded, d);
  }

  lemma PathTestsByCut(prefix: string, decoded: string, d: string)
    requires prefix != "" && decoded != "" && decoded[0] == '/'
    requires d == if EndsInSlash(prefix) then prefix[..|prefix| - 1] else prefix
    ensures PathTests(prefix, decoded) <==> decoded == d || d + "/" <= decoded
  {
    if EndsInSlash(prefix) {
      assert prefix == d + "/";
    }
  }

  // ----- the fields

  /** What the request asks for: its decoded path, `/` if there is none, always from the root. */
  ghost predicate AsksFor(u: Url, decoded: string) {
    var path := Unescape(if u.path == "" then "/" else u.path);
    path.Some? && decoded == if "/" <= path.value then path.value else "/" + path.value
  }

  /** A pattern of the request's scheme and host whose path is the decoded one, or up to one of its
      slashes; the pattern's last slash does not count, and without a path it takes every one. */
  ghost predicate Opens(pattern: Option<Url>, u: Url, decoded: string) {
    && pattern.Some? && pattern.value.scheme == u.scheme && pattern.value.host == u.host
    && var path := pattern.value.path;
      var d := if path != "" && path[|path| - 1] == '/' then path[..|path| - 1] else path;
      decoded == d || d + "/" <= decoded
  }

  ghost predicate AllowedByFields(request: Option<Url>, patterns: seq<Option<Url>>) {
    && request.Some? && !request.value.hasUser
    && exists decoded ::
      && AsksFor(request.value, decoded) && ".." !in Split(decoded, '/')
      && exists i :: 0 <= i < |patterns| && Opens(patterns[i], request.value, decoded)
  }

  /** No scheme a URL parser yields has a colon in it. */
  predicate PlainScheme(u: Option<Url>) {
    u.Some? ==> ':' !in u.value.scheme
  }

  /** Origins tell scheme and host apart. */
  lemma OriginInjective(u: Url, v: Url)
    requires ':' !in u.scheme && ':' !in v.scheme
    ensures Origin(u) == Origin(v) <==> u.scheme == v.scheme && u.host == v.host
  {
    if Origin(u) == Origin(v) {
      assert Origin(u)[|u.scheme|] == ':' && Origin(v)[|v.scheme|] == ':';
      assert |u.scheme| == |v.scheme|;
      assert Origin(u)[..|u.scheme|] == u.scheme && Origin(v)[..|v.scheme|] == v.scheme;
      assert Origin(u)[|u.scheme| + 3..] == u.host && Origin(v)[|v.scheme| + 3..] == v.host;
    }
  }

  lemma CoversMeans(pattern: Option<Url>, u: Url, decoded: string)
    requires PlainScheme(pattern) && ':' !in u.scheme && decoded != "" && decoded[0] == '/'
    ensures Covers(pattern, u, Split(decoded, '/')) <==> Opens(pattern, u, decoded)
  {
    hide Split, Stem, Origin;
    if pattern.Some? {
      OriginInjective(pattern.value, u);
      var path := OrRoot(pattern.value.path);
      StemOfPath(path);
      SegmentPrefix(if EndsInSlash(path) then path[..|path| - 1] else path, decoded);
    }
  }

  /** The decision in terms of the fields: scheme, host, user and path. */
  lemma AllowedMeans(request: Option<Url>, patterns: seq<Option<Url>>)
    requires PlainScheme(request) && forall p :: p in patterns ==> PlainScheme(p)
    ensures Allowed(request, patterns) <==> AllowedByFields(request, patterns)
  {
    hide Split, Covers, Opens, Unescape;
    if request.Some? && Requested(request.value).Some? {
      var u := request.value;
      var decoded := Rooted(Unescape(OrRoot(u.path)).value);
      assert AsksFor(u, decoded);
      forall i | 0 <= i < |patterns| ensures Covers(patterns[i], u, Split(decoded, '/')) <==> Opens(patterns[i], u, decoded) {
        CoversMeans(patterns[i], u, decoded);
      }
    }
  }

  // ----- the code

  method UrlAllowed(request: Option<Url>, patterns: seq<Option<Url>>) returns (allowed: bool)
    ensures allowed <==> Allowed(request, patterns)
    ensures PlainScheme(request) && (forall p :: p in patterns ==> PlainScheme(p)) ==>
      (allowed <==> AllowedByFields(request, patterns))
  {
    hide AllowedByFields, PlainScheme;
    if PlainScheme(request) && forall p :: p in patterns ==> PlainScheme(p) {
      AllowedMeans(request, patterns);
    }
    hide Split, Stem, Unescape, Origin, PathTests, Rooted;
    if request.None? || request.value.hasUser {
      return false;
    }
    var pathname := request.value.path;
    if pathname == "" {
      pathname := "/";
    }
    var unescaped := Unescape(pathname);
    if unescaped.None? {
      return false;
    }
    var decoded := Rooted(unescaped.value);
    var parts := Split(decoded, '/');
    for i := 0 to |parts|
      invariant ".." !in parts[..i]
    {
      if parts[i] == ".." {
        return false;
      }
    }
    for i := 0 to |patterns|
      invariant ".." !in parts
      invariant forall k :: 0 <= k < i ==> !Covers(patterns[k], request.value, parts)
    {
      if patterns[i].None? || Origin(patterns[i].value) != Origin(request.value) {
        continue;
      }
      var prefix := patterns[i].value.path;
      if prefix == "" {
        prefix := "/";
      }
      var matched := PathMatches(prefix, decoded);
      if matched {
        assert Covers(patterns[i], request.value, parts);
        return true;
      }
    }
    return false;
  }

  /** The tests on one pattern find exactly the paths whose segments the pattern's begin. */
  method PathMatches(prefix: string, decoded: string) returns (matched: bool)
    requires prefix != "" && decoded != "" && decoded[0] == '/'
    ensures matched <==> Stem(Split(prefix, '/')) <= Split(decoded, '/')
  {
    hide Split, Stem;
    PathTestsAreSegments(prefix, decoded);
    if prefix == "/" || decoded == prefix {
      return true;
    }
    if EndsInSlash(prefix) && decoded == prefix[..|prefix| - 1] {
      return true;
    }
    var directory := prefix;
    if !EndsInSlash(directory) {
      directory := directory + "/";
    }
    return directory <= decoded;
  }
}
