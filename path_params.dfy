/**
 * The rewrite `url.replace(/{(.+?)}/g, ':$1')` that turns `{name}` path
 * parameters into the `:name` form before the URL is hydrated.
 *
 * In the pattern, `{` and `}` are literal braces, `.` matches any character
 * except a line terminator, and `+?` is lazy: a match opened by `{` at some
 * position ends at the FIRST `}` at least two characters further on, and fails
 * when a line terminator comes first. The body may itself contain `{`, and its
 * first character may be `}`. The global flag resumes the scan right after
 * each match, and after a failed attempt one character further on.
 */
module PathParams {
  import opened Wrappers

  /** The characters `.` refuses to match (section 22.2 of ECMA-262). */
  predicate IsLineTerminator(c: char) {
    c == '\n' || c == '\r' || c == '\U{2028}' || c == '\U{2029}'
  }

  /**
   * Declarative reading of one match: `s[..j + 1]` is what `/{(.+?)}/`
   * matches at the start of `s`, its capture being `s[1..j]`.
   */
  ghost predicate PlaceholderEnd(s: string, j: int) {
    && 2 <= j < |s|
    && s[0] == '{'
    && s[j] == '}'
    && (forall k :: 1 <= k < j ==> !IsLineTerminator(s[k]))
    && (forall k :: 2 <= k < j ==> s[k] != '}')
  }

  /** No match of the pattern starts at the first character of `s`. */
  ghost predicate NoPlaceholderAt(s: string) {
    forall j :: !PlaceholderEnd(s, j)
  }

  /** A match ends at no more than one place. */
  lemma PlaceholderEndUnique(s: string, i: int, j: int)
    requires PlaceholderEnd(s, i) && PlaceholderEnd(s, j)
    ensures i == j
  {
  }

  /**
   * The lazy scan for the closing brace, at index `j` of `s`, the body
   * `s[1..j]` read so far holding no line terminator and no `}` after its
   * first character.
   */
  function CloseFrom(s: string, j: nat): (r: Option<nat>)
    requires |s| > 0 && s[0] == '{' && 1 <= j
    requires forall k :: 1 <= k < j && k < |s| ==> !IsLineTerminator(s[k])
    requires forall k :: 2 <= k < j && k < |s| ==> s[k] != '}'
    ensures r.Some? ==> PlaceholderEnd(s, r.value)
    ensures r.None? ==> NoPlaceholderAt(s)
    decreases |s| - j
  {
    if j >= |s| then
      None
    else if 2 <= j && s[j] == '}' then
      Some(j)
    else if IsLineTerminator(s[j]) then
      None
    else
      CloseFrom(s, j + 1)
  }

  /** Where the match starting at the first character of `s` ends, if there is one. */
  function Close(s: string): (r: Option<nat>)
    ensures r.Some? ==> PlaceholderEnd(s, r.value)
    ensures r.None? ==> NoPlaceholderAt(s)
  {
    if |s| == 0 || s[0] != '{' then None else CloseFrom(s, 1)
  }

  /** `convertPathParams(url)` of send_sample_request.js. */
  function ConvertPathParams(url: string): (r: string)
    ensures |r| <= |url|
    decreases |url|
  {
    if url == [] then
      []
    else if Close(url).Some? then
      var j := Close(url).value;
      [':'] + url[1..j] + ConvertPathParams(url[j + 1..])
    else
      [url[0]] + ConvertPathParams(url[1..])
  }

  /** A URL without `{` comes back unchanged. */
  lemma {:induction false} NoBraceUnchanged(url: string)
    requires '{' !in url
    ensures ConvertPathParams(url) == url
    decreases |url|
  {
    if url != [] {
      assert '{' !in url[1..] by {
        forall k | 0 <= k < |url[1..]| ensures url[1..][k] != '{' {
          assert url[1..][k] == url[k + 1];
        }
      }
      NoBraceUnchanged(url[1..]);
    }
  }

  /** The number of placeholders the global replace rewrites in `url`. */
  ghost function Replacements(url: string): nat
    decreases |url|
  {
    if url == [] then 0
    else if Close(url).Some? then 1 + Replacements(url[Close(url).value + 1..])
    else Replacements(url[1..])
  }

  /** The number of occurrences of `c` in `s`. */
  function Occurrences(c: char, s: string): nat {
    if s == [] then 0 else (if s[0] == c then 1 else 0) + Occurrences(c, s[1..])
  }

  lemma {:induction false} OccurrencesAppend(c: char, s: string, t: string)
    ensures Occurrences(c, s + t) == Occurrences(c, s) + Occurrences(c, t)
  {
    if s == [] {
      assert s + t == t;
    } else {
      assert (s + t)[1..] == s[1..] + t;
      OccurrencesAppend(c, s[1..], t);
    }
  }

  /** Each replacement drops the two braces around the body and adds the colon in front of it. */
  lemma {:induction false} ConvertLength(url: string)
    ensures |ConvertPathParams(url)| == |url| - Replacements(url)
    decreases |url|
  {
    if url == [] {
    } else if Close(url).Some? {
      ConvertLength(url[Close(url).value + 1..]);
    } else {
      ConvertLength(url[1..]);
    }
  }

  /**
   * Every character of the body and every character outside a placeholder
   * is kept, so each replacement removes one `{` and one `}` and adds one `:`.
   */
  lemma {:induction false} ConvertOccurrences(c: char, url: string)
    ensures c == '{' || c == '}' ==> Occurrences(c, ConvertPathParams(url)) == Occurrences(c, url) - Replacements(url)
    ensures c == ':' ==> Occurrences(c, ConvertPathParams(url)) == Occurrences(c, url) + Replacements(url)
    ensures c != '{' && c != '}' && c != ':' ==> Occurrences(c, ConvertPathParams(url)) == Occurrences(c, url)
    decreases |url|
  {
    if url == [] {
    } else if Close(url).Some? {
      var j := Close(url).value;
      ConvertOccurrences(c, url[j + 1..]);
      PlaceholderOccurrences(c, url, j);
    } else {
      ConvertOccurrences(c, url[1..]);
      assert url == [url[0]] + url[1..];
      OccurrencesCons(c, url[0], url[1..]);
      OccurrencesCons(c, url[0], ConvertPathParams(url[1..]));
    }
  }

  /** How one rewritten placeholder changes the count of `c`. */
  lemma PlaceholderOccurrences(c: char, url: string, j: nat)
    requires Close(url) == Some(j)
    ensures Occurrences(c, url)
         == (if c == '{' then 1 else 0) + Occurrences(c, url[1..j]) + (if c == '}' then 1 else 0) + Occurrences(c, url[j + 1..])
    ensures Occurrences(c, ConvertPathParams(url))
         == (if c == ':' then 1 else 0) + Occurrences(c, url[1..j]) + Occurrences(c, ConvertPathParams(url[j + 1..]))
  {
    var body, rest := url[1..j], url[j + 1..];
    assert url == ['{'] + (body + (['}'] + rest));
    BracketsOccurrences(c, '{', body, ['}'] + rest);
    OccurrencesCons(c, '}', rest);
    ConvertPlaceholder(url, j);
    BracketsOccurrences(c, ':', body, ConvertPathParams(rest));
  }

  lemma BracketsOccurrences(c: char, x: char, body: string, rest: string)
    ensures Occurrences(c, [x] + (body + rest)) == (if x == c then 1 else 0) + Occurrences(c, body) + Occurrences(c, rest)
  {
    OccurrencesCons(c, x, body + rest);
    OccurrencesAppend(c, body, rest);
  }

  /** One step of the rewrite at a placeholder. */
  lemma ConvertPlaceholder(url: string, j: nat)
    requires Close(url) == Some(j)
    ensures ConvertPathParams(url) == [':'] + (url[1..j] + ConvertPathParams(url[j + 1..]))
  {
  }

  lemma OccurrencesCons(c: char, x: char, s: string)
    ensures Occurrences(c, [x] + s) == (if x == c then 1 else 0) + Occurrences(c, s)
  {
    assert ([x] + s)[1..] == s;
  }

  /** The rewrite leaves `url` as it is exactly when nothing in it matches. */
  lemma ConvertUnchangedIff(url: string)
    ensures ConvertPathParams(url) == url <==> Replacements(url) == 0
  {
    ConvertLength(url);
    if Replacements(url) == 0 {
      NoReplacementsKeep(url);
    }
  }

  lemma {:induction false} NoReplacementsKeep(url: string)
    requires Replacements(url) == 0
    ensures ConvertPathParams(url) == url
    decreases |url|
  {
    if url != [] {
      NoReplacementsKeep(url[1..]);
    }
  }

  /*
   * The declarative specification of the global replace: the input is cut
   * into single characters and placeholders, each placeholder being the
   * shortest one that starts there, and a `{` kept as a character only where
   * no placeholder starts. The rewrite renders each placeholder `{n}` as `:n`.
   */

  datatype Piece = Text(c: char) | Param(name: string)

  /** A placeholder body the lazy `.+?` can capture. */
  ghost predicate ValidName(n: string) {
    && |n| >= 1
    && (forall k :: 0 <= k < |n| ==> !IsLineTerminator(n[k]))
    && (forall k :: 1 <= k < |n| ==> n[k] != '}')
  }

  /** The string the pieces were cut from. */
  function Braced(ps: seq<Piece>): string {
    if ps == [] then []
    else
      (match ps[0]
       case Text(c) => [c]
       case Param(n) => ['{'] + n + ['}'])
      + Braced(ps[1..])
  }

  /** The string the rewrite makes of the pieces. */
  function Coloned(ps: seq<Piece>): string {
    if ps == [] then []
    else
      (match ps[0]
       case Text(c) => [c]
       case Param(n) => [':'] + n)
      + Coloned(ps[1..])
  }

  /** Every placeholder is leftmost and shortest: the cut the regular expression makes. */
  ghost predicate LeftmostShortest(ps: seq<Piece>) {
    if ps == [] then true
    else
      && (match ps[0]
          case Text(c) => c == '{' ==> NoPlaceholderAt(Braced(ps))
          case Param(n) => ValidName(n))
      && LeftmostShortest(ps[1..])
  }

  lemma ParamIsPlaceholder(n: string, rest: string)
    requires ValidName(n)
    ensures PlaceholderEnd(['{'] + n + ['}'] + rest, |n| + 1)
  {
    var s := ['{'] + n + ['}'] + rest;
    forall k | 1 <= k < |n| + 1 ensures s[k] == n[k - 1] { }
  }

  /** The rewrite renders every leftmost-shortest cut of its input. */
  lemma {:induction false} ConvertBySegments(ps: seq<Piece>)
    requires LeftmostShortest(ps)
    ensures ConvertPathParams(Braced(ps)) == Coloned(ps)
  {
    if ps != [] {
      var s := Braced(ps);
      var rest := Braced(ps[1..]);
      ConvertBySegments(ps[1..]);
      match ps[0]
      case Text(c) =>
        assert s == [c] + rest;
        assert s[1..] == rest;
        if c == '{' {
          assert Close(s).None?;
        }
      case Param(n) =>
        assert s == ['{'] + n + ['}'] + rest;
        ParamIsPlaceholder(n, rest);
        PlaceholderEndUnique(s, Close(s).value, |n| + 1);
        assert s[1..|n| + 1] == n;
        assert s[|n| + 2..] == rest;
    }
  }

  /** Every string has a leftmost-shortest cut. */
  lemma {:induction false} SegmentsExist(s: string)
    ensures exists ps :: LeftmostShortest(ps) && Braced(ps) == s
    decreases |s|
  {
    if s == [] {
      assert LeftmostShortest([]) && Braced([]) == s;
    } else if Close(s).Some? {
      var j := Close(s).value;
      var n := s[1..j];
      SegmentsExist(s[j + 1..]);
      var qs :| LeftmostShortest(qs) && Braced(qs) == s[j + 1..];
      var ps := [Param(n)] + qs;
      assert ps[1..] == qs;
      forall k | 1 <= k < |n| ensures n[k] != '}' {
        assert n[k] == s[k + 1];
      }
      assert ValidName(n);
      assert s == ['{'] + n + ['}'] + s[j + 1..];
      assert LeftmostShortest(ps) && Braced(ps) == s;
    } else {
      SegmentsExist(s[1..]);
      var qs :| LeftmostShortest(qs) && Braced(qs) == s[1..];
      var ps := [Text(s[0])] + qs;
      assert ps[1..] == qs;
      assert s == [s[0]] + s[1..];
      assert LeftmostShortest(ps) && Braced(ps) == s;
    }
  }

  /** The leftmost-shortest cut of a string is unique. */
  lemma {:induction false} SegmentsUnique(ps: seq<Piece>, qs: seq<Piece>)
    requires LeftmostShortest(ps) && LeftmostShortest(qs)
    requires Braced(ps) == Braced(qs)
    ensures ps == qs
  {
    if ps == [] || qs == [] {
      if ps != [] { BracedNonEmpty(ps); }
      if qs != [] { BracedNonEmpty(qs); }
    } else {
      var s := Braced(ps);
      match ps[0]
      case Text(c) => {
        match qs[0]
        case Text(d) =>
          assert s == [c] + Braced(ps[1..]) && s == [d] + Braced(qs[1..]);
          assert Braced(ps[1..]) == s[1..] == Braced(qs[1..]);
          SegmentsUnique(ps[1..], qs[1..]);
        case Param(m) =>
          ParamIsPlaceholder(m, Braced(qs[1..]));
      }
      case Param(n) =>
        ParamIsPlaceholder(n, Braced(ps[1..]));
        assert s == ['{'] + n + ['}'] + Braced(ps[1..]);
        match qs[0]
        case Text(d) =>
        case Param(m) =>
          ParamIsPlaceholder(m, Braced(qs[1..]));
          assert s == ['{'] + m + ['}'] + Braced(qs[1..]);
          PlaceholderEndUnique(s, |n| + 1, |m| + 1);
          assert n == s[1..|n| + 1] == m;
          assert Braced(ps[1..]) == s[|n| + 2..] == Braced(qs[1..]);
          SegmentsUnique(ps[1..], qs[1..]);
    }
  }

  lemma BracedNonEmpty(ps: seq<Piece>)
    requires ps != []
    ensures Braced(ps) != []
  {
  }

  /** `{a}/{b}` becomes `:a/:b`: the match stops at the first closing brace. */
  lemma {:induction false} NonGreedy()
    ensures ConvertPathParams("{a}/{b}") == ":a/:b"
  {
    var ps := [Param("a"), Text('/'), Param("b")];
    assert Braced(ps) == "{a}/{b}";
    assert Coloned(ps) == ":a/:b";
    assert NoPlaceholderAt("/{b}") by {
      forall j ensures !PlaceholderEnd("/{b}", j) { }
    }
    assert LeftmostShortest(ps[2..]);
    assert LeftmostShortest(ps[1..]);
    assert LeftmostShortest(ps);
    ConvertBySegments(ps);
  }

  /**
   * `{}` is not a placeholder when no `}` follows it: the body needs a
   * character, so the brace after `{` becomes that character and the scan
   * looks for a second `}`.
   */
  lemma EmptyBracesKept(t: string)
    requires '}' !in t
    ensures ConvertPathParams("{}" + t) == "{}" + ConvertPathParams(t)
  {
    var s := "{}" + t;
    assert NoPlaceholderAt(s) by {
      forall j ensures !PlaceholderEnd(s, j) {
        if 2 <= j < |s| {
          assert s[j] == t[j - 2];
        }
      }
    }
    assert s[1..] == "}" + t;
    assert NoPlaceholderAt(s[1..]) by {
      forall j ensures !PlaceholderEnd(s[1..], j) { }
    }
    assert s[1..][1..] == t;
  }

  /** The body may hold `{`: in `{{a}` the match opened by the first brace runs to the only `}`. */
  lemma {:induction false} OpenBraceInBody()
    ensures ConvertPathParams("{{a}") == ":{a"
  {
    var ps := [Param("{a")];
    assert Braced(ps[1..]) == "" && Coloned(ps[1..]) == "";
    assert Braced(ps) == "{{a}";
    assert LeftmostShortest(ps) by { assert ps[1..] == []; }
    ConvertBySegments(ps);
  }

  /** The first body character may be `}`: `{}}` becomes `:}`. */
  lemma {:induction false} CloseBraceFirstInBody()
    ensures ConvertPathParams("{}}") == ":}"
  {
    var ps := [Param("}")];
    assert Braced(ps[1..]) == "" && Coloned(ps[1..]) == "";
    assert LeftmostShortest(ps) by { assert ps[1..] == []; }
    ConvertBySegments(ps);
  }

  /** A line terminator before the closing brace stops the match: `{a\nb}` is left as it is. */
  lemma {:induction false} LineBreakStopsMatch()
    ensures ConvertPathParams("{a\nb}") == "{a\nb}"
  {
    var s := "{a\nb}";
    assert NoPlaceholderAt(s) by {
      forall j ensures !PlaceholderEnd(s, j) {
        if 2 < j < |s| {
          assert IsLineTerminator(s[2]);
        }
      }
    }
    var ps := [Text('{'), Text('a'), Text('\n'), Text('b'), Text('}')];
    assert Braced(ps[5..]) == "" && Coloned(ps[5..]) == "";
    assert Braced(ps[4..]) == "}" && Braced(ps[3..]) == "b}" && Braced(ps[2..]) == "\nb}" && Braced(ps[1..]) == "a\nb}";
    assert Braced(ps) == s;
    assert Coloned(ps[4..]) == "}" && Coloned(ps[3..]) == "b}" && Coloned(ps[2..]) == "\nb}" && Coloned(ps[1..]) == "a\nb}";
    assert Coloned(ps) == s;
    assert LeftmostShortest(ps[1..]) by {
      assert LeftmostShortest(ps[5..]);
      assert ps[4..][1..] == ps[5..] && LeftmostShortest(ps[4..]);
      assert ps[3..][1..] == ps[4..] && LeftmostShortest(ps[3..]);
      assert ps[2..][1..] == ps[3..] && LeftmostShortest(ps[2..]);
      assert ps[1..][1..] == ps[2..];
    }
    ConvertBySegments(ps);
  }
}
