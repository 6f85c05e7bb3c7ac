/** Brace spans in the mixer's output.

    The repair pass looks for the regular expression \{([^}]+)\}: an opening
    brace, one or more characters none of which is a closing brace, and a
    closing brace. The scan goes left to right and never overlaps two spans.
    Because the inner class excludes only '}', an opening brace may occur
    inside a span, and the first '}' after an opening brace always ends it.

    This module gives the scanning rule twice: once as the function `Scan`
    that walks the text the way the regular-expression engine does, and once
    as a predicate (`IsTokenization`) saying what a correct split of the text
    into literal characters and spans is. `ScanIsTokenization` and
    `TokenizationUnique` connect the two. */
module Spans {

  datatype Option<T> = None | Some(value: T)

  /** One piece of the scanned text: a character copied as it is, or a span
      whose inner content is handed to the callback. */
  datatype Piece = Char(ch: char) | Span(content: string)
  {
    /** The characters of the original text this piece stands for. */
    function Text(): string
    {
      match this
      case Char(ch) => [ch]
      case Span(c) => "{" + c + "}"
    }
  }

  /** `c` can be the captured group of a match: at least one character, and
      no closing brace. */
  predicate IsSpanContent(c: string)
  {
    |c| > 0 && '}' !in c
  }

  /** A match of the pattern, with captured group `c`, starts at the first
      character of `t`. */
  ghost predicate IsSpanAt(t: string, c: string)
  {
    IsSpanContent(c) && "{" + c + "}" <= t
  }

  /** Index of the first '}' in `s` at or after `from`, if there is one. */
  function FirstClose(s: string, from: nat): (r: Option<nat>)
    requires from <= |s|
    ensures r.Some? ==> from <= r.value < |s| && s[r.value] == '}'
    ensures r.Some? ==> forall k :: from <= k < r.value ==> s[k] != '}'
    ensures r.None? ==> forall k :: from <= k < |s| ==> s[k] != '}'
    decreases |s| - from
  {
    if from == |s| then None
    else if s[from] == '}' then Some(from)
    else FirstClose(s, from + 1)
  }

  /** The captured group of the match that starts at the first character of
      `t`, or None when the pattern does not match there. */
  function SpanAtStart(t: string): (r: Option<string>)
    ensures r.Some? ==> IsSpanAt(t, r.value)
  {
    if |t| > 0 && t[0] == '{' then
      match FirstClose(t, 1)
      case Some(j) =>
        if j >= 2 then
          assert "{" + t[1..j] + "}" == t[..j + 1];
          Some(t[1..j])
        else None
      case None => None
    else None
  }

  /** Whenever the pattern can match at the start of `t`, `SpanAtStart`
      finds exactly that match: the first '}' decides the span. */
  lemma SpanAtStartComplete(t: string, c: string)
    requires IsSpanAt(t, c)
    ensures SpanAtStart(t) == Some(c)
  {
    var n := |c|;
    var w := "{" + c + "}";
    assert t[..n + 2] == w;
    assert t[0] == '{' && t[n + 1] == '}';
    forall k | 1 <= k <= n
      ensures t[k] != '}'
    {
      assert t[k] == w[k] == c[k - 1];
    }
    match FirstClose(t, 1)
    case None =>
      assert false;
    case Some(j) =>
      assert j == n + 1;
      assert t[1..j] == c;
  }

  /** The characters of `t`, each as a literal piece. */
  function Chars(t: string): (r: seq<Piece>)
    ensures |r| == |t|
    ensures forall i :: 0 <= i < |t| ==> r[i] == Char(t[i])
    decreases |t|
  {
    if t == [] then [] else [Char(t[0])] + Chars(t[1..])
  }

  /** Every span in `ps` has a content the pattern can capture. */
  predicate WellFormed(ps: seq<Piece>)
  {
    forall i :: 0 <= i < |ps| && ps[i].Span? ==> IsSpanContent(ps[i].content)
  }

  /** The inner contents of the spans of `ps`, in order. */
  function SpanContents(ps: seq<Piece>): seq<string>
  {
    if ps == [] then []
    else if ps[0].Span? then [ps[0].content] + SpanContents(ps[1..])
    else SpanContents(ps[1..])
  }

  /** The text that `ps` was cut from. */
  function Unparse(ps: seq<Piece>): string
  {
    if ps == [] then [] else ps[0].Text() + Unparse(ps[1..])
  }

  /** Leftmost matching: a character is kept as a literal only where no
      match of the pattern starts. */
  ghost predicate Leftmost(ps: seq<Piece>)
  {
    ps == [] ||
    ((ps[0].Char? ==> forall c :: !IsSpanAt(Unparse(ps), c)) && Leftmost(ps[1..]))
  }

  /** `ps` is a correct split of `s`: spans are well formed, nothing is lost
      or reordered, and spans are taken wherever one can start. */
  ghost predicate IsTokenization(ps: seq<Piece>, s: string)
  {
    WellFormed(ps) && Unparse(ps) == s && Leftmost(ps)
  }

  /** The left-to-right scan of the regular-expression engine: at each
      position either a match starts (and the scan resumes after its closing
      brace) or the character is copied and the scan moves on by one. */
  function Scan(s: string): (r: seq<Piece>)
    ensures WellFormed(r)
    decreases |s|
  {
    if s == [] then []
    else
      match SpanAtStart(s)
      case Some(c) => [Span(c)] + Scan(s[|c| + 2..])
      case None => [Char(s[0])] + Scan(s[1..])
  }

  lemma UnparseCons(p: Piece, ps: seq<Piece>)
    ensures Unparse([p] + ps) == p.Text() + Unparse(ps)
  {
    assert ([p] + ps)[1..] == ps;
  }

  /** Cutting a text into pieces and gluing them back gives the text back:
      every character outside a span is kept, in order. */
  lemma {:induction false} ScanRoundTrip(s: string)
    ensures Unparse(Scan(s)) == s
    decreases |s|
  {
    if s != [] {
      match SpanAtStart(s)
      case Some(c) =>
        var rest := s[|c| + 2..];
        assert Scan(s) == [Span(c)] + Scan(rest);
        ScanRoundTrip(rest);
        UnparseCons(Span(c), Scan(rest));
        assert s == ("{" + c + "}") + rest by {
          assert "{" + c + "}" == s[..|c| + 2];
        }
      case None =>
        var rest := s[1..];
        assert Scan(s) == [Char(s[0])] + Scan(rest);
        ScanRoundTrip(rest);
        UnparseCons(Char(s[0]), Scan(rest));
        assert s == [s[0]] + rest;
    }
  }

  /** The scan never leaves a character literal where a span could start. */
  lemma {:induction false} ScanLeftmost(s: string)
    ensures Leftmost(Scan(s))
    decreases |s|
  {
    if s != [] {
      var r := Scan(s);
      ScanRoundTrip(s);
      match SpanAtStart(s)
      case Some(c) =>
        ScanLeftmost(s[|c| + 2..]);
        assert r[1..] == Scan(s[|c| + 2..]);
      case None =>
        ScanLeftmost(s[1..]);
        assert r[1..] == Scan(s[1..]);
        forall c
          ensures !IsSpanAt(Unparse(r), c)
        {
          if IsSpanAt(s, c) {
            SpanAtStartComplete(s, c);
          }
        }
    }
  }

  /** The scan produces a correct split of its input. */
  lemma ScanIsTokenization(s: string)
    ensures IsTokenization(Scan(s), s)
  {
    ScanRoundTrip(s);
    ScanLeftmost(s);
  }

  /** There is only one correct split of a text, so the scan is fully
      determined by the rule `IsTokenization` states. */
  lemma {:induction false} TokenizationUnique(ps: seq<Piece>, s: string)
    requires IsTokenization(ps, s)
    ensures ps == Scan(s)
    decreases |s|
  {
    if ps != [] {
      var rest := Unparse(ps[1..]);
      assert s == ps[0].Text() + rest;
      assert WellFormed(ps[1..]) by {
        forall i | 0 <= i < |ps[1..]| && ps[1..][i].Span?
          ensures IsSpanContent(ps[1..][i].content)
        {
          assert ps[1..][i] == ps[i + 1];
        }
      }
      match ps[0]
      case Span(c) =>
        assert IsSpanContent(c) by { assert ps[0].Span?; }
        assert IsSpanAt(s, c);
        SpanAtStartComplete(s, c);
        assert s[|c| + 2..] == rest;
        TokenizationUnique(ps[1..], rest);
      case Char(ch) =>
        assert SpanAtStart(s).None?;
        assert s[1..] == rest;
        TokenizationUnique(ps[1..], rest);
    }
  }

  /** A span at the front of a text is scanned as one span, whatever follows. */
  lemma ScanSpanPrefix(c: string, rest: string)
    requires IsSpanContent(c)
    ensures Scan("{" + c + "}" + rest) == [Span(c)] + Scan(rest)
  {
    var s := "{" + c + "}" + rest;
    assert IsSpanAt(s, c);
    SpanAtStartComplete(s, c);
    assert s[|c| + 2..] == rest;
  }

  /** Characters that cannot open a span are copied literally, whatever
      follows them. */
  lemma {:induction false} ScanLiteralPrefix(t: string, rest: string)
    requires '{' !in t
    ensures Scan(t + rest) == Chars(t) + Scan(rest)
    decreases |t|
  {
    if t != [] {
      var s := t + rest;
      assert s[0] == t[0] != '{';
      assert SpanAtStart(s) == None;
      assert s[1..] == t[1..] + rest;
      ScanLiteralPrefix(t[1..], rest);
      assert Scan(s) == [Char(t[0])] + Scan(t[1..] + rest);
      assert Chars(t) == [Char(t[0])] + Chars(t[1..]);
    } else {
      assert t + rest == rest;
    }
  }

  /** A text without any closing brace holds no span: every character,
      including an unterminated "{abc", is literal. */
  lemma {:induction false} NoCloseNoSpan(s: string)
    requires '}' !in s
    ensures Scan(s) == Chars(s)
    decreases |s|
  {
    if s != [] {
      assert SpanAtStart(s) == None;
      NoCloseNoSpan(s[1..]);
      assert Chars(s) == [Char(s[0])] + Chars(s[1..]);
    }
  }

  /** "{}" is not a span: the pattern needs at least one inner character. */
  lemma EmptyBracesAreLiteral(rest: string)
    ensures Scan("{}" + rest) == [Char('{'), Char('}')] + Scan(rest)
  {
  }

  /** Literal characters alone contain no span. */
  lemma {:induction false} CharsHaveNoSpans(t: string)
    ensures SpanContents(Chars(t)) == []
    decreases |t|
  {
    if t != [] {
      assert Chars(t)[1..] == Chars(t[1..]);
      CharsHaveNoSpans(t[1..]);
    }
  }

  /** An opening brace inside a span belongs to the span, and the first
      closing brace ends it: "{a{b}c}" is the span "a{b" followed by the
      literal characters 'c' and '}'. */
  lemma NestedOpenBrace()
    ensures Scan("{a{b}c}") == [Span("a{b"), Char('c'), Char('}')]
  {
    ScanSpanPrefix("a{b", "c}");
    assert "{a{b}c}" == "{" + "a{b" + "}" + "c}";
    ScanLiteralPrefix("c}", "");
    assert "c}" + "" == "c}";
    assert Chars("c}") == [Char('c'), Char('}')];
  }
}
