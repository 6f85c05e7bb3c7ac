/** The repair pass run on the mixer's output (`post_process_output`).

    Every span found by the scan is shown to the language detector; a span
    whose detected language is not the target language is replaced by
    "{" + translation + "}", any other span is kept as it was. Text outside
    spans is copied. The detector and the translator are remote services; here
    they are parameters, and the calls the pass makes to them are recorded in
    order, so that how often and on what they are called can be stated. */
module PostProcess {
  import opened Spans

  /** A request to one of the remote services. */
  datatype Call =
    | Detect(text: string)
    | Translate(text: string, into: string)
    | Mix(text: string, primary: string, target: string)

  /** The text a step produces, with the service calls it made, in order. */
  datatype Outcome = Outcome(text: string, calls: seq<Call>)

  /** The texts given to the detector, in call order. */
  function DetectedTexts(calls: seq<Call>): seq<string>
  {
    if calls == [] then []
    else if calls[0].Detect? then [calls[0].text] + DetectedTexts(calls[1..])
    else DetectedTexts(calls[1..])
  }

  /** The texts given to the translator, in call order. */
  function TranslatedTexts(calls: seq<Call>): seq<string>
  {
    if calls == [] then []
    else if calls[0].Translate? then [calls[0].text] + TranslatedTexts(calls[1..])
    else TranslatedTexts(calls[1..])
  }

  /** The members of `cs` whose detected language is not `target`, in order. */
  function NotInTarget(cs: seq<string>, target: string, detect: string -> string): seq<string>
  {
    if cs == [] then []
    else if detect(cs[0]) != target then [cs[0]] + NotInTarget(cs[1..], target, detect)
    else NotInTarget(cs[1..], target, detect)
  }

  /** No member of `cs` needs translating exactly when the detector reports
      `target` for every one of them. */
  lemma {:induction false} NotInTargetEmpty(cs: seq<string>, target: string, detect: string -> string)
    ensures NotInTarget(cs, target, detect) == [] <==> forall c :: c in cs ==> detect(c) == target
  {
    if cs != [] {
      NotInTargetEmpty(cs[1..], target, detect);
      assert forall c :: c in cs <==> c == cs[0] || c in cs[1..];
    }
  }

  /** The call at index `i` is a detection of a non-empty text, or a
      translation into `target` of the text detected just before it, made
      because that detection disagreed with `target`. */
  ghost predicate CallInOrder(calls: seq<Call>, i: nat, target: string, detect: string -> string)
    requires i < |calls|
  {
    match calls[i]
    case Detect(t) => |t| > 0
    case Translate(t, into) =>
      i > 0 && calls[i - 1] == Detect(t) && detect(t) != target && into == target
    case Mix(_, _, _) => false
  }

  /** Every call of the log is in order in the sense of `CallInOrder`. */
  ghost predicate WellOrderedCalls(calls: seq<Call>, target: string, detect: string -> string)
  {
    forall i :: 0 <= i < |calls| ==> CallInOrder(calls, i, target, detect)
  }

  /** The callback given to the substitution for one match
      (`translate_if_needed`): one detection of the content, and a
      translation into the target only when the detection disagrees. */
  function TranslateIfNeeded(content: string, target: string,
                             detect: string -> string,
                             translate: (string, string) -> string): (r: Outcome)
    ensures detect(content) == target ==> r.text == "{" + content + "}"
    ensures detect(content) != target ==> r.text == "{" + translate(content, target) + "}"
    ensures DetectedTexts(r.calls) == [content]
    ensures TranslatedTexts(r.calls) == if detect(content) != target then [content] else []
    ensures |content| > 0 ==> WellOrderedCalls(r.calls, target, detect)
  {
    if detect(content) != target then
      var calls := [Detect(content), Translate(content, target)];
      assert calls[1..] == [Translate(content, target)];
      assert calls[1..][1..] == [];
      assert DetectedTexts(calls[1..]) == [];
      assert TranslatedTexts(calls[1..]) == [content];
      Outcome("{" + translate(content, target) + "}", calls)
    else
      Outcome("{" + content + "}", [Detect(content)])
  }

  /** What one scanned piece becomes: a literal character is copied, a span
      is handed to the callback. */
  function Replacement(p: Piece, target: string,
                       detect: string -> string,
                       translate: (string, string) -> string): Outcome
  {
    match p
    case Char(ch) => Outcome([ch], [])
    case Span(c) => TranslateIfNeeded(c, target, detect, translate)
  }

  /** Assembles the substitution's result from the scanned pieces, as the
      regular-expression substitution does: literal characters are copied,
      each span is replaced by what the callback returns for its content.
      The detector sees exactly the span contents, in order, and the
      translator exactly those not detected as the target, in order. */
  function Substitute(ps: seq<Piece>, target: string,
                      detect: string -> string,
                      translate: (string, string) -> string): (r: Outcome)
    ensures DetectedTexts(r.calls) == SpanContents(ps)
    ensures TranslatedTexts(r.calls) == NotInTarget(SpanContents(ps), target, detect)
  {
    if ps == [] then Outcome([], [])
    else
      var head := Replacement(ps[0], target, detect, translate);
      var tail := Substitute(ps[1..], target, detect, translate);
      SubstituteStep(ps, tail, target, detect, translate);
      Outcome(head.text + tail.text, head.calls + tail.calls)
  }

  /** `post_process_output`. The primary language is accepted and, as in
      `post_process_output`, not used. Each span gets exactly one detector
      call on its content, in span order; the translator is called once for
      each span content not detected as the target, right after that
      detection, and for no other text; the empty string is never sent; and
      when no span content needs translating (`NotInTarget` is empty: every
      one is detected as the target, see `NotInTargetEmpty`) the text comes
      back as it was. */
  function PostProcessOutput(mixed: string, primary: string, target: string,
                             detect: string -> string,
                             translate: (string, string) -> string): (r: Outcome)
    ensures DetectedTexts(r.calls) == SpanContents(Scan(mixed))
    ensures TranslatedTexts(r.calls) == NotInTarget(SpanContents(Scan(mixed)), target, detect)
    ensures |r.calls| == |SpanContents(Scan(mixed))| + |NotInTarget(SpanContents(Scan(mixed)), target, detect)|
    ensures WellOrderedCalls(r.calls, target, detect)
    ensures NotInTarget(SpanContents(Scan(mixed)), target, detect) == [] ==> r.text == mixed
  {
    ScanRoundTrip(mixed);
    SubstituteUnchanged(Scan(mixed), target, detect, translate);
    SubstituteWellOrdered(Scan(mixed), target, detect, translate);
    var r := Substitute(Scan(mixed), target, detect, translate);
    CallCount(r.calls, target, detect);
    r
  }

  /** A log of calls in order holds only detections and translations. */
  lemma CallCount(calls: seq<Call>, target: string, detect: string -> string)
    requires WellOrderedCalls(calls, target, detect)
    ensures |calls| == |DetectedTexts(calls)| + |TranslatedTexts(calls)|
  {
    forall i | 0 <= i < |calls|
      ensures !calls[i].Mix?
    {
      assert CallInOrder(calls, i, target, detect);
    }
    NoMixCount(calls);
  }

  lemma {:induction false} NoMixCount(calls: seq<Call>)
    requires forall i :: 0 <= i < |calls| ==> !calls[i].Mix?
    ensures |calls| == |DetectedTexts(calls)| + |TranslatedTexts(calls)|
  {
    if calls != [] {
      assert !calls[0].Mix?;
      assert forall i :: 0 <= i < |calls[1..]| ==> calls[1..][i] == calls[i + 1];
      NoMixCount(calls[1..]);
    }
  }

  lemma DetectedAppend(a: seq<Call>, b: seq<Call>)
    ensures DetectedTexts(a + b) == DetectedTexts(a) + DetectedTexts(b)
    ensures TranslatedTexts(a + b) == TranslatedTexts(a) + TranslatedTexts(b)
  {
    if a == [] {
      assert a + b == b;
    } else {
      assert (a + b)[0] == a[0];
      assert (a + b)[1..] == a[1..] + b;
      DetectedAppend(a[1..], b);
    }
  }

  lemma SingleCallTexts(c: Call)
    ensures DetectedTexts([c]) == (if c.Detect? then [c.text] else [])
    ensures TranslatedTexts([c]) == (if c.Translate? then [c.text] else [])
  {
    assert [c][1..] == [];
  }

  lemma WellOrderedAppend(a: seq<Call>, b: seq<Call>, target: string, detect: string -> string)
    requires WellOrderedCalls(a, target, detect) && WellOrderedCalls(b, target, detect)
    ensures WellOrderedCalls(a + b, target, detect)
  {
    forall i | 0 <= i < |a + b|
      ensures CallInOrder(a + b, i, target, detect)
    {
      if i < |a| {
        assert CallInOrder(a, i, target, detect);
        assert (a + b)[i] == a[i];
        if i > 0 {
          assert (a + b)[i - 1] == a[i - 1];
        }
      } else {
        assert CallInOrder(b, i - |a|, target, detect);
        assert (a + b)[i] == b[i - |a|];
        if i > |a| {
          assert (a + b)[i - 1] == b[i - 1 - |a|];
        }
      }
    }
  }

  /** One step of `Substitute`: if the result for the later pieces meets the
      contract, so does the result with the first piece's replacement in
      front. */
  lemma SubstituteStep(ps: seq<Piece>, tail: Outcome, target: string,
                       detect: string -> string,
                       translate: (string, string) -> string)
    requires ps != []
    requires DetectedTexts(tail.calls) == SpanContents(ps[1..])
    requires TranslatedTexts(tail.calls) == NotInTarget(SpanContents(ps[1..]), target, detect)
    ensures var head := Replacement(ps[0], target, detect, translate);
      var r := Outcome(head.text + tail.text, head.calls + tail.calls);
      DetectedTexts(r.calls) == SpanContents(ps) &&
      TranslatedTexts(r.calls) == NotInTarget(SpanContents(ps), target, detect)
  {
    var head := Replacement(ps[0], target, detect, translate);
    DetectedAppend(head.calls, tail.calls);
    if ps[0].Span? {
      var c := ps[0].content;
      assert SpanContents(ps) == [c] + SpanContents(ps[1..]);
      assert NotInTarget(SpanContents(ps), target, detect)
          == (if detect(c) != target then [c] else []) + NotInTarget(SpanContents(ps[1..]), target, detect);
    }
  }

  /** Over well-formed pieces every call the substitution makes is in order
      in the sense of `CallInOrder`. */
  lemma {:induction false} SubstituteWellOrdered(ps: seq<Piece>, target: string,
                                                 detect: string -> string,
                                                 translate: (string, string) -> string)
    requires WellFormed(ps)
    ensures WellOrderedCalls(Substitute(ps, target, detect, translate).calls, target, detect)
  {
    if ps != [] {
      var head := Replacement(ps[0], target, detect, translate);
      var tail := Substitute(ps[1..], target, detect, translate);
      SubstituteCons(ps, target, detect, translate);
      assert WellFormed(ps[1..]) by {
        forall i | 0 <= i < |ps[1..]| && ps[1..][i].Span?
          ensures IsSpanContent(ps[1..][i].content)
        {
          assert ps[1..][i] == ps[i + 1];
        }
      }
      SubstituteWellOrdered(ps[1..], target, detect, translate);
      if ps[0].Span? {
        assert IsSpanContent(ps[0].content);
      }
      WellOrderedAppend(head.calls, tail.calls, target, detect);
    }
  }

  /** Spans whose contents need no translation are kept verbatim, braces
      included, so the pieces are glued back into the text they came from. */
  lemma {:induction false} SubstituteUnchanged(ps: seq<Piece>, target: string,
                                               detect: string -> string,
                                               translate: (string, string) -> string)
    ensures NotInTarget(SpanContents(ps), target, detect) == [] ==>
      Substitute(ps, target, detect, translate).text == Unparse(ps)
  {
    if ps != [] && NotInTarget(SpanContents(ps), target, detect) == [] {
      SubstituteCons(ps, target, detect, translate);
      if ps[0].Span? {
        var c := ps[0].content;
        assert SpanContents(ps) == [c] + SpanContents(ps[1..]);
        assert NotInTarget(SpanContents(ps), target, detect)
            == (if detect(c) != target then [c] else []) + NotInTarget(SpanContents(ps[1..]), target, detect);
      }
      SubstituteUnchanged(ps[1..], target, detect, translate);
    }
  }

  /** A text with no span comes back unchanged and costs no service call. */
  lemma NoSpanNoChange(mixed: string, primary: string, target: string,
                       detect: string -> string,
                       translate: (string, string) -> string)
    requires SpanContents(Scan(mixed)) == []
    ensures PostProcessOutput(mixed, primary, target, detect, translate) == Outcome(mixed, [])
  {
  }

  /** A text without a closing brace, such as an unterminated "{abc", comes
      back unchanged and costs no service call. */
  lemma NoCloseUnchanged(mixed: string, primary: string, target: string,
                         detect: string -> string,
                         translate: (string, string) -> string)
    requires '}' !in mixed
    ensures PostProcessOutput(mixed, primary, target, detect, translate) == Outcome(mixed, [])
  {
    NoCloseNoSpan(mixed);
    CharsHaveNoSpans(mixed);
    NoSpanNoChange(mixed, primary, target, detect, translate);
  }

  /** What a span at the front of the text becomes: itself, braces included,
      when its content is detected as the target language, otherwise its
      content's translation in braces; the rest of the text is processed on
      its own. */
  lemma SpanReplaced(c: string, rest: string, primary: string, target: string,
                     detect: string -> string,
                     translate: (string, string) -> string)
    requires IsSpanContent(c)
    ensures var r := PostProcessOutput("{" + c + "}" + rest, primary, target, detect, translate);
      var tail := PostProcessOutput(rest, primary, target, detect, translate);
      (detect(c) == target ==> r.text == "{" + c + "}" + tail.text) &&
      (detect(c) != target ==> r.text == "{" + translate(c, target) + "}" + tail.text)
  {
    ScanSpanPrefix(c, rest);
    assert ([Span(c)] + Scan(rest))[1..] == Scan(rest);
  }

  /** Text without an opening brace at the front is copied to the output as
      it is, and costs no service call. */
  lemma LiteralPrefixCopied(t: string, rest: string, primary: string, target: string,
                            detect: string -> string,
                            translate: (string, string) -> string)
    requires '{' !in t
    ensures var r := PostProcessOutput(t + rest, primary, target, detect, translate);
      var tail := PostProcessOutput(rest, primary, target, detect, translate);
      r == Outcome(t + tail.text, tail.calls)
  {
    ScanLiteralPrefix(t, rest);
    CharsCopied(t, Scan(rest), target, detect, translate);
  }

  lemma SubstituteCons(ps: seq<Piece>, target: string,
                       detect: string -> string,
                       translate: (string, string) -> string)
    requires ps != []
    ensures var head := Replacement(ps[0], target, detect, translate);
      var tail := Substitute(ps[1..], target, detect, translate);
      Substitute(ps, target, detect, translate) == Outcome(head.text + tail.text, head.calls + tail.calls)
  {
  }

  lemma {:induction false} CharsCopied(t: string, ps: seq<Piece>, target: string,
                                       detect: string -> string,
                                       translate: (string, string) -> string)
    ensures var tail := Substitute(ps, target, detect, translate);
      Substitute(Chars(t) + ps, target, detect, translate) == Outcome(t + tail.text, tail.calls)
    decreases |t|
  {
    if t == [] {
      assert Chars(t) + ps == ps;
    } else {
      var tail := Substitute(ps, target, detect, translate);
      var mid := Substitute(Chars(t[1..]) + ps, target, detect, translate);
      CharsCopied(t[1..], ps, target, detect, translate);
      CharCopied(t[0], Chars(t[1..]) + ps, target, detect, translate);
      CharsCons(t, ps);
      GlueChar(t, tail.text, mid.text);
    }
  }

  lemma CharsCons(t: string, ps: seq<Piece>)
    requires t != []
    ensures Chars(t) + ps == [Char(t[0])] + (Chars(t[1..]) + ps)
  {
  }

  lemma GlueChar(t: string, tail: string, mid: string)
    requires t != [] && mid == t[1..] + tail
    ensures [t[0]] + mid == t + tail
  {
    assert t == [t[0]] + t[1..];
  }

  lemma CharCopied(ch: char, ps: seq<Piece>, target: string,
                   detect: string -> string,
                   translate: (string, string) -> string)
    ensures var tail := Substitute(ps, target, detect, translate);
      Substitute([Char(ch)] + ps, target, detect, translate) == Outcome([ch] + tail.text, tail.calls)
  {
    var qs := [Char(ch)] + ps;
    assert qs[1..] == ps;
    SubstituteCons(qs, target, detect, translate);
    assert Replacement(qs[0], target, detect, translate) == Outcome([ch], []);
  }

  /** "{}" is copied, and neither service is called for it. */
  lemma EmptyBracesUntouched(rest: string, primary: string, target: string,
                             detect: string -> string,
                             translate: (string, string) -> string)
    ensures var r := PostProcessOutput("{}" + rest, primary, target, detect, translate);
      var tail := PostProcessOutput(rest, primary, target, detect, translate);
      r == Outcome("{}" + tail.text, tail.calls)
  {
    EmptyBracesAreLiteral(rest);
    CharsCopied("{}", Scan(rest), target, detect, translate);
    assert [Char('{'), Char('}')] == Chars("{}");
  }

  /** Two spans separated by literal text: each span becomes what the
      callback returns for it, and the text around them is kept. */
  lemma TwoSpans(pre: string, c1: string, mid: string, c2: string, post: string,
                 primary: string, target: string,
                 detect: string -> string, translate: (string, string) -> string)
    requires '{' !in pre && '{' !in mid && '{' !in post
    requires IsSpanContent(c1) && IsSpanContent(c2)
    ensures PostProcessOutput(pre + ("{" + c1 + "}" + (mid + ("{" + c2 + "}" + post))),
                              primary, target, detect, translate).text
         == pre + (TranslateIfNeeded(c1, target, detect, translate).text
                   + (mid + (TranslateIfNeeded(c2, target, detect, translate).text + post)))
  {
    var s3 := "{" + c2 + "}" + post;
    var s2 := mid + s3;
    var s1 := "{" + c1 + "}" + s2;
    LiteralPrefixCopied(post, [], primary, target, detect, translate);
    assert post + [] == post;
    SpanReplaced(c2, post, primary, target, detect, translate);
    LiteralPrefixCopied(mid, s3, primary, target, detect, translate);
    SpanReplaced(c1, s2, primary, target, detect, translate);
    LiteralPrefixCopied(pre, s1, primary, target, detect, translate);
  }

  /** A sentence built from the mixer prompt's two examples: the
      untranslated "{love}" of its incorrect output and the correct "{苹果}"
      of its correct output. With a detector that finds "love" to be in
      another language and "苹果" in the target language, only the first
      span is translated and the second is kept. The sentence is a
      parameter fixed by the precondition rather than a literal inside the
      contract, so that the verifier works from `TwoSpans` instead of
      evaluating the whole pass on a literal text. */
  lemma RepairExample(mixed: string, detect: string -> string, translate: (string, string) -> string)
    requires mixed == "I {love} to eat {苹果}."
    requires detect("love") != "Chinese" && detect("苹果") == "Chinese"
    ensures PostProcessOutput(mixed, "English", "Chinese", detect, translate).text
         == "I {" + translate("love", "Chinese") + "} to eat {苹果}."
  {
    ExampleSentence(mixed);
    TwoSpans("I ", "love", " to eat ", "苹果", ".", "English", "Chinese", detect, translate);
    ExampleOutput(translate("love", "Chinese"));
  }

  /** The example sentence cut at its spans. */
  lemma ExampleSentence(mixed: string)
    requires mixed == "I {love} to eat {苹果}."
    ensures mixed == "I " + ("{" + "love" + "}" + (" to eat " + ("{" + "苹果" + "}" + ".")))
  {
  }

  /** The expected output glued from its parts. */
  lemma ExampleOutput(x: string)
    ensures "I " + ("{" + x + "}" + (" to eat " + ("{" + "苹果" + "}" + ".")))
         == "I {" + x + "} to eat {苹果}."
  {
  }
}
