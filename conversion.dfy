/** The decisions `main` makes around the three service calls: which
    languages may be chosen as the context (primary) language, when the
    input is translated before mixing, and the order of the steps once the
    user asks for a conversion. */
module Conversion {
  import opened Spans
  import opened PostProcess

  /** `a` is obtained from `b` by deleting some of its elements. */
  ghost predicate IsSubsequence<T>(a: seq<T>, b: seq<T>)
    decreases |b|
  {
    a == [] ||
    (b != [] && (IsSubsequence(a, b[1..]) || (a[0] == b[0] && IsSubsequence(a[1..], b[1..]))))
  }

  /** The choices offered for the context language: every configured
      language except the one being learned, in the configured order and
      with the configured repetitions. */
  function PrimaryChoices(supported: seq<string>, target: string): (r: seq<string>)
    ensures target !in r
    ensures forall l :: l in r <==> l in supported && l != target
    ensures multiset(r) == multiset(supported)[target := 0]
    ensures IsSubsequence(r, supported)
  {
    if supported == [] then []
    else
      var rest := PrimaryChoices(supported[1..], target);
      assert supported == [supported[0]] + supported[1..];
      if supported[0] != target then [supported[0]] + rest else rest
  }

  /** The input after the language check: its text, and whether it had to be
      translated (which is when a notice is shown), with the calls made. */
  datatype Normalized = Normalized(text: string, translated: bool, calls: seq<Call>)

  /** Brings the input into the context language: it is translated exactly
      when the detector does not report the context language for it. */
  function NormalizeInput(input: string, primary: string,
                          detect: string -> string,
                          translate: (string, string) -> string): (r: Normalized)
    ensures r.translated <==> detect(input) != primary
    ensures r.translated ==> r.text == translate(input, primary)
    ensures !r.translated ==> r.text == input
    ensures r.calls == [Detect(input)] + (if r.translated then [Translate(input, primary)] else [])
  {
    var detected := detect(input);
    if detected != primary then
      Normalized(translate(input, primary), true, [Detect(input), Translate(input, primary)])
    else
      Normalized(input, false, [Detect(input)])
  }

  /** Why no conversion is shown. */
  datatype Error = EmptyInput

  /** What is displayed after a conversion. */
  datatype ConversionResult = ConversionResult(
    normalizedInput: string,
    inputTranslated: bool,
    mixedOutput: string,
    calls: seq<Call>)

  datatype Result = Ok(value: ConversionResult) | Err(error: Error)

  /** The body of the Convert button: nothing happens for empty input;
      otherwise the input is normalised, mixed and repaired, in that order.
      The input is translated into the context language exactly when the
      detector reports another language for it. The mixer is called once, on
      the normalised input, right after the input check; the detector sees
      the input and then every span of the mixer's answer, the translator the
      input when it needs translating and then the spans not detected as the
      target; neither the detector nor the translator is asked about the
      empty string. The log is the input check's calls, then the mixer call,
      then exactly the repair pass's calls. The text shown is
      the repair of the mixer's answer, which is the answer itself when every
      span in it is detected as the target language. */
  function Convert(input: string, primary: string, target: string,
                   detect: string -> string,
                   translate: (string, string) -> string,
                   mix: (string, string, string) -> string): (r: Result)
    ensures r.Err? <==> input == []
    ensures r.Ok? ==> (r.value.inputTranslated <==> detect(input) != primary)
    ensures r.Ok? ==>
      r.value.normalizedInput == (if detect(input) != primary then translate(input, primary) else input)
    ensures r.Ok? ==>
      var mixed := mix(r.value.normalizedInput, primary, target);
      r.value.mixedOutput == PostProcessOutput(mixed, primary, target, detect, translate).text &&
      ((forall c :: c in SpanContents(Scan(mixed)) ==> detect(c) == target) ==> r.value.mixedOutput == mixed)
    ensures r.Ok? ==>
      var spans := SpanContents(Scan(mix(r.value.normalizedInput, primary, target)));
      DetectedTexts(r.value.calls) == [input] + spans &&
      TranslatedTexts(r.value.calls)
        == (if detect(input) != primary then [input] else []) + NotInTarget(spans, target, detect)
    ensures r.Ok? ==>
      forall i :: 0 <= i < |r.value.calls| && !r.value.calls[i].Mix? ==> |r.value.calls[i].text| > 0
    ensures r.Ok? ==>
      var k := if detect(input) != primary then 2 else 1;
      |r.value.calls| > k && r.value.calls[k] == Mix(r.value.normalizedInput, primary, target) &&
      forall i :: 0 <= i < |r.value.calls| && i != k ==> !r.value.calls[i].Mix?
    ensures r.Ok? ==>
      var k := if detect(input) != primary then 2 else 1;
      var mixed := mix(r.value.normalizedInput, primary, target);
      r.value.calls[..k] == [Detect(input)] + (if detect(input) != primary then [Translate(input, primary)] else []) &&
      r.value.calls[k + 1..] == PostProcessOutput(mixed, primary, target, detect, translate).calls
  {
    if input == [] then Err(EmptyInput)
    else
      var n := NormalizeInput(input, primary, detect, translate);
      var mixed := mix(n.text, primary, target);
      var repaired := PostProcessOutput(mixed, primary, target, detect, translate);
      LogTexts(input, primary, target, n, repaired.calls, SpanContents(Scan(mixed)), detect, translate);
      LogShape(input, primary, target, n, repaired.calls, detect, translate);
      NotInTargetEmpty(SpanContents(Scan(mixed)), target, detect);
      var calls := n.calls + [Mix(n.text, primary, target)] + repaired.calls;
      assert calls[..|n.calls|] == n.calls;
      assert calls[|n.calls| + 1..] == repaired.calls;
      Ok(ConversionResult(n.text, n.translated, repaired.text,
                          n.calls + [Mix(n.text, primary, target)] + repaired.calls))
  }

  /** Whom a conversion asks what: the input check's calls, the mixer call,
      then the repair pass's calls, seen from the detector and from the
      translator. */
  lemma LogTexts(input: string, primary: string, target: string, n: Normalized,
                 repairCalls: seq<Call>, spans: seq<string>,
                 detect: string -> string,
                 translate: (string, string) -> string)
    requires n == NormalizeInput(input, primary, detect, translate)
    requires DetectedTexts(repairCalls) == spans
    requires TranslatedTexts(repairCalls) == NotInTarget(spans, target, detect)
    ensures var calls := n.calls + [Mix(n.text, primary, target)] + repairCalls;
      DetectedTexts(calls) == [input] + spans &&
      TranslatedTexts(calls) == (if n.translated then [input] else []) + NotInTarget(spans, target, detect)
  {
    var mixCall := [Mix(n.text, primary, target)];
    SingleCallTexts(Mix(n.text, primary, target));
    InputCheckTexts(input, primary, n.translated);
    DetectedAppend(n.calls, mixCall);
    DetectedAppend(n.calls + mixCall, repairCalls);
  }

  /** The input check asks the detector about the input, and the translator
      about it only when it is translated. */
  lemma InputCheckTexts(input: string, primary: string, translated: bool)
    ensures var calls := [Detect(input)] + (if translated then [Translate(input, primary)] else []);
      DetectedTexts(calls) == [input] &&
      TranslatedTexts(calls) == (if translated then [input] else [])
  {
    SingleCallTexts(Detect(input));
    if translated {
      SingleCallTexts(Translate(input, primary));
      DetectedAppend([Detect(input)], [Translate(input, primary)]);
    } else {
      assert [Detect(input)] + [] == [Detect(input)];
    }
  }

  /** The shape of a conversion's call log: one mixer call, right after the
      input check, and no question about the empty string. */
  lemma LogShape(input: string, primary: string, target: string, n: Normalized,
                 repairCalls: seq<Call>,
                 detect: string -> string,
                 translate: (string, string) -> string)
    requires input != []
    requires n == NormalizeInput(input, primary, detect, translate)
    requires WellOrderedCalls(repairCalls, target, detect)
    ensures var calls := n.calls + [Mix(n.text, primary, target)] + repairCalls;
      (forall i :: 0 <= i < |calls| && !calls[i].Mix? ==> |calls[i].text| > 0) &&
      |calls| > |n.calls| && calls[|n.calls|] == Mix(n.text, primary, target) &&
      (forall i :: 0 <= i < |calls| && i != |n.calls| ==> !calls[i].Mix?)
  {
    var head := n.calls + [Mix(n.text, primary, target)];
    var calls := head + repairCalls;
    forall i | 0 <= i < |calls| && i >= |head|
      ensures !calls[i].Mix? && |calls[i].text| > 0
    {
      assert calls[i] == repairCalls[i - |head|];
      assert CallInOrder(repairCalls, i - |head|, target, detect);
      if repairCalls[i - |head|].Translate? {
        assert CallInOrder(repairCalls, i - |head| - 1, target, detect);
      }
    }
    forall i | 0 <= i < |head| && i != |n.calls|
      ensures calls[i] == n.calls[i] && !calls[i].Mix? && |calls[i].text| > 0
    {
    }
  }
}
