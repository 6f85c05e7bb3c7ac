# Learn-Vocabulary-in-Context: the brace-span repair pass

Learn-Vocabulary-in-Context turns text in a language the learner knows (the
*primary* or context language) into a *mixed-language* text in which chosen
words are given in the language being learned (the *target* language),
wrapped in curly braces. A generative text service detects languages,
translates and does the mixing; the program itself contributes one
deterministic step, the repair pass `post_process_output`, and a few
decisions in `main` around the service calls.

This project models those deterministic parts in Dafny:

- `spans.dfy` (module `Spans`): how the pattern `\{([^}]+)\}` cuts a text
  into literal characters and spans. `Scan` follows the left-to-right,
  non-overlapping search of the regular-expression substitution;
  `IsTokenization` says independently what a correct split is (spans are
  one or more non-`}` characters in braces, gluing the pieces back gives the
  text, and a character stays literal only where no match can start);
  `ScanIsTokenization` and `TokenizationUnique` prove that the scan is that
  split and that there is only one.
- `post_process.dfy` (module `PostProcess`): the substitution with its
  callback `translate_if_needed`. The detector and the translator are
  function parameters with no properties assumed; the requests the pass
  would send are returned as a call log next to the text, so that the number
  and order of detector and translator calls can be stated.
- `conversion.dfy` (module `Conversion`): the list of context languages
  offered once a target language is chosen, the normalisation of the input
  (translate it into the context language exactly when the detector says it
  is in another language), and the order of the steps behind the Convert
  button, with the mixer as a third function parameter.

The scanning rule, stated exactly: a span starts at a `{` whose first
following `}` is at least two characters further on; its content is
everything in between, which may contain `{`. So `"{a{b}c}"` holds the span
`"a{b"` followed by the literal characters `c` and `}`; `"{}"` is not a span;
an unterminated `"{abc"` is literal text. Matching resumes after each span's
closing brace.

The code has no per-span error isolation (an exception from a service call
ends the whole conversion), compares the detector's answer as a string
without checking it against the configured list, and does not re-check its
output, so the pass is not claimed to be idempotent.

## Model

| member | source | states |
|---|---|---|
| `Spans.FirstClose` | app.py:100 | the index found holds a `}` and no `}` lies between the start position and it; None means there is no `}` from the start position on |
| `Spans.SpanAtStart` | app.py:100 | a span it reports is a real match at the front of the text: non-empty content without `}`, in braces, as a prefix |
| `Spans.SpanAtStartComplete` | app.py:100 | whenever the pattern can match at the front of a text with some content, the scan reports exactly that content (the first `}` decides) |
| `Spans.Scan` | app.py:100 | every span the scan produces has non-empty content containing no `}` |
| `Spans.ScanRoundTrip` | app.py:100 | gluing the scanned pieces back together gives the input: everything outside spans is kept, in order |
| `Spans.ScanLeftmost` | app.py:100 | the scan leaves a character literal only where no match can start (leftmost matching) |
| `Spans.ScanIsTokenization` | app.py:100 | the scan is a correct split of its input in the sense of `IsTokenization` |
| `Spans.TokenizationUnique` | app.py:100 | any correct split of a text equals the scan's result, so the split is uniquely determined by the rule |
| `Spans.ScanSpanPrefix` | app.py:100 | a span at the front is taken as one span whatever text follows it |
| `Spans.ScanLiteralPrefix` | app.py:100 | characters without `{` are literal whatever text follows them |
| `Spans.NoCloseNoSpan` | app.py:100 | a text with no `}` (such as an unterminated `"{abc"`) has no span; all its characters are literal |
| `Spans.EmptyBracesAreLiteral` | app.py:100 | `"{}"` is two literal characters, never a span, whatever follows |
| `Spans.CharsHaveNoSpans` | app.py:100 | literal characters alone contain no span |
| `Spans.NestedOpenBrace` | app.py:100 | `"{a{b}c}"` is the span `"a{b"` followed by literal `c` and `}` |
| `PostProcess.NotInTargetEmpty` | app.py:96-98 | no span content needs translating exactly when the detector reports the target language for every one of them |
| `PostProcess.TranslateIfNeeded` | app.py:93-98 | a content detected as the target is kept in its braces, any other becomes `"{" + translate(content, target) + "}"`; one detector call on the content, then one translator call into the target only on disagreement, each in order |
| `PostProcess.Substitute` | app.py:100 | over a list of pieces, the detector is asked about exactly the span contents in order, and the translator about exactly those not detected as the target, in order |
| `PostProcess.PostProcessOutput` | app.py:92-100 | each span of the mixer's text gets exactly one detector call on its content, in span order; the translator is called once for each span content not detected as the target, right after that detection and into the target; no other call is made and none on the empty string; when no span content needs translating the output equals the input |
| `PostProcess.CallCount` | app.py:92-100 | a call log in order holds only detector and translator calls, so its length is the number of detections plus the number of translations |
| `PostProcess.SubstituteWellOrdered` | app.py:93-100 | for well-formed pieces every call is in order: non-empty detections, each translation right after the detection of the same text, into the target, only on disagreement |
| `PostProcess.SubstituteUnchanged` | app.py:93-100 | when no span content needs translating, the substitution gives back exactly the text the pieces were cut from |
| `PostProcess.NoSpanNoChange` | app.py:92-100 | a text without spans comes back unchanged and no service is called |
| `PostProcess.NoCloseUnchanged` | app.py:100 | a text with no `}`, such as an unterminated `"{abc"`, comes back unchanged and no service is called |
| `PostProcess.SpanReplaced` | app.py:93-98 | a leading span is kept verbatim, braces included, when detected as the target language, and otherwise becomes `"{" + translate(content, target) + "}"`; the rest of the text is processed independently |
| `PostProcess.LiteralPrefixCopied` | app.py:100 | leading text without `{` is copied to the output unchanged and causes no call |
| `PostProcess.EmptyBracesUntouched` | app.py:100 | `"{}"` is copied unchanged and causes neither a detector nor a translator call |
| `PostProcess.TwoSpans` | app.py:92-100 | two spans separated by literal text are each replaced by the callback's result while the text around them is kept |
| `PostProcess.RepairExample` | app.py:69-74 | for a sentence built from the prompt's two examples, `"I {love} to eat {苹果}."` (the untranslated `{love}` of app.py:74 and the correct `{苹果}` of app.py:71), with `love` detected in another language and `苹果` in Chinese, only the first span is replaced by its translation and the second is kept |
| `Conversion.PrimaryChoices` | app.py:109 | the context-language choices never include the target, include every other configured language, keep the configured order (a subsequence) and the configured repetitions (multiset) |
| `Conversion.NormalizeInput` | app.py:122-124 | the input is translated into the context language exactly when the detected language differs from it, and is kept as it is otherwise; one detector call, plus one translator call only when translating |
| `Conversion.Convert` | app.py:120-134 | an error exactly for empty input; otherwise the input is shown translated into the context language exactly when the detector reports another language for it, and as it is otherwise; the log is the input check's calls (a detection of the input, then its translation into the context language only when needed), then exactly one mixer call on the normalised text, then exactly the repair pass's calls; the detector sees the input and then every span of the mixer's answer, the translator the input when translated and then the spans not detected as the target; no detector or translator call gets the empty string; the output is the repair of the mixer's answer and equals that answer when every span in it is detected as the target |
| `Conversion.LogTexts` | app.py:121-128 | across a whole conversion the detector is asked about the input and then the span contents, the translator about the input when it is translated and then the spans not in the target |
| `Conversion.LogShape` | app.py:121-128 | a conversion's call log holds exactly one mixer call, right after the input check, and no detector or translator call on the empty string |

## Left out

- `detect_language`, `translate_text` and `convert_to_mixed_language` (app.py:33-90) are calls to a remote chat service. They are function parameters with no properties; the prompts, model name, `max_tokens`, `temperature` and the stripping of the reply are not modelled. Being functions, they give the same answer to the same question, which the real service need not; the call log records each question asked.
- Configuration and secret loading (app.py:10-31): file and environment I/O and global client setup.
- The Streamlit interface (app.py:102-108, 110-118, 125, 129-178; the list comprehension on line 109 is modelled): widgets, the choice between example sentences and custom text, the example-sentence lookup with its fallback list, the notice and warning messages (represented only by the `translated` flag and the `EmptyInput` error), the footer and image.
- Exceptions raised by the service calls: the source catches none, so any such failure ends the conversion; the model has no failing calls.
- A second repair pass over the output: the source does not re-check translated spans, and a translation that contains braces can produce new spans, so no idempotence is claimed.
- The `primary_language` parameter of `post_process_output` is unused in the source and unused in the model.
