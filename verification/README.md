# Chat option to form autofill, modelled in Dafny

This project models the text-to-form handoff of a chat front end. It covers:

- **The chat side.** An answer's text is scanned for numbered option lines, for example `1. Alpha`. Scanning stops at the first instruction line, a line whose trimmed form starts with `> 指令：`.
- **The click.** Clicking an option appends the option text, on a new line, to the current conversation's `text` input. The page then moves to a configured workflow path, carrying that text percent-encoded in the `autoFillText` query parameter.
- **The form side.** The receiving form decodes the parameter and chooses a prompt variable: the first paragraph, else the first text-like variable, else the first variable. It writes the text into a copy of its inputs and publishes that copy.
- **The rest of the form.** Clearing the form and single-field edits are also modelled. Both publish maps through `onInputsChange`, and edits also write the `inputsRef` mirror.

Strings are ECMAScript strings: sequences of UTF-16 code units (`JsText.JsString`), so a lone surrogate can be expressed. That matters because a lone surrogate is the only thing that makes `encodeURIComponent` throw, which sends the click into its fallback branch.

The modules are:

- `JsText`: the string operations the code uses.
  - `trim` strips ECMAScript white space and line terminators.
  - `split('\n')` and `join('\n')`, proved mutually inverse.
  - `startsWith`, `includes`, and an ASCII `toLowerCase`.
  - Well-formed UTF-16.
- `Regex`: a backtracking matcher for the regular-expression fragment the option pattern uses: multiline `^`/`$`, single characters, and greedy `*`/`+` of a character class with optional capture. Greedy repetition takes the longest run and then gives back one character at a time, as ECMA-262's RepeatMatcher does.
- `OptionScan`: the pattern `/^\s*(\d+)\.\s+(.+)$/gm` in three forms, proved equal or matching:
  - run through the matcher (`MatchAt`);
  - computed directly (`Analysed`);
  - described declaratively (`IsOptionMatch`).

  It also models `exec` from `lastIndex` and the repeated search of the `while` loop. `\s` matches line breaks, so `\s*` and `\s+` may cross lines; `.` never does.
- `OptionExtract`: the answer's displayed content, the cut at the instruction line, the option list as a function and as the component's two loops, and worked examples.
- `UriCodec`: `encodeURIComponent` and `decodeURIComponent` as ECMA-262's Encode and Decode define them, over UTF-8 and upper-case hexadecimal escapes.
- `Handoff`: `handleOptionClick`. It returns the navigation (`Navigate`, `NavigateFallback`, `NoContext` or `Aborted`), the notice shown, and whether the option popup closes.
- `RunOnce`: the field resolver, the autofill effect, `onClear`, `handleInputsChange` and the per-field edits.
- `Transfer`: the text's whole trip. The receiving page reads the click's address the way `searchParams.get` does: the fragment starts at the first `#`, the query follows the first `?` before it, pairs are split on `&` and names on the first `=`, and the first pair whose name reads as `autoFillText` supplies the raw value. The query layer decodes that value, and the form fills it in.

## Model

| member | source | states |
|---|---|---|
| `JsText.TrimIsTrimmed` | web/app/components/base/chat/chat/answer/operation.tsx:106 | the result of `trim` neither starts nor ends with white space |
| `JsText.Trim` | web/app/components/base/chat/chat/answer/operation.tsx:174 | `trim` never lengthens a string, leaves one without white space at either end unchanged, and empties an all-space one |
| `JsText.TrimRemovesOnlySpace` | web/app/components/base/chat/chat/answer/operation.tsx:106 | `trim` removes only white space: the input is the result with an all-space prefix and suffix |
| `JsText.TrimOfPadded` | web/app/components/base/chat/chat/answer/operation.tsx:174 | a trimmed string padded with white space trims back to itself, which makes `trim` unique |
| `JsText.TrimIdempotent` | web/app/components/base/chat/chat/answer/operation.tsx:174 | trimming twice is trimming once |
| `JsText.Split` | web/app/components/base/chat/chat/answer/operation.tsx:90 | `split('\n')` gives at least one piece, and no piece holds a line break |
| `JsText.Join` | web/app/components/base/chat/chat/answer/operation.tsx:95 | the joined text starts with the first line, followed by a line break when another line follows |
| `JsText.JoinSplit` | web/app/components/base/chat/chat/answer/operation.tsx:90-96 | joining the pieces of `split('\n')` with line breaks gives back the original string |
| `JsText.SplitJoin` | web/app/components/base/chat/chat/answer/operation.tsx:90-96 | splitting a join of line-free lines gives back the lines |
| `JsText.SplitConcat` | web/app/components/base/chat/chat/answer/operation.tsx:90 | a line break separates the lines of what precedes it from the lines of what follows |
| `Regex.Run` | web/app/components/base/chat/chat/answer/operation.tsx:99 | a match ends between its start and the input's end, fills one span per capture group, keeps earlier captures, and every new span lies inside the match |
| `Regex.Backtrack` | web/app/components/base/chat/chat/answer/operation.tsx:99 | greedy repetition keeps the same guarantees for every number of repetitions it tries |
| `Regex.MaxRunSpec` | web/app/components/base/chat/chat/answer/operation.tsx:99 | a greedy run is all class characters and cannot be extended |
| `OptionScan.MatchAt` | web/app/components/base/chat/chat/answer/operation.tsx:99 | a match found at a position starts there, ends within the text, and both groups lie inside it |
| `OptionScan.MatchAtIsAnalysed` | web/app/components/base/chat/chat/answer/operation.tsx:99 | what backtracking finds equals the direct reading: the whole leading space run, the whole digit run, a period, then the furthest gap that leaves a non-empty text, to the end of the line |
| `OptionScan.MatchAtSound` | web/app/components/base/chat/chat/answer/operation.tsx:99 | every match the engine reports starts where it was tried and is an instance of `^\s*(\d+)\.\s+(.+)$` |
| `OptionScan.MatchAtComplete` | web/app/components/base/chat/chat/answer/operation.tsx:99 | wherever the pattern can match, the engine reports a match |
| `OptionScan.MatchAtAdvances` | web/app/components/base/chat/chat/answer/operation.tsx:102-109 | no match is empty, so each `exec` moves `lastIndex` forward and the loop ends |
| `OptionScan.Exec` | web/app/components/base/chat/chat/answer/operation.tsx:102-108 | `exec` returns the leftmost match at or after `lastIndex`, and none only when no position from there matches |
| `OptionScan.ScanFrom` | web/app/components/base/chat/chat/answer/operation.tsx:102-109 | the repeated search yields engine matches in increasing, non-overlapping order |
| `OptionScan.ScanFromComplete` | web/app/components/base/chat/chat/answer/operation.tsx:102-109 | every position where the pattern matches lies inside one of the reported matches |
| `OptionScan.ScanFromSound` | web/app/components/base/chat/chat/answer/operation.tsx:102-109 | every reported match is an instance of the pattern |
| `OptionExtract.ReduceIsConcat` | web/app/components/base/chat/chat/answer/operation.tsx:80 | the left fold over the thoughts appends them in order |
| `OptionExtract.Content` | web/app/components/base/chat/chat/answer/operation.tsx:78-83 | the displayed text is the thoughts written one after another when there are any, otherwise the message |
| `OptionExtract.MarkerLineIgnoresTrailing` | web/app/components/base/chat/chat/answer/operation.tsx:91 | whether a line is an instruction line depends only on its leading white space: it is one exactly when it starts with the marker once that is stripped |
| `OptionExtract.MarkerFrom` | web/app/components/base/chat/chat/answer/operation.tsx:91 | `findIndex` returns the first instruction line at or after the start, or reports that there is none |
| `OptionExtract.MarkerIndex` | web/app/components/base/chat/chat/answer/operation.tsx:91 | the found index holds an instruction line and no line before it is one; `-1` means no line is one |
| `OptionExtract.Region` | web/app/components/base/chat/chat/answer/operation.tsx:90-96 | the scanned text is a prefix of the content |
| `OptionExtract.RegionIsPrefix` | web/app/components/base/chat/chat/answer/operation.tsx:90-96 | the scanned text is where the content starts; after it come a line break and the instruction |
| `OptionExtract.RegionHasNoMarker` | web/app/components/base/chat/chat/answer/operation.tsx:90-96 | no line of the scanned text is an instruction line |
| `OptionExtract.NoMarkerScansAll` | web/app/components/base/chat/chat/answer/operation.tsx:94-96 | without an instruction line the whole content is scanned |
| `OptionExtract.MarkerOnFirstLine` | web/app/components/base/chat/chat/answer/operation.tsx:90-96 | an instruction on the first line leaves no options |
| `OptionExtract.InstructionCutsTail` | web/app/components/base/chat/chat/answer/operation.tsx:90-99 | whatever follows an instruction line, numbered lines included, never changes the options |
| `OptionExtract.ToChoice` | web/app/components/base/chat/chat/answer/operation.tsx:104-107 | an option's number is exactly the digits of the first group; its text is the second group without white space at either end, so trimmed and on one line |
| `OptionExtract.Options` | web/app/components/base/chat/chat/answer/operation.tsx:86-112 | empty content gives no options, and every option is well shaped |
| `OptionExtract.OptionsSpec` | web/app/components/base/chat/chat/answer/operation.tsx:99-111 | the options are exactly the pattern's matches in the scanned text, in left-to-right order, non-overlapping, and missing no place where the pattern matches |
| `OptionExtract.ExtractOptions` | web/app/components/base/chat/chat/answer/operation.tsx:86-112 | the `findIndex` loop and the `exec` loop compute exactly the option list |
| `OptionExtract.FindInstruction` | web/app/components/base/chat/chat/answer/operation.tsx:91 | the `findIndex` loop stops at the first instruction line, and runs to the end exactly when there is none |
| `OptionExtract.ScanOptions` | web/app/components/base/chat/chat/answer/operation.tsx:102-109 | the `exec` loop pushes one option per match of the global search, in the order found |
| `OptionExtract.GapCrossesLines` | web/app/components/base/chat/chat/answer/operation.tsx:99 | `1.` followed on the next line by `2. foo` gives the single option `1` with text `2. foo` |
| `OptionExtract.InstructionEndsOptions` | web/app/components/base/chat/chat/answer/operation.tsx:90-109 | in `1. A`, `2. B`, `> 指令：x`, `3. C` only options 1 and 2 are found |
| `OptionExtract.TwoOptions` | web/app/components/base/chat/chat/answer/operation.tsx:102-109 | two numbered one-character lines give their two options in order |
| `OptionExtract.DuplicatesKept` | web/app/components/base/chat/chat/answer/operation.tsx:102-109 | the same option twice is listed twice |
| `UriCodec.Encode` | web/app/components/base/chat/chat/answer/operation.tsx:178 | `encodeURIComponent` never shortens a string and copies a string of unreserved characters unchanged |
| `UriCodec.Decode` | web/app/components/share/text-generation/run-once/index.tsx:51 | `decodeURIComponent` never lengthens a string |
| `UriCodec.Utf8RoundTrip` | web/app/components/share/text-generation/run-once/index.tsx:51 | decoding the UTF-8 bytes of a code point gives the code point back |
| `UriCodec.EncodeFailsIffIllFormed` | web/app/components/base/chat/chat/answer/operation.tsx:176-207 | `encodeURIComponent` throws exactly when the string holds a lone surrogate |
| `UriCodec.EncodeAlphabet` | web/app/components/base/chat/chat/answer/operation.tsx:190 | encoded text holds only unreserved characters, `%` and upper-case hexadecimal digits |
| `UriCodec.DecodeEncode` | web/app/components/base/chat/chat/answer/operation.tsx:178 | `decodeURIComponent(encodeURIComponent(s))` is `s` for every well-formed string |
| `UriCodec.DecodeShrinks` | web/app/components/share/text-generation/run-once/index.tsx:51 | decoding never lengthens a string and shortens every string holding a `%` |
| `UriCodec.DecodeIdentityIffNoPercent` | web/app/components/share/text-generation/run-once/index.tsx:51 | `decodeURIComponent` leaves a string unchanged exactly when it holds no `%` |
| `Handoff.CurrentInputs` | web/app/components/base/chat/chat/answer/operation.tsx:161-163 | the current conversation's inputs when it has an id, otherwise the new conversation's |
| `Handoff.PriorText` | web/app/components/base/chat/chat/answer/operation.tsx:171-174 | the trimmed `text` input, the empty string when it is missing or falsy, and a `TypeError` exactly when it is a truthy non-string |
| `Handoff.Compose` | web/app/components/base/chat/chat/answer/operation.tsx:174 | the composed text is the previous text, then a line break, then the option |
| `Handoff.ComposeSplits` | web/app/components/base/chat/chat/answer/operation.tsx:174 | the option is the last line of the composed text and the lines before it give back the previous text |
| `Handoff.FormattedPath` | web/app/components/base/chat/chat/answer/operation.tsx:184 | the path loses at most one leading `/`, and is unchanged exactly when it does not start with one |
| `Handoff.FormattedPathStripsOne` | web/app/components/base/chat/chat/answer/operation.tsx:184 | a path starting with `//` keeps its second `/` |
| `Handoff.BaseUrl` | web/app/components/base/chat/chat/answer/operation.tsx:190 | the address is the origin followed by the path when the path starts with `/`, and by `/` and the path otherwise |
| `Handoff.OptionClick` | web/app/components/base/chat/chat/answer/operation.tsx:155-215 | no context means no navigation and an error notice; the click aborts, with no notice and the popup left open, exactly when `trim` throws; it navigates with the text, with an info notice, exactly when the sent text encodes, to the base address followed by `?autoFillText=` and the encoded sent text; otherwise it falls back to the bare address with an error notice |
| `Handoff.SentText` | web/app/components/base/chat/chat/answer/operation.tsx:171-174 | the sent text is the conversation's trimmed `text` input (empty when missing or falsy), a line break and the option, and there is none exactly when `trim` throws |
| `Handoff.ClickCarriesText` | web/app/components/base/chat/chat/answer/operation.tsx:176-207 | inside a chat the click navigates with the text exactly when the text is well-formed, falls back otherwise; the query value after `?autoFillText=` is `encodeURIComponent`'s output, holds only URL-safe units, and decodes to the text |
| `RunOnce.FindFrom` | web/app/components/share/text-generation/run-once/index.tsx:56-61 | `find` returns the first variable satisfying the rule, or reports that none does |
| `RunOnce.ResolveIndex` | web/app/components/share/text-generation/run-once/index.tsx:56-64 | a variable is chosen exactly when the list is non-empty |
| `RunOnce.Resolve` | web/app/components/share/text-generation/run-once/index.tsx:64 | the chosen variable is always one of the prompt variables, and there is one exactly when the list is non-empty |
| `RunOnce.ResolveIsFirstBest` | web/app/components/share/text-generation/run-once/index.tsx:56-64 | the choice has the best rank in the list (paragraph, then text-like, then other) and is the first of that rank |
| `RunOnce.FirstBestIsResolved` | web/app/components/share/text-generation/run-once/index.tsx:56-64 | conversely, the first variable of the best rank is the one chosen |
| `RunOnce.ParagraphWins` | web/app/components/share/text-generation/run-once/index.tsx:56-64 | the first paragraph is chosen, wherever it stands |
| `JsText.ToLowerAscii` | web/app/components/share/text-generation/run-once/index.tsx:60 | lower-casing keeps the length, turns each ASCII capital into its small letter and leaves every other unit as it is |
| `RunOnce.TextLikeAnyCase` | web/app/components/share/text-generation/run-once/index.tsx:59-61 | a variable is text-like exactly when it is of type `string` or its name spells `text` somewhere in any mix of ASCII case |
| `RunOnce.TextLikeNext` | web/app/components/share/text-generation/run-once/index.tsx:59-64 | without a paragraph, the first `string` variable or variable named with `text` is chosen |
| `RunOnce.FirstOtherwise` | web/app/components/share/text-generation/run-once/index.tsx:64 | with neither, the first variable is chosen |
| `RunOnce.SetKey` | web/app/components/share/text-generation/run-once/index.tsx:68-69 | the copy has the old keys plus the new one, the new value under it, and every other value unchanged |
| `RunOnce.FillText` | web/app/components/share/text-generation/run-once/index.tsx:64-78 | with a variable, the mirror's map with the chosen key set is published and the mirror is not written; without one, nothing changes |
| `RunOnce.FillTextFrame` | web/app/components/share/text-generation/run-once/index.tsx:68-70 | the published map differs from the mirror in the chosen key only |
| `RunOnce.AutofillFrom` | web/app/components/share/text-generation/run-once/index.tsx:47-86 | an absent or empty parameter or a failing decode changes nothing; otherwise the decoded text is filled in |
| `RunOnce.AutofillPlainText` | web/app/components/share/text-generation/run-once/index.tsx:51 | a parameter without `%` is written as it is |
| `RunOnce.Cleared` | web/app/components/share/text-generation/run-once/index.tsx:90-93 | the cleared map's keys are exactly the variables' keys, each holding the empty text |
| `RunOnce.Clear` | web/app/components/share/text-generation/run-once/index.tsx:89-95 | `onClear` publishes that map and does not write the mirror |
| `RunOnce.HandleInputsChange` | web/app/components/share/text-generation/run-once/index.tsx:102-105 | the mirror equals the published map |
| `RunOnce.EditValue` | web/app/components/share/text-generation/run-once/index.tsx:120-161 | `select`, `string`, `paragraph` and `number` controls write the typed text; a file control writes the first upload, or `undefined` when there is none; a file-list control writes all uploads; any other pairing writes nothing |
| `RunOnce.EditField` | web/app/components/share/text-generation/run-once/index.tsx:120-161 | an edit writes exactly one key over the mirror, and publishes and mirrors the result |
| `RunOnce.EditsKeepMirror` | web/app/components/share/text-generation/run-once/index.tsx:102-105 | after any sequence of edits the mirror still equals the published map |
| `RunOnce.EditAfterAutofill` | web/app/components/share/text-generation/run-once/index.tsx:66-70 | the next edit of another field publishes the mirror's old value for the autofilled key |
| `Transfer.QueryValue` | web/app/components/share/text-generation/run-once/index.tsx:48 | a raw value without `+` reads as its percent-decoding |
| `Transfer.QueryValueOfEncoded` | web/app/components/share/text-generation/run-once/index.tsx:48 | the query layer hands the form exactly the text the click encoded |
| `Transfer.ArrivalAsWritten` | web/app/components/share/text-generation/run-once/index.tsx:48-86 | the form's mirror is never written, a text that is not filled in leaves the form as it was, and a filled one adds exactly the chosen key |
| `Transfer.ArrivalAsWrittenNeedsNoPercent` | web/app/components/share/text-generation/run-once/index.tsx:48-51 | with the second decode, a text reaches the form intact exactly when it holds no `%` |
| `Transfer.PercentOptionIsLost` | web/app/components/share/text-generation/run-once/index.tsx:51 | the option `%` picked with no previous text makes the second decode throw, and the form is not filled |
| `Transfer.ArrivalOnce` | web/app/components/share/text-generation/run-once/index.tsx:48-70 | with one decode, the same frame: the mirror is never written, nothing changes unless the text is filled in, and then exactly the chosen key is added |
| `Transfer.ArrivalOnceDelivers` | web/app/components/share/text-generation/run-once/index.tsx:48-70 | decoding once, every well-formed text reaches the chosen field intact and nothing else changes |
| `Transfer.QueryOf` | web/app/components/share/text-generation/run-once/index.tsx:44 | the query the page sees holds no `#`, and an address without `?` has an empty query |
| `Transfer.Lookup` | web/app/components/share/text-generation/run-once/index.tsx:48 | the raw value found holds no `&`, and a single pair whose name does not read as the one sought gives nothing |
| `Transfer.SearchParam` | web/app/components/share/text-generation/run-once/index.tsx:48 | `searchParams.get` finds no named parameter in an address without `?` |
| `Transfer.ParamOfClick` | web/app/components/base/chat/chat/answer/operation.tsx:190 | behind a base address without `?` or `#`, the page reads the encoded text as `autoFillText` and decodes it once |
| `Transfer.ClickToForm` | web/app/components/base/chat/chat/answer/operation.tsx:176-196 | for an origin and configured path without `?` or `#`, the page's `autoFillText` parameter is exactly the composed text, and a single-decode form fills it in unchanged |
| `Transfer.PathQueryHidesText` | web/app/components/base/chat/chat/answer/operation.tsx:184-190 | a configured path with its own query, such as `/w?a=1`, makes the page's query one pair named after that query's key, so no `autoFillText` parameter arrives |
| `Transfer.ExamplePathQuery` | web/app/components/base/chat/chat/answer/operation.tsx:184-190 | with the configured path `/w?a=1` the page finds no `autoFillText` parameter |
| `Transfer.ExamplePathFragment` | web/app/components/base/chat/chat/answer/operation.tsx:184-190 | with the configured path `/w#top` the page finds no `autoFillText` parameter |
| `Transfer.PathFragmentHidesText` | web/app/components/base/chat/chat/answer/operation.tsx:184-190 | a configured path with a fragment, such as `/w#top`, moves `?autoFillText=` into the fragment, so the page sees no query at all |

## Left out

- Logging, toasts and navigation are side effects. The notice is returned as a tag:
  - `Redirecting` is the info notice;
  - `AutofillFailed` and `NoFormData` are the two error notices.
- `window.location.origin` and the workflow path setting are passed in as parameters. An unset path is the empty string.
- React plumbing is left out: hooks, memoisation, effect scheduling, rendering, and the click-outside listener.
- Also left out: feedback, annotation, audio, copy buttons and the `operationWidth` arithmetic. They are presentational or call out to other components.
- The parent component that owns the inputs is not part of this model. `FormState.published` is the last map handed to `onInputsChange`. If the parent also wrote `inputsRef`, `EditAfterAutofill` would not apply.
- `getProcessedFiles` is not part of this model. An upload is known only by an identifier, and the identifiers passed in are the processed ones.
- The value a select control reports is modelled as text.
- An inputs map is a Dafny `map`, which has no key order. The order in which a JavaScript object keeps its keys, and which `{ ...inputsRef.current }` preserves, is lost.
- `toLowerCase` is modelled on ASCII letters only. This does not change whether a name contains `text`. Outside ASCII, only two units lower-case to ASCII letters: U+0130 becomes `i` followed by U+0307, and U+212A becomes `k`. Neither yields `t`, `e` or `x`.
- Transfer.QueryValue reads `+` as a space and decodes escapes strictly. URLSearchParams handles malformed escapes leniently: it keeps them as written and replaces bad UTF-8 with U+FFFD. That lenient handling is a failure here. Text built by `encodeURIComponent` never takes that path (`EncodeAlphabet`, `QueryValueOfEncoded`).
- The browser's own escaping of `'` in a query string is left out. `searchParams.get` decodes it back, so the delivered value is the same.
- Transfer.ClickToForm promises delivery only when the origin and the configured path hold no `?` or `#`. The code appends `?autoFillText=` to the path without parsing it, so a path with its own query or fragment hides the parameter: `PathQueryHidesText` and `PathFragmentHidesText` prove this.
- UriCodec.Decode does not distinguish the various `URIError` cases, because the code catches them all alike.
- The option number passed to the click handler is only logged, and is left out.

## Findings

| source | as written | input that shows it | evidently intended | confidence | as-written member | corrected member |
|---|---|---|---|---|---|---|
| web/app/components/share/text-generation/run-once/index.tsx:51 | the form decodes `autoFillText` with `decodeURIComponent`, although `searchParams.get` has already decoded it once | choosing the option `%` with no previous text: the composed text is a line break and `%`, and the second decode throws, so the form is not filled; `%41` would arrive as `A` | the field receives exactly the composed text | high, not executed | `Transfer.PercentOptionIsLost` | `Transfer.ArrivalOnceDelivers` |
