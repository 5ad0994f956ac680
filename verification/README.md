# TATIP upload-and-translate page: a Dafny model

TATIP ("Text Analysis and Translation from Image Platform") is a browser front
end. The user picks an image and the page checks it. The page then posts the
image to a remote service and shows the extracted text, optionally broken into
lines, with copy buttons and a word and line count. The page exists twice: a
dark page and a light page. Their logic is nearly the same.

This project models that logic once, as an immutable `ViewState` record and
pure transition functions, parameterised by `Variant`:

- `Strict` is the dark page (`src/components/ServicePageDark.tsx`).
- `Lenient` is the light page (`src/components/ServicePage.tsx`).

Modules:

- `Optional`: the `Option` type, standing for JavaScript's `null` and `undefined`.
- `JsText`: `text.split(/\s+/)` as ECMAScript defines it, over strings of
  Unicode scalar values, written as the
  left-to-right scan the algorithm performs. `IsWs` is the exact
  `\s` character set. The module also has an independent left-to-right count of
  whitespace runs, and lemmas relating the two.
- `Admission`: the file admission gate (`validateFile`). It has the media-type
  allow-list or `image/` prefix, the inclusive 10 MiB ceiling, the messages,
  and loop implementations of `includes` and `startsWith`.
- `View`: the page state and its handlers. `handleTranslate` is split into an
  atomic start (`StartTranslate`, or `SubmitClicked` through the button) and an
  atomic completion (`Complete`). The network outcome arrives as a `Response`
  value. The module also has the derived views: the summary box and the
  rendered line list.
- `Flow`: the page driven by a trace of events. It counts sent and unanswered
  requests, and proves that at most one request is ever in flight.

The light page has no `fileError` state. The single `ViewState` keeps the field,
and `View.Valid` states that it stays empty on the light page. `Flow.Inv`
carries that fact through every trace.

## Model

| member | source | states |
|---|---|---|
| `JsText.SplitScan` | src/components/ServicePageDark.tsx:233 | the left-to-right scan that `split(/\s+/)` performs (a run's first whitespace character ends a piece, the rest of the run is skipped) always yields at least one piece, and no piece contains a `\s` character |
| `JsText.Split` | src/components/ServicePageDark.tsx:233 | `split(/\s+/)` always yields at least one piece, and no piece contains a `\s` character; `JsText.IsWs` is that character class, the ECMAScript WhiteSpace and LineTerminator code points |
| `JsText.SplitCountsRuns` | src/components/ServicePageDark.tsx:233 | the displayed word count `split(/\s+/).length` equals one plus the number of maximal whitespace runs, counted by an independent scanning automaton |
| `JsText.SplitKeepsNonWs` | src/components/ServicePage.tsx:225 | the pieces, concatenated, are exactly the text with every whitespace character removed: splitting loses the separators and nothing else |
| `JsText.SplitFirstPiece` | src/components/ServicePageDark.tsx:233 | the first piece is empty if and only if the text is empty or starts with whitespace, so leading whitespace adds one to the word count |
| `JsText.SplitLastPiece` | src/components/ServicePageDark.tsx:233 | the last piece is empty if and only if the text is empty or ends with whitespace, so trailing whitespace adds one to the word count |
| `JsText.SplitInteriorNonEmpty` | src/components/ServicePage.tsx:225 | every piece strictly between the first and the last is a non-empty word |
| `JsText.TwoWords` | src/components/ServicePage.tsx:225 | two whitespace-free strings joined by one whitespace character split back into exactly those two strings |
| `JsText.HelloWorldHasTwoWords` | src/components/ServicePageDark.tsx:233 | "Hello world" splits into "Hello" and "world", so two words are shown |
| `JsText.AllWhitespaceCountsTwo` | src/components/ServicePageDark.tsx:233 | a text of three spaces splits into two empty pieces, so the page shows two words for a text with none |
| `JsText.LeadingSpaceCountsAsWord` | src/components/ServicePage.tsx:225 | " hello" splits into an empty piece and "hello", so the page shows two words for one |
| `Admission.Validate` | src/components/ServicePageDark.tsx:22-38 | no rejection if and only if the type is allowed and the size is at most 10 MiB; "wrong type" exactly when the type is not allowed, whatever the size; "too large" exactly when the type is allowed and the size exceeds the ceiling |
| `Admission.Message` | src/components/ServicePageDark.tsx:27 | every rejection reason has a non-empty message on each page: the dark page's wrong-type and too-large texts (ServicePageDark.tsx:27,32) and the light page's (ServicePage.tsx:24,30), word for word |
| `Admission.ValidationError` | src/components/ServicePage.tsx:21-34 | the light page's check returns null if and only if the file is admitted; otherwise a non-empty message, the type message taking precedence over the size message |
| `Admission.MessagesDistinguishReasons` | src/components/ServicePageDark.tsx:26-34 | on each page the wrong-type message differs from the too-large message |
| `Admission.SizeCeilingInclusive` | src/components/ServicePageDark.tsx:24-34 | with an allowed type, a file of exactly 10·1024·1024 bytes is admitted and one of 10·1024·1024+1 bytes is refused as too large |
| `Admission.TypeCheckFirst` | src/components/ServicePage.tsx:23-31 | a file of a refused type is reported as the wrong type, even when it is also too large |
| `Admission.StrictWithinLenient` | src/components/ServicePage.tsx:23 | every file the dark page admits is admitted by the light page |
| `Admission.LenientAdmitsMore` | src/components/ServicePageDark.tsx:23-29 | a 1 KiB `image/webp` file is admitted by the light page and refused as the wrong type by the dark page |
| `Admission.ListIncludes` | src/components/ServicePageDark.tsx:26 | the linear scan finds the media type if and only if it is in the list |
| `Admission.StartsWith` | src/components/ServicePage.tsx:23 | the character comparison answers true if and only if the string begins with the prefix |
| `Admission.CheckFile` | src/components/ServicePageDark.tsx:22-38 | the gate, run with the list scan or prefix comparison, admits exactly the files `Admits` describes and gives the same reason as `Validate` |
| `View.FileChosen` | src/components/ServicePageDark.tsx:40-49 | only the selection and the inline error can change, and an event with no file changes nothing. An admitted file becomes the selection. A refused file clears the selection on the dark page and keeps the previous one on the light page. The dark page's error is empty exactly on admission, and otherwise names the reason |
| `View.Clear` | src/components/ServicePageDark.tsx:84-89 | the selection, text and lines are reset, and the dark page's error too. Loading, checkbox and copy marker are unchanged. Afterwards submit is disabled and no result is shown |
| `View.StartTranslate` | src/components/ServicePageDark.tsx:51-61 | a request is sent if and only if a file is selected. It carries that file and a flag string that reads back as the checkbox value. Sending sets only the loading flag. Without a file, only the dark page's error changes, to "Please select a file first!" |
| `View.SubmitClicked` | src/components/ServicePageDark.tsx:173-175 | with `View.SubmitEnabled` as the button's enabled state (disabled without a file or while loading, line 175), a click sends a request if and only if submit is enabled; afterwards submit is disabled. A disabled click changes nothing. The error text is never changed by a click |
| `View.Complete` | src/components/ServicePageDark.tsx:63-81 | the page always leaves the loading state, and the selection, checkbox and copy marker are unchanged. Success replaces the text and the lines, with absent lines read as none, and keeps the error. Failure keeps the previous text and lines, and the dark page shows the failure notice |
| `View.ToggleLines` | src/components/ServicePage.tsx:158 | the checkbox sets the individual-lines flag and nothing else |
| `View.CopyDone` | src/components/ServicePage.tsx:90-93 | after a copy exactly the copied unit is marked, whatever was marked before; nothing else changes |
| `View.CopyExpired` | src/components/ServicePage.tsx:93 | after the timer no unit is marked; nothing else changes |
| `View.LatestCopyWins` | src/components/ServicePage.tsx:90-93 | after two copies in a row only the later unit is marked, and the first copy's timer, which is never cancelled, clears that later mark too |
| `View.AnalysisSummary` | src/components/ServicePageDark.tsx:230-239 | the summary is shown if and only if the text is non-empty (`View.ResultShown`, the `translatedText &&` guard at line 188); its word count is one plus the whitespace-run count, hence at least one; a line count is shown if and only if individual lines are on and there is at least one line, and then equals the number of lines |
| `View.ShownLines` | src/components/ServicePageDark.tsx:208-229 | the rendered list is either empty or exactly the lines in the service's order, and is non-empty if and only if the result is shown (`View.ResultShown`), individual lines are on and there is a line |
| `View.FormFlagRoundTrip` | src/components/ServicePageDark.tsx:61 | the flag string `View.FormFlag` (`useIndividualLines.toString()`) sent with the image reads back as the boolean it was made from |
| `View.ClearIdempotent` | src/components/ServicePage.tsx:84-88 | clearing twice is the same as clearing once |
| `View.NoSecondStart` | src/components/ServicePageDark.tsx:175 | once a click has started a request, a further click sends nothing and changes nothing |
| `View.ToggleShowsLines` | src/components/ServicePage.tsx:227-231 | with a result and at least one line, the checkbox alone decides whether the line count and the line list appear |
| `View.VariantsDifferOnRefusal` | src/components/ServicePage.tsx:41-46 | when an oversized PNG is picked over a selected file, the dark page drops the selection and the light page keeps it |
| `View.HelloWorldResult` | src/components/ServicePageDark.tsx:233-239 | the answer "Hello world" with lines "Hello", "world", with individual lines on, shows 2 words and 2 lines, in that order |
| `View.NoLinesWhenOmitted` | src/components/ServicePage.tsx:75 | an answer without a line breakdown shows no line list and no line count |
| `Flow.Step` | src/components/ServicePageDark.tsx:40-96 | every event preserves the invariant: at most one request is unanswered, loading is on exactly while one is, and the light page has no error text. A request is sent exactly when submit is pressed while enabled |
| `Flow.Run` | src/components/ServicePage.tsx:167 | a whole trace preserves the invariant, and sends at most one request per event |
| `Flow.AtMostOneInFlight` | src/components/ServicePageDark.tsx:175 | from a fresh page (`View.Initial`, the `useState` defaults at ServicePageDark.tsx:14-20), after any trace, at most one request is unanswered, and the page is loading exactly while one is |
| `Flow.DoubleSubmitSendsOnce` | src/components/ServicePage.tsx:167 | two submit presses in a row send at most one request |
| `Flow.NoFileNoRequest` | src/components/ServicePage.tsx:52-55 | with no file selected, pressing submit sends nothing and changes nothing |
| `Flow.AnswerReenablesSubmit` | src/components/ServicePage.tsx:79-81 | after the answer to the request in flight, success or failure, nothing is in flight and submit is enabled again if and only if a file is still selected |

Behaviour of the code that a reader might not expect, and that the model
keeps:

- **Word count.** The code shows `split(/\s+/).length`, not the number of
  non-empty tokens. Leading or trailing whitespace adds an empty piece to the
  count, and a non-empty all-whitespace text counts 2; the empty text shows
  no summary at all. See `JsText.SplitFirstPiece`, `JsText.SplitLastPiece`,
  `JsText.LeadingSpaceCountsAsWord` and `JsText.AllWhitespaceCountsTwo`.
- **Choosing a new file.** This does not clear the previous result:
  `View.FileChosen` keeps the text and the lines.
- **Refused file.** The dark page unsets the selection; the light page keeps
  the previous selection.
- **Failed request.** This keeps the previous result on both pages.
- **Successful request.** On the dark page this does not clear an earlier
  error text.
- **Missing-file notice.** The submit button is disabled without a file, so
  the "select a file first" branch of `handleTranslate` cannot be reached by a
  click (`View.SubmitClicked`). `View.StartTranslate` models the branch anyway.

## Left out

- `src/components/LandingPage.tsx`: presentational markup and fixed prices only.
- JSX rendering, CSS classes, icons and theme differences: presentation only.
  The rendered parts that carry logic are modelled: the summary box, the line
  list, the copy mark and the disabled state.
- `fetch`, `FormData` and the fixed endpoint URL: network I/O. The request is
  the `View.Request` value. The answer is a `View.Response` input.
- `response.json()`: a foreign parser. `Translated` assumes a 2xx body that
  parses to a string `fullText` and an array of line records or an absent
  `lines`. `Failed` stands for the four ways the `catch` is reached: `fetch`
  itself rejects (a transport failure), a non-2xx status, a body that is not
  JSON or cannot be read, and a JSON `null` body. A valid
  JSON body of any other shape is left out: `{}` stores an undefined text
  with no notice, and a non-array `lines` makes the rendering throw.
- `navigator.clipboard.writeText` and `setTimeout`: browser asynchrony. Only
  their effects are modelled, as `CopyDone` and `CopyExpired`. The real timers
  are never cancelled, so an older timer can clear a newer mark. Which
  timer fires when is not modelled: `CopyExpired` is an event that clears
  whatever mark there is, and `View.LatestCopyWins` shows the early clear.
- `alert()`, `console.error` and the reset of the file input's value: side
  effects that change none of the modelled state. The light page's alert
  texts are the values of `Admission.ValidationError` and the fixed strings of
  its source.
- Strings are sequences of Unicode scalar values, whereas JavaScript strings
  are UTF-16 code units. Every `\s` character is a single non-surrogate code
  unit, so the word count agrees, but a text holding a lone surrogate cannot
  be represented.
- The file's bytes: only its name, declared media type and size are modelled.
- Admission.File: `size` is an unbounded natural. JavaScript numbers above
  2^53 are not modelled.
- Flow.Step: the clear and copy events are accepted whether or not their
  buttons are rendered. The traces therefore include every trace the page
  allows, so the invariants hold a fortiori.
- A response that arrives after the user cleared or replaced the file is
  applied to the current state, as in the code. There is no staleness guard in
  the code, so the model has none either.
