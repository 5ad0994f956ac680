/** The state of the upload-and-translate page and the handlers that change
    it, written once for both pages and parameterised by `Variant`. Every
    handler is a pure function from the old state to the new one; the
    asynchronous `handleTranslate` is split into its synchronous start and
    the later completion, whose network outcome arrives as a `Response`. */
module View {
  import opened Optional
  import opened Admission
  import JsText

  /** One line record of the service's per-line breakdown. */
  datatype Line = Line(text: string)

  /** What `copiedIndex` points at: the full text, or one line by position. */
  datatype CopyUnit = FullText | LineAt(index: nat)

  /** The page's React state. `fileError` exists only on the dark page; on
      the light page it stays empty (see `Valid`). */
  datatype ViewState = ViewState(
    selectedFile: Option<File>,
    translatedText: string,
    sentences: seq<Line>,
    isLoading: bool,
    copiedIndex: Option<CopyUnit>,
    useIndividualLines: bool,
    fileError: string)

  /** The state a page starts in. */
  const Initial: ViewState := ViewState(None, "", [], false, None, false, "")

  const SelectFirstMessage: string := "Please select a file first!"
  const ProcessingFailedMessage: string := "An error occurred while processing the image."

  /** The light page has no inline error text. */
  predicate Valid(v: Variant, s: ViewState) {
    v == Lenient ==> s.fileError == ""
  }

  /** The outcome of the round trip to the translation service, already
      parsed: the full text and the optional line breakdown, or a failure
      (a transport error, an error status, a body that is not JSON or a JSON
      `null` body alike). */
  datatype Response = Translated(fullText: string, lines: Option<seq<Line>>) | Failed

  /** The multipart body sent to the service: the image and the
      individual-lines flag as a string. */
  datatype Request = Request(image: File, useIndividualLines: string)

  /** The state right after the translate handler's synchronous part, and the
      request it sent, if any. */
  datatype Started = Started(state: ViewState, request: Option<Request>)

  /** `Boolean.prototype.toString`. */
  function FormFlag(b: bool): string {
    if b then "true" else "false"
  }

  /** How the literal flag strings read back as booleans. */
  function ParseFormFlag(t: string): (r: Option<bool>)
    ensures r.Some? <==> t == "true" || t == "false"
  {
    if t == "true" then Some(true) else if t == "false" then Some(false) else None
  }

  /** The flag written into the request reads back as the checkbox value. */
  lemma FormFlagRoundTrip(b: bool)
    ensures ParseFormFlag(FormFlag(b)) == Some(b)
  {
  }

  /** The submit button is enabled when a file is selected and no request is
      in flight. */
  predicate SubmitEnabled(s: ViewState) {
    s.selectedFile.Some? && !s.isLoading
  }

  /** Whether the result panel is rendered: a non-empty translated text. */
  predicate ResultShown(s: ViewState) {
    s.translatedText != ""
  }

  /** `handleFileChange`. A pick without a file changes nothing. An admitted
      file becomes the selection. A refused file clears the selection on the
      dark page and leaves it alone on the light page. Only the dark page
      writes `fileError`: empty on admission, the reason on refusal. */
  function FileChosen(v: Variant, s: ViewState, pick: Option<File>): (r: ViewState)
    ensures r == s.(selectedFile := r.selectedFile, fileError := r.fileError)
    ensures pick.None? ==> r == s
    ensures pick.Some? && Admits(v, pick.value) ==> r.selectedFile == pick
    ensures pick.Some? && !Admits(v, pick.value) ==>
      r.selectedFile == (if v == Strict then None else s.selectedFile)
    ensures v == Strict && pick.Some? ==> (r.fileError == "" <==> Admits(v, pick.value))
    ensures v == Strict && pick.Some? && !TypeAllowed(v, pick.value.mediaType) ==>
      r.fileError == Message(v, WrongType)
    ensures v == Strict && pick.Some? && TypeAllowed(v, pick.value.mediaType) && pick.value.size > MaxSize ==>
      r.fileError == Message(v, TooLarge)
    ensures v == Lenient ==> r.fileError == s.fileError
  {
    match pick
    case None => s
    case Some(f) =>
      match Validate(v, f)
      case None =>
        if v == Strict then s.(selectedFile := pick, fileError := "") else s.(selectedFile := pick)
      case Some(why) =>
        if v == Strict then s.(selectedFile := None, fileError := Message(v, why)) else s
  }

  /** `clearFile`: forgets the selection and the result (and, on the dark
      page, the inline error); the loading flag, the checkbox and the copy
      marker are untouched. */
  function Clear(v: Variant, s: ViewState): (r: ViewState)
    ensures r.selectedFile.None? && r.translatedText == "" && r.sentences == []
    ensures r.isLoading == s.isLoading
    ensures r.useIndividualLines == s.useIndividualLines && r.copiedIndex == s.copiedIndex
    ensures r.fileError == (if v == Strict then "" else s.fileError)
    ensures !SubmitEnabled(r) && !ResultShown(r)
  {
    var r := s.(selectedFile := None, translatedText := "", sentences := []);
    if v == Strict then r.(fileError := "") else r
  }

  /** The synchronous part of `handleTranslate`. Without a selected file no
      request is sent and the loading flag is not touched; the dark page
      shows the "select a file first" notice. Otherwise the page enters the
      loading state and sends the selected file with the checkbox value. */
  function StartTranslate(v: Variant, s: ViewState): (r: Started)
    ensures r.request.Some? <==> s.selectedFile.Some?
    ensures r.request.Some? ==> r.request.value.image == s.selectedFile.value
    ensures r.request.Some? ==>
      ParseFormFlag(r.request.value.useIndividualLines) == Some(s.useIndividualLines)
    ensures r.request.Some? ==> r.state == s.(isLoading := true)
    ensures r.request.None? ==> r.state == s.(fileError := r.state.fileError)
    ensures r.request.None? && v == Strict ==> r.state.fileError == SelectFirstMessage
    ensures r.request.None? && v == Lenient ==> r.state == s
  {
    match s.selectedFile
    case None =>
      if v == Strict then Started(s.(fileError := SelectFirstMessage), None) else Started(s, None)
    case Some(f) =>
      Started(s.(isLoading := true), Some(Request(f, FormFlag(s.useIndividualLines))))
  }

  /** A click on the submit button. The button is disabled unless
      `SubmitEnabled`, so a click either starts a request or does nothing;
      in particular it never reaches the "select a file first" branch. */
  function SubmitClicked(v: Variant, s: ViewState): (r: Started)
    ensures r.request.Some? <==> SubmitEnabled(s)
    ensures r.request.None? ==> r.state == s
    ensures r.request.Some? ==> r.state.isLoading && !SubmitEnabled(r.state)
    ensures r.state.fileError == s.fileError
  {
    if SubmitEnabled(s) then StartTranslate(v, s) else Started(s, None)
  }

  /** The rest of `handleTranslate`, once the service has answered. Success
      replaces the text and the lines (an absent breakdown counts as none);
      failure keeps both and, on the dark page, shows the failure notice.
      Either way the page leaves the loading state. */
  function Complete(v: Variant, s: ViewState, resp: Response): (r: ViewState)
    ensures !r.isLoading
    ensures r == s.(translatedText := r.translatedText, sentences := r.sentences,
                    isLoading := false, fileError := r.fileError)
    ensures resp.Translated? ==> r.translatedText == resp.fullText && r.fileError == s.fileError
    ensures resp.Translated? && resp.lines.Some? ==> r.sentences == resp.lines.value
    ensures resp.Translated? && resp.lines.None? ==> r.sentences == []
    ensures resp.Failed? ==> r.translatedText == s.translatedText && r.sentences == s.sentences
    ensures resp.Failed? && v == Strict ==> r.fileError == ProcessingFailedMessage
    ensures resp.Failed? && v == Lenient ==> r.fileError == s.fileError
  {
    match resp
    case Translated(text, lines) =>
      var shown := if lines.Some? then lines.value else [];
      s.(translatedText := text, sentences := shown, isLoading := false)
    case Failed =>
      if v == Strict then s.(fileError := ProcessingFailedMessage, isLoading := false)
      else s.(isLoading := false)
  }

  /** The individual-lines checkbox. */
  function ToggleLines(s: ViewState, on: bool): (r: ViewState)
    ensures r.useIndividualLines == on
    ensures r == s.(useIndividualLines := r.useIndividualLines)
  {
    s.(useIndividualLines := on)
  }

  /** Whether `u` shows the "just copied" check mark. */
  predicate Marked(s: ViewState, u: CopyUnit) {
    s.copiedIndex == Some(u)
  }

  /** A finished clipboard write marks the copied unit, and only it. */
  function CopyDone(s: ViewState, u: CopyUnit): (r: ViewState)
    ensures forall w :: Marked(r, w) <==> w == u
    ensures r == s.(copiedIndex := r.copiedIndex)
  {
    s.(copiedIndex := Some(u))
  }

  /** The two-second timer of a copy: no unit stays marked. */
  function CopyExpired(s: ViewState): (r: ViewState)
    ensures forall w :: !Marked(r, w)
    ensures r == s.(copiedIndex := r.copiedIndex)
  {
    s.(copiedIndex := None)
  }

  /** Two copies in a row: only the later unit is marked. Because the first
      copy's timer is never cancelled, when it fires it removes the later
      unit's mark as well. */
  lemma LatestCopyWins(s: ViewState, u: CopyUnit, w: CopyUnit)
    ensures var t := CopyDone(CopyDone(s, u), w);
      (forall x :: Marked(t, x) <==> x == w) && !Marked(CopyExpired(t), w)
  {
  }

  /** The statistics under the result: the word count, and the line count
      when individual lines are on and there is at least one. */
  datatype Summary = Summary(words: nat, lines: Option<nat>)

  /** The "Analysis Summary" box, rendered only with the result panel. The
      word count is `translatedText.split(/\s+/).length`: one more than the
      number of whitespace runs, so at least one. */
  function AnalysisSummary(s: ViewState): (r: Option<Summary>)
    ensures r.Some? <==> ResultShown(s)
    ensures r.Some? ==> r.value.words == 1 + JsText.RunCount(s.translatedText) >= 1
    ensures r.Some? ==> (r.value.lines.Some? <==> s.useIndividualLines && |s.sentences| > 0)
    ensures r.Some? && r.value.lines.Some? ==> r.value.lines.value == |s.sentences|
  {
    if s.translatedText == "" then None
    else
      JsText.SplitCountsRuns(s.translatedText);
      var lines := if s.useIndividualLines && |s.sentences| > 0 then Some(|s.sentences|) else None;
      Some(Summary(|JsText.Split(s.translatedText)|, lines))
  }

  /** The "Individual Lines" list as rendered: the lines in the order the
      service returned them, or nothing. */
  function ShownLines(s: ViewState): (r: seq<Line>)
    ensures r == [] || r == s.sentences
    ensures r != [] <==> ResultShown(s) && s.useIndividualLines && |s.sentences| > 0
  {
    if ResultShown(s) && s.useIndividualLines && |s.sentences| > 0 then s.sentences else []
  }

  /** Clearing twice is clearing once. */
  lemma ClearIdempotent(v: Variant, s: ViewState)
    ensures Clear(v, Clear(v, s)) == Clear(v, s)
  {
  }

  /** A second click while a request is in flight does nothing. */
  lemma NoSecondStart(v: Variant, s: ViewState)
    requires SubmitClicked(v, s).request.Some?
    ensures var t := SubmitClicked(v, s).state; SubmitClicked(v, t) == Started(t, None)
  {
  }

  /** The checkbox alone decides whether a non-empty line breakdown is
      counted and listed. */
  lemma ToggleShowsLines(s: ViewState, on: bool)
    requires ResultShown(s) && |s.sentences| > 0
    ensures AnalysisSummary(ToggleLines(s, on)).value.lines == (if on then Some(|s.sentences|) else None)
    ensures ShownLines(ToggleLines(s, on)) == (if on then s.sentences else [])
  {
  }

  /** A refused file: the dark page drops an earlier selection, the light
      page keeps it. */
  lemma VariantsDifferOnRefusal()
    ensures var kept := File("a.png", "image/png", 1024);
      var big := File("b.png", "image/png", MaxSize + 1);
      var s := Initial.(selectedFile := Some(kept));
      FileChosen(Strict, s, Some(big)).selectedFile == None
      && FileChosen(Lenient, s, Some(big)).selectedFile == Some(kept)
  {
  }

  /** "Hello world" with two line records, with individual lines on, shows
      two words and two lines, in the service's order. */
  lemma HelloWorldResult(v: Variant, s: ViewState)
    requires s.useIndividualLines
    ensures var lines := [Line("Hello"), Line("world")];
      var r := Complete(v, s, Translated("Hello world", Some(lines)));
      AnalysisSummary(r) == Some(Summary(2, Some(2))) && ShownLines(r) == lines
  {
    JsText.HelloWorldHasTwoWords();
  }

  /** A response without a line breakdown shows no lines and no line count,
      even with individual lines on. */
  lemma NoLinesWhenOmitted(v: Variant, s: ViewState, text: string)
    ensures var r := Complete(v, s, Translated(text, None));
      ShownLines(r) == [] && (AnalysisSummary(r).None? || AnalysisSummary(r).value.lines.None?)
  {
  }
}
