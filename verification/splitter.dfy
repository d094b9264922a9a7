/** The splitter screen as a state machine: choosing a document seeds the
    range list, preview generation and the split run the compositor over
    the ranges. The range-list handlers themselves are in `RangeSet`. */
module Splitter {
  import opened Wrappers
  import opened Text
  import opened Pdf
  import opened RangeSet
  import opened SplitCompose

  /** The messages the screen shows, one constructor per message. */
  datatype SplitterError =
    | NotPdfDropped     // "Please drop a valid PDF file"
    | NotPdfSelected    // "Please select a valid PDF file"
    | DropLoadFailed    // "Error processing dropped file. Please try again."
    | SelectLoadFailed  // "Error processing file. Please try again."
    | PreviewFailed     // "Error generating previews. Please try again."
    | NothingToSplit    // "Please upload a PDF file and define split ranges"
    | SplitFailed       // "Error splitting PDF. Please try again."

  /** A file as the browser hands it over: its MIME type and its bytes. */
  datatype Upload = Upload(mime: string, bytes: FileBytes)

  /** How the file arrived: dropped on the upload area or chosen in the
      file picker. The two handlers differ in their messages and in how
      they treat an empty file list. */
  datatype Via = Dropped | Picked

  /** `pdfFile`, `totalPages`, the range list with its field texts and
      preview keys, and `error`. */
  datatype SplitterState = SplitterState(
    file: Option<FileBytes>,
    totalPages: nat,
    rs: RangeSet,
    error: Option<SplitterError>)

  function Initial(): SplitterState {
    SplitterState(None, 0, RangeSet([], map[], {}), None)
  }

  /** Before any file is chosen there is nothing to preview, and a split
      reports that a file and ranges are needed. */
  lemma InitialHasNothingToSplit()
    ensures GeneratePreviews(Initial()) == Initial()
    ensures Split(Initial()).outputs == [] && Split(Initial()).state.error == Some(NothingToSplit)
  {
  }

  function NotPdf(via: Via): SplitterError {
    if via == Dropped then NotPdfDropped else NotPdfSelected
  }

  function LoadFailed(via: Via): SplitterError {
    if via == Dropped then DropLoadFailed else SelectLoadFailed
  }

  /** `handleDrop` / `handleFileChange`: only the first file counts. A
      non-PDF type is refused with a message and nothing else changes. A
      PDF replaces the current file before it is loaded, so a load failure
      leaves the new file in place next to the old page count and ranges.
      A successful load seeds the single whole-document range. */
  function LoadFile(s: SplitterState, via: Via, files: seq<Upload>): (t: SplitterState)
    ensures via == Dropped && |files| == 0 ==> t == s
    ensures via == Picked && |files| == 0 ==> t == s.(error := Some(NotPdfSelected))
    ensures |files| > 0 && files[0].mime != PdfMime ==> t == s.(error := Some(NotPdf(via)))
    ensures |files| > 0 && files[0].mime == PdfMime && files[0].bytes.Unreadable? ==>
              t == s.(file := Some(files[0].bytes), error := Some(LoadFailed(via)))
    ensures |files| > 0 && files[0].mime == PdfMime && files[0].bytes.PdfBytes? ==>
              var n := |files[0].bytes.pages|;
              && t.file == Some(files[0].bytes) && t.totalPages == n && t.error == None
              && t.rs.ranges == [Range(1, 1, n, "Part 1")]
              && t.rs.inputs == map[1 := InputText(Some("1"), Some(DecimalString(n)))]
              && t.rs.previews == s.rs.previews
  {
    if |files| == 0 then
      if via == Dropped then s else s.(error := Some(NotPdfSelected))
    else if files[0].mime != PdfMime then
      s.(error := Some(NotPdf(via)))
    else
      var chosen := s.(file := Some(files[0].bytes), error := None);
      match Load(files[0].bytes)
      case None => chosen.(error := Some(LoadFailed(via)))
      case Some(doc) => chosen.(totalPages := |doc|, rs := Seed(s.rs, |doc|))
  }

  /** A preview pass over the current ranges gets through: the file loads
      and no eligible range asks for a page the document lacks. */
  predicate PassCompletes(s: SplitterState) {
    && s.file.Some?
    && Load(s.file.value).Some?
    && !RunRanges(s.rs.ranges, Load(s.file.value).value, s.totalPages).failed
  }

  /** `generateSplitPreviews`: with no file or no ranges nothing happens.
      Otherwise the preview keys become exactly the ids of the eligible
      ranges, unless the pass fails, in which case the old previews stay
      and the error is shown. A successful pass leaves the error alone. */
  function GeneratePreviews(s: SplitterState): (t: SplitterState)
    ensures t.file == s.file && t.totalPages == s.totalPages
    ensures t.rs.ranges == s.rs.ranges && t.rs.inputs == s.rs.inputs
    ensures s.file.None? || |s.rs.ranges| == 0 ==> t == s
    ensures s.file.Some? && |s.rs.ranges| > 0 && PassCompletes(s) ==>
              t.rs.previews == EligibleIds(s.rs.ranges, s.totalPages) && t.error == s.error
    ensures s.file.Some? && |s.rs.ranges| > 0 && !PassCompletes(s) ==>
              t.rs.previews == s.rs.previews && t.error == Some(PreviewFailed)
  {
    if s.file.None? || |s.rs.ranges| == 0 then s
    else match Load(s.file.value)
      case None => s.(error := Some(PreviewFailed))
      case Some(doc) =>
        var run := RunRanges(s.rs.ranges, doc, s.totalPages);
        if run.failed then s.(error := Some(PreviewFailed))
        else
          CompleteRunIds(s.rs.ranges, doc, s.totalPages);
          s.(rs := s.rs.(previews := set p | p in run.parts :: p.range.id))
  }

  /** A split: the state afterwards and the downloads it started. */
  datatype SplitResult = SplitResult(state: SplitterState, outputs: seq<Output>)

  /** Each part downloads as the range's name with ".pdf" appended,
      whatever the name already ends with. */
  function Downloads(parts: seq<Part>): (outs: seq<Output>)
    ensures |outs| == |parts|
    ensures forall k :: 0 <= k < |parts| ==>
              outs[k].pages == parts[k].pages && EndsWith(outs[k].fileName, ".pdf")
              && outs[k].fileName[..|outs[k].fileName| - 4] == parts[k].range.name
  {
    seq(|parts|, k requires 0 <= k < |parts| => Output(parts[k].range.name + ".pdf", parts[k].pages))
  }

  /** `splitPDF`: with no file or no ranges, an error and no downloads.
      Otherwise the error is cleared and each eligible range is copied and
      downloaded in list order; a load failure, or the first range whose
      pages cannot be copied, sets the error, and the downloads already
      started stay started. Ranges, texts and previews are not touched. */
  function Split(s: SplitterState): (r: SplitResult)
    ensures r.state.file == s.file && r.state.totalPages == s.totalPages && r.state.rs == s.rs
    ensures s.file.None? || |s.rs.ranges| == 0 ==>
              r.outputs == [] && r.state.error == Some(NothingToSplit)
    ensures s.file.Some? && |s.rs.ranges| > 0 ==>
              r.state.error == (if PassCompletes(s) then None else Some(SplitFailed))
    ensures s.file.Some? && |s.rs.ranges| > 0 && Load(s.file.value).None? ==> r.outputs == []
    ensures s.file.Some? && |s.rs.ranges| > 0 && Load(s.file.value).Some? ==>
              var doc := Load(s.file.value).value;
              var elig := EligibleRanges(s.rs.ranges, s.totalPages);
              && |r.outputs| <= |elig|
              && (PassCompletes(s) ==> |r.outputs| == |elig|)
              && (!PassCompletes(s) ==> |r.outputs| < |elig| && Blocks(elig[|r.outputs|], doc, s.totalPages))
              && forall k :: 0 <= k < |r.outputs| ==>
                   && r.outputs[k].fileName == elig[k].name + ".pdf"
                   && CopyPages(doc, RangeIndices(elig[k], |doc|)) == Some(r.outputs[k].pages)
    ensures |r.outputs| <= |s.rs.ranges|
    ensures forall k :: 0 <= k < |r.outputs| ==> EndsWith(r.outputs[k].fileName, ".pdf")
  {
    if s.file.None? || |s.rs.ranges| == 0 then
      SplitResult(s.(error := Some(NothingToSplit)), [])
    else match Load(s.file.value)
      case None => SplitResult(s.(error := Some(SplitFailed)), [])
      case Some(doc) =>
        var run := RunRanges(s.rs.ranges, doc, s.totalPages);
        RunRangesFollowEligible(s.rs.ranges, doc, s.totalPages);
        DownloadsFollowEligible(run.parts, EligibleRanges(s.rs.ranges, s.totalPages), doc);
        if run.failed then
          RunRangesStop(s.rs.ranges, doc, s.totalPages);
          SplitResult(s.(error := Some(SplitFailed)), Downloads(run.parts))
        else
          SplitResult(s.(error := None), Downloads(run.parts))
  }

  /** Parts made from a prefix of the eligible ranges download, one by
      one, as those ranges' names with ".pdf" and their copied pages. */
  lemma DownloadsFollowEligible(parts: seq<Part>, elig: seq<Range>, doc: Doc)
    requires RangesOf(parts) <= elig
    requires forall k :: 0 <= k < |parts| ==>
               CopyPages(doc, RangeIndices(parts[k].range, |doc|)) == Some(parts[k].pages)
    ensures var outs := Downloads(parts);
      forall k :: 0 <= k < |outs| ==>
        && outs[k].fileName == elig[k].name + ".pdf"
        && CopyPages(doc, RangeIndices(elig[k], |doc|)) == Some(outs[k].pages)
  {
    forall k | 0 <= k < |parts|
      ensures parts[k].range == elig[k]
    {
      assert RangesOf(parts)[k] == parts[k].range;
    }
  }

  /** A document of exactly `totalPages` pages and ranges that all start
      at page 1 or later: the split succeeds and downloads one file per
      eligible range, in list order, named after the range and holding
      its pages `start` to `end`. Ineligible ranges produce nothing. */
  lemma SplitDownloadsEligibleRanges(s: SplitterState, doc: Doc)
    requires s.file == Some(PdfBytes(doc)) && |doc| == s.totalPages && |s.rs.ranges| > 0
    requires forall k :: 0 <= k < |s.rs.ranges| ==> s.rs.ranges[k].start >= 1
    ensures var r := Split(s); var elig := EligibleRanges(s.rs.ranges, s.totalPages);
      && r.state.error == None
      && |r.outputs| == |elig|
      && forall k :: 0 <= k < |elig| ==>
           r.outputs[k] == Output(elig[k].name + ".pdf", doc[elig[k].start - 1..elig[k].end])
  {
    var run := RunRanges(s.rs.ranges, doc, s.totalPages);
    WholeRunPages(s.rs.ranges, doc);
    RunRangesFollowEligible(s.rs.ranges, doc, s.totalPages);
    var elig := EligibleRanges(s.rs.ranges, s.totalPages);
    assert RangesOf(run.parts) == elig;
    forall k | 0 <= k < |elig|
      ensures Split(s).outputs[k] == Output(elig[k].name + ".pdf", doc[elig[k].start - 1..elig[k].end])
    {
      assert run.parts[k].range == elig[k];
    }
  }

  /** A stored start of 0 or less passes the eligibility check but asks
      pdf-lib for a negative page index: the split stops with an error at
      that range, and preview generation keeps its old previews. */
  lemma NonPositiveStartAborts(s: SplitterState, doc: Doc, k: nat)
    requires s.file == Some(PdfBytes(doc)) && |doc| == s.totalPages
    requires k < |s.rs.ranges| && Eligible(s.rs.ranges[k], s.totalPages) && s.rs.ranges[k].start <= 0
    ensures Split(s).state.error == Some(SplitFailed)
    ensures GeneratePreviews(s).error == Some(PreviewFailed)
    ensures GeneratePreviews(s).rs.previews == s.rs.previews
  {
    CopyableIffPositiveStart(s.rs.ranges[k], doc);
    assert Blocks(s.rs.ranges[k], doc, s.totalPages);
    RunRangesFailure(s.rs.ranges, doc, s.totalPages);
  }

  /** Choosing a document with at least one page and splitting it right
      away downloads the whole document once, as "Part 1.pdf". */
  lemma LoadThenSplitIsWholeDocument(s: SplitterState, via: Via, doc: Doc)
    requires |doc| >= 1
    ensures var loaded := LoadFile(s, via, [Upload(PdfMime, PdfBytes(doc))]);
      Split(loaded).outputs == [Output("Part 1.pdf", doc)] && Split(loaded).state.error == None
  {
    var loaded := LoadFile(s, via, [Upload(PdfMime, PdfBytes(doc))]);
    SplitDownloadsEligibleRanges(loaded, doc);
    var ranges := loaded.rs.ranges;
    assert EligibleRanges(ranges, |doc|) == [ranges[0]];
    assert doc[0..|doc|] == doc;
    assert ranges[0].name + ".pdf" == "Part 1.pdf";
    var outs := Split(loaded).outputs;
    assert |outs| == 1 && outs[0] == Output("Part 1.pdf", doc);
  }

  /** Choosing a document and generating previews right away gives the
      seeded range a preview when the document has pages, and no range a
      preview when it has none. */
  lemma LoadThenPreviews(s: SplitterState, via: Via, doc: Doc)
    ensures var loaded := LoadFile(s, via, [Upload(PdfMime, PdfBytes(doc))]);
      GeneratePreviews(loaded).rs.previews == (if |doc| >= 1 then {1} else {})
  {
    var loaded := LoadFile(s, via, [Upload(PdfMime, PdfBytes(doc))]);
    WholeRunPages(loaded.rs.ranges, doc);
    assert EligibleIds(loaded.rs.ranges, |doc|) == (if |doc| >= 1 then {1} else {});
  }
}
