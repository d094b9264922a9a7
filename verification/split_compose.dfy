/** The split compositor: which ranges produce a document, which page
    indices each one copies, and what a pass over the range list yields.
    Both preview generation and the split itself run this pass. */
module SplitCompose {
  import opened Wrappers
  import opened Pdf
  import opened RangeSet
  import Seqs

  /** The only check a range passes before its pages are copied. There is
      no lower bound on `start`. */
  predicate Eligible(r: Range, totalPages: int)
    ensures Eligible(r, totalPages) <==> r.start <= r.end <= totalPages
  {
    r.start <= r.end && r.start <= totalPages && r.end <= totalPages
  }

  /** The indices `i` with `lo <= i < hi` that are below `pageCount`, in
      ascending order: the loop `for (i = start - 1; i < end; i++)` that
      pushes `i` when `i < pdf.getPageCount()`. */
  function PageIndices(lo: int, hi: int, pageCount: int): (r: seq<int>)
    ensures forall k :: 0 <= k < |r| ==> lo <= r[k] < hi && r[k] < pageCount
    ensures forall j, k :: 0 <= j < k < |r| ==> r[j] < r[k]
    ensures forall i :: lo <= i < hi && i < pageCount ==> i in r
    decreases hi - lo
  {
    if lo >= hi then []
    else (if lo < pageCount then [lo] else []) + PageIndices(lo + 1, hi, pageCount)
  }

  /** The indices a range asks to copy from a document of `pageCount` pages. */
  function RangeIndices(r: Range, pageCount: int): seq<int> {
    PageIndices(r.start - 1, r.end, pageCount)
  }

  /** The page count the range card displays: `end - start + 1`. For a
      range that is not reversed it is the number of page numbers from
      `start` to `end`; a reversed range shows zero or less. */
  function DisplayedCount(r: Range): (c: int)
    ensures r.start <= r.end ==> c == |PageIndices(r.start - 1, r.end, r.end)|
    ensures r.start <= r.end <==> c >= 1
  {
    if r.start <= r.end then PageIndicesContiguous(r.start - 1, r.end, r.end); r.end - r.start + 1
    else r.end - r.start + 1
  }

  /** With the whole interval inside the document, the loop emits every
      index from `lo` up to `hi - 1`, one after the other. */
  lemma {:induction false} PageIndicesContiguous(lo: int, hi: int, pageCount: int)
    requires lo <= hi <= pageCount
    ensures PageIndices(lo, hi, pageCount) == seq(hi - lo, k requires 0 <= k < hi - lo => lo + k)
    decreases hi - lo
  {
    if lo < hi {
      PageIndicesContiguous(lo + 1, hi, pageCount);
    }
  }

  /** An eligible range with `start >= 1` over a document of exactly
      `totalPages` pages copies the 0-based indices `start - 1` to `end - 1`
      in ascending order, as many as the card displays, all of them pages
      of the document. */
  lemma EligibleRangeIndices(r: Range, totalPages: int)
    requires Eligible(r, totalPages) && r.start >= 1
    ensures RangeIndices(r, totalPages) == seq(r.end - r.start + 1, k requires 0 <= k < r.end - r.start + 1 => r.start - 1 + k)
    ensures |RangeIndices(r, totalPages)| == DisplayedCount(r)
    ensures IndicesInBounds(RangeIndices(r, totalPages), totalPages)
  {
    PageIndicesContiguous(r.start - 1, r.end, totalPages);
  }

  /** pdf-lib copies an eligible range's pages exactly when its start is
      at least 1: an eligible range with a start of 0 or less always asks
      for a negative index, because `start - 1` is below both `end` and
      the page count. */
  lemma CopyableIffPositiveStart(r: Range, doc: Doc)
    requires Eligible(r, |doc|)
    ensures IndicesInBounds(RangeIndices(r, |doc|), |doc|) <==> r.start >= 1
  {
    var ix := RangeIndices(r, |doc|);
    if r.start < 1 {
      assert r.start - 1 in ix;
    }
  }

  /** What copying one range's pages produced. */
  datatype Part = Part(range: Range, pages: Doc)

  /** A pass over the range list: the parts produced, in range order, and
      whether it stopped at a range whose pages could not be copied. */
  datatype Run = Run(parts: seq<Part>, failed: bool)

  function RangesOf(parts: seq<Part>): (rs: seq<Range>)
    ensures |rs| == |parts|
    ensures forall k :: 0 <= k < |parts| ==> rs[k] == parts[k].range
  {
    seq(|parts|, k requires 0 <= k < |parts| => parts[k].range)
  }

  /** The eligible ranges of a list, in list order. */
  function EligibleRanges(ranges: seq<Range>, totalPages: int): seq<Range> {
    Seqs.Filter(ranges, (r: Range) => Eligible(r, totalPages))
  }

  /** An eligible range whose pages the document cannot supply. */
  predicate Blocks(r: Range, doc: Doc, totalPages: int) {
    Eligible(r, totalPages) && !IndicesInBounds(RangeIndices(r, |doc|), |doc|)
  }

  /** The `for (const range of splitRanges)` loop of preview generation
      and of the split: ineligible ranges are passed over without a word,
      an eligible one has its pages copied, and a failed copy throws out
      of the loop. */
  function RunRanges(ranges: seq<Range>, doc: Doc, totalPages: int): (run: Run)
    ensures forall k :: 0 <= k < |run.parts| ==>
              CopyPages(doc, RangeIndices(run.parts[k].range, |doc|)) == Some(run.parts[k].pages)
    decreases |ranges|
  {
    if |ranges| == 0 then Run([], false)
    else
      var r := ranges[0];
      if !Eligible(r, totalPages) then RunRanges(ranges[1..], doc, totalPages)
      else match CopyPages(doc, RangeIndices(r, |doc|))
        case None => Run([], true)
        case Some(pages) =>
          var rest := RunRanges(ranges[1..], doc, totalPages);
          Run([Part(r, pages)] + rest.parts, rest.failed)
  }

  /** The parts of a pass come from the eligible ranges, in list order,
      and a pass that does not stop has a part for every eligible range. */
  lemma {:induction false} RunRangesFollowEligible(ranges: seq<Range>, doc: Doc, totalPages: int)
    ensures RangesOf(RunRanges(ranges, doc, totalPages).parts) <= EligibleRanges(ranges, totalPages)
    ensures !RunRanges(ranges, doc, totalPages).failed
            ==> RangesOf(RunRanges(ranges, doc, totalPages).parts) == EligibleRanges(ranges, totalPages)
    decreases |ranges|
  {
    if |ranges| > 0 {
      var r := ranges[0];
      var tail := ranges[1..];
      RunRangesFollowEligible(tail, doc, totalPages);
      var run := RunRanges(ranges, doc, totalPages);
      var rest := RunRanges(tail, doc, totalPages);
      var restRanges := RangesOf(rest.parts);
      var eligTail := EligibleRanges(tail, totalPages);
      EligibleRangesStep(ranges, totalPages);
      if !Eligible(r, totalPages) {
        assert run == rest;
      } else if CopyPages(doc, RangeIndices(r, |doc|)).None? {
        assert run.parts == [];
      } else {
        var pages := CopyPages(doc, RangeIndices(r, |doc|)).value;
        assert run == Run([Part(r, pages)] + rest.parts, rest.failed);
        RangesOfCons(Part(r, pages), rest.parts);
        PrefixCons(r, restRanges, eligTail);
      }
    }
  }

  /** A pass that stops does so at the first eligible range it made no
      part for, and that range blocks: the parts are the longest run of
      copyable eligible ranges from the start of the list. */
  lemma {:induction false} RunRangesStop(ranges: seq<Range>, doc: Doc, totalPages: int)
    requires RunRanges(ranges, doc, totalPages).failed
    ensures var n := |RunRanges(ranges, doc, totalPages).parts|;
      var elig := EligibleRanges(ranges, totalPages);
      n < |elig| && Blocks(elig[n], doc, totalPages)
    decreases |ranges|
  {
    var r := ranges[0];
    if Eligible(r, totalPages) && CopyPages(doc, RangeIndices(r, |doc|)).None? {
      StopAtHead(ranges, doc, totalPages);
    } else {
      RunRangesStop(ranges[1..], doc, totalPages);
      StopInTail(ranges, doc, totalPages);
    }
  }

  /** The pass stops at the first range when that range blocks. */
  lemma StopAtHead(ranges: seq<Range>, doc: Doc, totalPages: int)
    requires |ranges| > 0 && Eligible(ranges[0], totalPages)
    requires CopyPages(doc, RangeIndices(ranges[0], |doc|)).None?
    ensures |RunRanges(ranges, doc, totalPages).parts| == 0
    ensures var elig := EligibleRanges(ranges, totalPages);
      0 < |elig| && Blocks(elig[0], doc, totalPages)
  {
    EligibleRangesStep(ranges, totalPages);
  }

  /** When the first range does not stop the pass, the pass stops where
      the pass over the rest does, one part later if the first range made
      one. */
  lemma StopInTail(ranges: seq<Range>, doc: Doc, totalPages: int)
    requires |ranges| > 0
    requires !(Eligible(ranges[0], totalPages) && CopyPages(doc, RangeIndices(ranges[0], |doc|)).None?)
    requires var rest := RunRanges(ranges[1..], doc, totalPages);
      var eligTail := EligibleRanges(ranges[1..], totalPages);
      rest.failed && |rest.parts| < |eligTail| && Blocks(eligTail[|rest.parts|], doc, totalPages)
    ensures var n := |RunRanges(ranges, doc, totalPages).parts|;
      var elig := EligibleRanges(ranges, totalPages);
      n < |elig| && Blocks(elig[n], doc, totalPages)
  {
    var r := ranges[0];
    var rest := RunRanges(ranges[1..], doc, totalPages);
    var eligTail := EligibleRanges(ranges[1..], totalPages);
    EligibleRangesStep(ranges, totalPages);
    if Eligible(r, totalPages) {
      var pages := CopyPages(doc, RangeIndices(r, |doc|)).value;
      assert RunRanges(ranges, doc, totalPages).parts == [Part(r, pages)] + rest.parts;
      assert EligibleRanges(ranges, totalPages)[|rest.parts| + 1] == eligTail[|rest.parts|];
    }
  }

  lemma EligibleRangesStep(ranges: seq<Range>, totalPages: int)
    requires |ranges| > 0
    ensures EligibleRanges(ranges, totalPages)
            == (if Eligible(ranges[0], totalPages) then [ranges[0]] else []) + EligibleRanges(ranges[1..], totalPages)
  {
  }

  lemma RangesOfCons(p: Part, parts: seq<Part>)
    ensures RangesOf([p] + parts) == [p.range] + RangesOf(parts)
  {
    var l := RangesOf([p] + parts);
    var r := [p.range] + RangesOf(parts);
    assert |l| == |r|;
    forall k | 0 <= k < |l|
      ensures l[k] == r[k]
    {
      if k > 0 {
        assert ([p] + parts)[k] == parts[k - 1];
      }
    }
  }

  lemma PrefixCons<T>(x: T, a: seq<T>, b: seq<T>)
    requires a <= b
    ensures [x] + a <= [x] + b
  {
    assert ([x] + b)[..|a| + 1] == [x] + b[..|a|];
  }

  /** A pass stops exactly when some eligible range cannot be copied. */
  lemma {:induction false} RunRangesFailure(ranges: seq<Range>, doc: Doc, totalPages: int)
    ensures RunRanges(ranges, doc, totalPages).failed
            <==> exists k :: 0 <= k < |ranges| && Blocks(ranges[k], doc, totalPages)
    decreases |ranges|
  {
    if |ranges| > 0 {
      var tail := ranges[1..];
      RunRangesFailure(tail, doc, totalPages);
      assert forall k :: 1 <= k < |ranges| ==> ranges[k] == tail[k - 1];
      if RunRanges(tail, doc, totalPages).failed {
        var k :| 0 <= k < |tail| && Blocks(tail[k], doc, totalPages);
        assert Blocks(ranges[k + 1], doc, totalPages);
      }
    }
  }

  /** The ids of the eligible ranges: the keys a complete preview pass
      stores. */
  function EligibleIds(ranges: seq<Range>, totalPages: int): set<int> {
    set k | 0 <= k < |ranges| && Eligible(ranges[k], totalPages) :: ranges[k].id
  }

  /** A pass that did not stop produced a part for exactly the eligible
      ranges: its ids are the eligible ids, so an ineligible range leaves
      no trace. */
  lemma CompleteRunIds(ranges: seq<Range>, doc: Doc, totalPages: int)
    requires !RunRanges(ranges, doc, totalPages).failed
    ensures (set p | p in RunRanges(ranges, doc, totalPages).parts :: p.range.id) == EligibleIds(ranges, totalPages)
  {
    var run := RunRanges(ranges, doc, totalPages);
    RunRangesFollowEligible(ranges, doc, totalPages);
    PartIdsOfRanges(run.parts, EligibleRanges(ranges, totalPages));
    EligibleIdsOfFilter(ranges, totalPages);
  }

  /** Parts whose ranges are `rs` carry exactly the ids of `rs`. */
  lemma PartIdsOfRanges(parts: seq<Part>, rs: seq<Range>)
    requires RangesOf(parts) == rs
    ensures (set p | p in parts :: p.range.id) == (set x | x in rs :: x.id)
  {
    var rangeIds := set x | x in rs :: x.id;
    forall id | id in rangeIds
      ensures id in (set p | p in parts :: p.range.id)
    {
      var x :| x in rs && x.id == id;
      var j :| 0 <= j < |rs| && rs[j] == x;
      assert parts[j] in parts && parts[j].range == x;
    }
    forall p | p in parts
      ensures p.range.id in (set x | x in rs :: x.id)
    {
      var j :| 0 <= j < |parts| && parts[j] == p;
      assert rs[j] == p.range;
    }
  }

  /** The ids of the filtered eligible ranges are the eligible ids. */
  lemma EligibleIdsOfFilter(ranges: seq<Range>, totalPages: int)
    ensures (set x | x in EligibleRanges(ranges, totalPages) :: x.id) == EligibleIds(ranges, totalPages)
  {
    var elig := EligibleRanges(ranges, totalPages);
    forall id | id in EligibleIds(ranges, totalPages)
      ensures id in (set x | x in elig :: x.id)
    {
      var k :| 0 <= k < |ranges| && Eligible(ranges[k], totalPages) && ranges[k].id == id;
      assert ranges[k] in elig;
    }
    forall x | x in elig
      ensures x.id in EligibleIds(ranges, totalPages)
    {
      var j :| 0 <= j < |elig| && elig[j] == x;
      var k :| 0 <= k < |ranges| && ranges[k] == x;
    }
  }

  /** The pages copied for an eligible range with `start >= 1` are the
      document's pages `start` to `end`. */
  lemma EligibleRangePages(r: Range, doc: Doc, pages: Doc)
    requires Eligible(r, |doc|) && r.start >= 1
    requires CopyPages(doc, RangeIndices(r, |doc|)) == Some(pages)
    ensures pages == doc[r.start - 1..r.end]
  {
    EligibleRangeIndices(r, |doc|);
  }

  /** When every range starts at page 1 or later and the document has
      exactly `totalPages` pages, the pass does not stop, and the part of
      each eligible range holds its pages `start` to `end`, in order. */
  lemma WholeRunPages(ranges: seq<Range>, doc: Doc)
    requires forall k :: 0 <= k < |ranges| ==> ranges[k].start >= 1
    ensures !RunRanges(ranges, doc, |doc|).failed
    ensures forall k :: 0 <= k < |RunRanges(ranges, doc, |doc|).parts| ==>
              var p := RunRanges(ranges, doc, |doc|).parts[k];
              1 <= p.range.start <= p.range.end <= |doc| && p.pages == doc[p.range.start - 1..p.range.end]
  {
    var run := RunRanges(ranges, doc, |doc|);
    assert !run.failed by {
      RunRangesFailure(ranges, doc, |doc|);
      forall k | 0 <= k < |ranges| ensures !Blocks(ranges[k], doc, |doc|) {
        if Eligible(ranges[k], |doc|) {
          CopyableIffPositiveStart(ranges[k], doc);
        }
      }
    }
    var elig := EligibleRanges(ranges, |doc|);
    assert RangesOf(run.parts) <= elig by {
      RunRangesFollowEligible(ranges, doc, |doc|);
    }
    forall k | 0 <= k < |run.parts|
      ensures 1 <= run.parts[k].range.start <= run.parts[k].range.end <= |doc|
      ensures run.parts[k].pages == doc[run.parts[k].range.start - 1..run.parts[k].range.end]
    {
      var p := run.parts[k];
      assert elig[k] == p.range;
      assert p.range in ranges && Eligible(p.range, |doc|);
      EligibleRangePages(p.range, doc, p.pages);
    }
  }
}
