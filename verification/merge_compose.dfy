/** The merge compositor: the page sequence `mergePDFs` builds from the
    ordered sources, the blank-page count the screen announces, and the
    download's file name. */
module MergeCompose {
  import opened Wrappers
  import opened Text
  import opened Pdf

  /** A separator follows source `i` of `n`: the option is on and the
      source is not the last one. */
  predicate SeparatorAfter(i: int, n: int, addBlank: bool) {
    addBlank && i < n - 1
  }

  /** Every source a separator follows has a first page to size it by. */
  predicate Separable(docs: seq<Doc>, addBlank: bool, n: int) {
    forall i :: 0 <= i < |docs| && SeparatorAfter(i, n, addBlank) ==> |docs[i]| > 0
  }

  /** The pages one source contributes: all of its pages in order, then,
      when a separator follows, a blank page sized like its first page. */
  function Piece(doc: Doc, separator: bool): Doc
    requires separator ==> |doc| > 0
  {
    doc + (if separator then [BlankLike(doc[0])] else [])
  }

  /** The pieces of the first `|docs|` sources of a list of `n`, one after
      the other. */
  function Composed(docs: seq<Doc>, addBlank: bool, n: int): Doc
    requires Separable(docs, addBlank, n)
    decreases |docs|
  {
    if |docs| == 0 then []
    else Composed(docs[..|docs| - 1], addBlank, n) + Piece(docs[|docs| - 1], SeparatorAfter(|docs| - 1, n, addBlank))
  }

  /** The merged document's pages. */
  function Merged(docs: seq<Doc>, addBlank: bool): Doc
    requires Separable(docs, addBlank, |docs|)
  {
    Composed(docs, addBlank, |docs|)
  }

  /** The sources' pages one after the other, with nothing in between. */
  function Flatten(docs: seq<Doc>): Doc
    decreases |docs|
  {
    if |docs| == 0 then [] else Flatten(docs[..|docs| - 1]) + docs[|docs| - 1]
  }

  function PageTotal(docs: seq<Doc>): nat
    decreases |docs|
  {
    if |docs| == 0 then 0 else PageTotal(docs[..|docs| - 1]) + |docs[|docs| - 1]|
  }

  /** The count the screen announces: "n - 1 blank page(s) will be added"
      for more than one file, otherwise 0. */
  function BlankCount(n: nat): (r: nat)
    ensures r <= n
    ensures forall i :: 0 <= i < n ==> (SeparatorAfter(i, n, true) <==> i < r)
  {
    if n > 1 then n - 1 else 0
  }

  /** The number of pages with nothing drawn on them. */
  function CountBlank(doc: Doc): nat
    decreases |doc|
  {
    if |doc| == 0 then 0
    else CountBlank(doc[..|doc| - 1]) + (if doc[|doc| - 1].body == Blank then 1 else 0)
  }

  lemma {:induction false} CountBlankConcat(a: Doc, b: Doc)
    ensures CountBlank(a + b) == CountBlank(a) + CountBlank(b)
    decreases |b|
  {
    if |b| == 0 {
      assert a + b == a;
    } else {
      assert (a + b)[..|a + b| - 1] == a + b[..|b| - 1];
      CountBlankConcat(a, b[..|b| - 1]);
    }
  }

  /** The separators among the first `k` of `n` sources. */
  function SeparatorsBefore(k: nat, n: nat, addBlank: bool): nat {
    if !addBlank then 0 else if k < n then k else BlankCount(n)
  }

  /** Composition adds to the sources' own pages exactly one page per
      separator, and that page is blank. */
  lemma {:induction false} ComposedCounts(docs: seq<Doc>, addBlank: bool, n: nat)
    requires |docs| <= n && Separable(docs, addBlank, n)
    ensures |Composed(docs, addBlank, n)| == PageTotal(docs) + SeparatorsBefore(|docs|, n, addBlank)
    ensures CountBlank(Composed(docs, addBlank, n))
            == CountBlank(Flatten(docs)) + SeparatorsBefore(|docs|, n, addBlank)
    decreases |docs|
  {
    if |docs| > 0 {
      var m := |docs| - 1;
      var init := docs[..m];
      ComposedCounts(init, addBlank, n);
      var piece := Piece(docs[m], SeparatorAfter(m, n, addBlank));
      CountBlankConcat(Composed(init, addBlank, n), piece);
      CountBlankConcat(Flatten(init), docs[m]);
      if SeparatorAfter(m, n, addBlank) {
        CountBlankConcat(docs[m], [BlankLike(docs[m][0])]);
        assert CountBlank([BlankLike(docs[m][0])]) == 1 by {
          assert [BlankLike(docs[m][0])][..0] == [];
        }
      } else {
        assert piece == docs[m];
      }
    }
  }

  /** The merged document has the sources' pages plus, with the option on,
      exactly the announced number of blank pages; with it off it is the
      sources' pages one after the other. */
  lemma MergedCounts(docs: seq<Doc>, addBlank: bool)
    requires Separable(docs, addBlank, |docs|)
    ensures |Merged(docs, addBlank)| == PageTotal(docs) + (if addBlank then BlankCount(|docs|) else 0)
    ensures CountBlank(Merged(docs, addBlank))
            == CountBlank(Flatten(docs)) + (if addBlank then BlankCount(|docs|) else 0)
  {
    ComposedCounts(docs, addBlank, |docs|);
  }

  /** Without the option, merging is plain concatenation in list order. */
  lemma {:induction false} MergedWithoutSeparators(docs: seq<Doc>)
    ensures Merged(docs, false) == Flatten(docs)
  {
    ComposedWithoutSeparators(docs, |docs|);
  }

  lemma {:induction false} ComposedWithoutSeparators(docs: seq<Doc>, n: int)
    ensures Composed(docs, false, n) == Flatten(docs)
    decreases |docs|
  {
    if |docs| > 0 {
      ComposedWithoutSeparators(docs[..|docs| - 1], n);
    }
  }

  /** Composing a longer list starts with the composition of its prefix. */
  lemma {:induction false} ComposedPrefix(docs: seq<Doc>, addBlank: bool, n: int, k: nat)
    requires k <= |docs| && Separable(docs, addBlank, n)
    ensures Separable(docs[..k], addBlank, n)
    ensures Composed(docs[..k], addBlank, n) <= Composed(docs, addBlank, n)
    decreases |docs|
  {
    if k < |docs| {
      var init := docs[..|docs| - 1];
      assert docs[..k] == init[..k];
      ComposedPrefix(init, addBlank, n, k);
    } else {
      assert docs[..k] == docs;
    }
  }

  /** Where source `i` starts in the merged document. */
  function Offset(docs: seq<Doc>, addBlank: bool, i: nat): nat
    requires i <= |docs| && Separable(docs, addBlank, |docs|)
  {
    ComposedPrefix(docs, addBlank, |docs|, i);
    |Composed(docs[..i], addBlank, |docs|)|
  }

  /** Source `i` appears in the merged document as its pages in their own
      order, starting at its offset; when a separator follows it, the
      next page is blank and has the width and height of the source's
      first page, not of the next source's. */
  lemma MergedLayout(docs: seq<Doc>, addBlank: bool, i: nat)
    requires i < |docs| && Separable(docs, addBlank, |docs|)
    ensures var m := Merged(docs, addBlank); var o := Offset(docs, addBlank, i);
      && o + |docs[i]| <= |m|
      && m[o..o + |docs[i]|] == docs[i]
      && (SeparatorAfter(i, |docs|, addBlank) ==>
            o + |docs[i]| < |m| && m[o + |docs[i]|] == Page(docs[i][0].width, docs[i][0].height, Blank))
  {
    var n := |docs|;
    ComposedPrefix(docs, addBlank, n, i + 1);
    ComposedPrefix(docs, addBlank, n, i);
    var upto := docs[..i + 1];
    assert upto[..i] == docs[..i];
    assert upto[i] == docs[i];
    var before := Composed(docs[..i], addBlank, n);
    var piece := Piece(docs[i], SeparatorAfter(i, n, addBlank));
    assert Composed(upto, addBlank, n) == before + piece;
    var m := Merged(docs, addBlank);
    assert (before + piece) <= m;
    assert m[|before|..|before| + |docs[i]|] == (before + piece)[|before|..|before| + |docs[i]|];
  }

  /** Two sources with the option on: the first one's pages, a blank page
      sized like its first page, then the second one's pages. */
  lemma TwoSourcesWithSeparator(a: Doc, b: Doc)
    requires |a| > 0
    ensures Separable([a, b], true, 2)
    ensures Merged([a, b], true) == a + [Page(a[0].width, a[0].height, Blank)] + b
  {
    assert [a, b][..1] == [a];
    assert [a][..0] == [];
    assert Composed([a], true, 2) == a + [BlankLike(a[0])];
    assert Composed([a, b], true, 2) == Composed([a], true, 2) + b;
  }

  /** Loads every source in order; one unreadable source spoils the lot.
      Otherwise document `k` is what source `k` loads to. */
  function LoadAll(files: seq<FileBytes>): (r: Option<seq<Doc>>)
    ensures r.Some? <==> forall k :: 0 <= k < |files| ==> Load(files[k]).Some?
    ensures r.Some? ==> |r.value| == |files|
    ensures r.Some? ==> forall k :: 0 <= k < |files| ==> r.value[k] == Load(files[k]).value
    decreases |files|
  {
    if |files| == 0 then Some([])
    else
      var init := files[..|files| - 1];
      assert forall k :: 0 <= k < |init| ==> init[k] == files[k];
      match LoadAll(init)
      case None => None
      case Some(docs) =>
        match Load(files[|files| - 1])
        case None => None
        case Some(doc) => Some(docs + [doc])
  }

  /** Appending one source's piece extends the composition. */
  lemma ComposedStep(docs: seq<Doc>, doc: Doc, addBlank: bool, n: int)
    requires Separable(docs, addBlank, n)
    requires SeparatorAfter(|docs|, n, addBlank) ==> |doc| > 0
    ensures Separable(docs + [doc], addBlank, n)
    ensures Composed(docs + [doc], addBlank, n)
            == Composed(docs, addBlank, n) + Piece(doc, SeparatorAfter(|docs|, n, addBlank))
  {
    assert (docs + [doc])[..|docs|] == docs;
  }

  /** A source that does not load fails the merge. */
  lemma UnloadableFails(files: seq<FileBytes>, i: nat, addBlank: bool)
    requires i < |files| && Load(files[i]).None?
    ensures MergeOutcome(files, addBlank) == None
  {
  }

  /** A source with no pages followed by a separator fails the merge,
      whatever comes after it. */
  lemma EmptyBeforeSeparator(files: seq<FileBytes>, i: nat, addBlank: bool)
    requires i < |files| && Load(files[i]) == Some([]) && SeparatorAfter(i, |files|, addBlank)
    ensures MergeOutcome(files, addBlank) == None
  {
    if LoadAll(files).Some? {
      assert LoadAll(files).value[i] == [];
    }
  }

  /** Sources that load one by one load together. */
  lemma LoadsEach(files: seq<FileBytes>, docs: seq<Doc>)
    requires |docs| == |files| && forall k :: 0 <= k < |files| ==> Load(files[k]) == Some(docs[k])
    ensures LoadAll(files) == Some(docs)
  {
    assert LoadAll(files).Some?;
    assert LoadAll(files).value == docs;
  }

  /** The loop of `mergePDFs`: each source is loaded, all its pages are
      appended, and when a separator follows it a blank page the size of
      its first page is added. A source that does not load, or one with
      no first page to size a separator by, fails the whole merge. */
  method MergePages(files: seq<FileBytes>, addBlank: bool) returns (r: Option<Doc>)
    ensures r == MergeOutcome(files, addBlank)
  {
    var n := |files|;
    var merged: Doc := [];
    ghost var docs: seq<Doc> := [];
    var i := 0;
    while i < n
      invariant 0 <= i <= n && |docs| == i
      invariant forall k :: 0 <= k < i ==> Load(files[k]) == Some(docs[k])
      invariant Separable(docs, addBlank, n)
      invariant merged == Composed(docs, addBlank, n)
    {
      var loaded := Load(files[i]);
      if loaded.None? {
        UnloadableFails(files, i, addBlank);
        return None;
      }
      var doc := loaded.value;
      var separator := addBlank && i < n - 1;
      if separator && |doc| == 0 {
        EmptyBeforeSeparator(files, i, addBlank);
        return None;
      }
      merged := merged + Piece(doc, separator);
      ComposedStep(docs, doc, addBlank, n);
      docs := docs + [doc];
      i := i + 1;
    }
    LoadsEach(files, docs);
    return Some(merged);
  }

  /** What merging the files yields, stated without the loop: the
      composition of the loaded sources, or nothing when a source does not
      load or a separator has no first page to be sized by. */
  function MergeOutcome(files: seq<FileBytes>, addBlank: bool): Option<Doc> {
    match LoadAll(files)
    case None => None
    case Some(docs) => if Separable(docs, addBlank, |docs|) then Some(Merged(docs, addBlank)) else None
  }

  /** The merge succeeds exactly when every source loads and every source a
      separator follows has a first page; it then holds the composition. */
  lemma MergeOutcomeSucceeds(files: seq<FileBytes>, addBlank: bool)
    ensures MergeOutcome(files, addBlank).Some?
            <==> LoadAll(files).Some? && Separable(LoadAll(files).value, addBlank, |files|)
    ensures MergeOutcome(files, addBlank).Some?
            ==> MergeOutcome(files, addBlank).value == Merged(LoadAll(files).value, addBlank)
  {
  }

  /** The download name: the trimmed name typed in, or "merged.pdf" when
      that is empty, with ".pdf" appended unless it already ends so. */
  function OutputFileName(typed: string): (r: string)
    ensures EndsWith(r, ".pdf")
    ensures Trim(typed) == [] ==> r == "merged.pdf"
    ensures Trim(typed) != [] ==> r == Trim(typed) || r == Trim(typed) + ".pdf"
    ensures Trim(typed) != [] && EndsWith(Trim(typed), ".pdf") ==> r == Trim(typed)
  {
    var trimmed := Trim(typed);
    var name := if trimmed == "" then "merged.pdf" else trimmed;
    if EndsWith(name, ".pdf") then name else name + ".pdf"
  }

  /** Normalising a normalised name changes nothing: it is already
      trimmed and already ends in ".pdf". */
  lemma OutputFileNameIdempotent(typed: string)
    ensures OutputFileName(OutputFileName(typed)) == OutputFileName(typed)
  {
    var r := OutputFileName(typed);
    var trimmed := Trim(typed);
    assert r[|r| - 1] == 'f';
    if trimmed != [] {
      assert r[0] == trimmed[0];
    }
    TrimOfTrimmed(r);
  }
}
