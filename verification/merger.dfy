/** The merger screen as a state machine over its source list, preview
    keys, error message and merge options, with `mergePDFs` producing the
    download. */
module Merger {
  import opened Wrappers
  import opened Text
  import opened Pdf
  import opened SourceList
  import opened MergeCompose
  import Seqs

  /** The messages the screen shows, one constructor per message. */
  datatype MergerError =
    | NoPdfDropped   // "Please drop valid PDF files only"
    | NoFiles        // "Please upload at least one PDF file"
    | MergeFailed    // "Error merging PDFs. Please try again."

  /** `pdfFiles`, the key set of `previewUrls` (file names), `error`,
      `addBlankPages` and `outputFileName`. */
  datatype MergerState = MergerState(
    files: seq<Entry>,
    previews: set<string>,
    error: Option<MergerError>,
    addBlank: bool,
    outputName: string)

  function Initial(): MergerState {
    MergerState([], {}, None, false, "")
  }

  /** `handleDrop`: an empty drop does nothing; a drop with no PDF among
      it shows an error and leaves the list alone; otherwise the PDFs are
      appended in drop order, each gains a preview keyed by its file name,
      and the error is cleared. */
  function Drop(s: MergerState, dropped: seq<Incoming>): (t: MergerState)
    ensures |dropped| == 0 ==> t == s
    ensures |dropped| > 0 && Admit(dropped) == [] ==> t == s.(error := Some(NoPdfDropped))
    ensures |dropped| > 0 && Admit(dropped) != [] ==>
              && t.files == s.files + Admit(dropped)
              && t.previews == s.previews + Names(Admit(dropped))
              && t.error == None
    ensures s.files <= t.files
    ensures t.addBlank == s.addBlank && t.outputName == s.outputName
  {
    if |dropped| == 0 then s
    else
      var admitted := Admit(dropped);
      if admitted == [] then s.(error := Some(NoPdfDropped))
      else s.(files := s.files + admitted, previews := s.previews + Names(admitted), error := None)
  }

  /** `handleFileChange`: a missing file list does nothing; otherwise the
      PDFs among the chosen files, possibly none, are appended in order
      with their previews, and the error is cleared. */
  function Pick(s: MergerState, picked: Option<seq<Incoming>>): (t: MergerState)
    ensures picked.None? ==> t == s
    ensures picked.Some? ==>
              && t.files == s.files + Admit(picked.value)
              && t.previews == s.previews + Names(Admit(picked.value))
              && t.error == None
    ensures t.addBlank == s.addBlank && t.outputName == s.outputName
  {
    match picked
    case None => s
    case Some(chosen) =>
      var admitted := Admit(chosen);
      s.(files := s.files + admitted, previews := s.previews + Names(admitted), error := None)
  }

  /** `removeFile`: every entry with the id leaves the list, the rest keep
      their order. The preview removed is the one keyed by the name of the
      first entry with that id, so another file of the same name loses its
      preview too. An unknown id changes nothing. */
  function RemoveFile(s: MergerState, id: string): (t: MergerState)
    ensures forall k :: 0 <= k < |t.files| ==> t.files[k].id != id && t.files[k] in s.files
    ensures forall k :: 0 <= k < |s.files| && s.files[k].id != id ==> s.files[k] in t.files
    ensures FindIndex(s.files, id) == -1 ==> t == s
    ensures FindIndex(s.files, id) >= 0 ==> t.previews == s.previews - {s.files[FindIndex(s.files, id)].name}
    ensures t.files == RemoveById(s.files, id)
    ensures t.error == s.error && t.addBlank == s.addBlank && t.outputName == s.outputName
  {
    var i := FindIndex(s.files, id);
    if i == -1 then
      Seqs.FilterKeepsAll(s.files, (e: Entry) => e.id != id);
      s.(files := RemoveById(s.files, id))
    else
      s.(files := RemoveById(s.files, id), previews := s.previews - {s.files[i].name})
  }

  /** `handleDragEnd`. A drag can only start on a listed file, so the
      list is not empty. With no drop target (`over` is null, and reading
      its id throws) or a drop onto itself nothing changes; otherwise
      `arrayMove` takes the entry at the dragged id's index out and puts
      it where the target's index was. An id missing from the list has
      index -1, which `arrayMove` counts from the end: a target that has
      left the list sends the dragged entry to the end. The entries, and
      so their ids, are only rearranged. */
  function DragEnd(s: MergerState, active: string, over: Option<string>): (t: MergerState)
    requires |s.files| > 0
    ensures over.None? || over == Some(active) ==> t == s
    ensures |t.files| == |s.files| && multiset(t.files) == multiset(s.files)
    ensures multiset(Ids(t.files)) == multiset(Ids(s.files))
    ensures over.Some? && over.value != active ==>
              var from := FindIndex(s.files, active);
              var to := FindIndex(s.files, over.value);
              var src := if from >= 0 then from else |s.files| - 1;
              var dst := if to >= 0 then to else |s.files| - 1;
              t.files[dst] == s.files[src] && RemoveAt(t.files, dst) == RemoveAt(s.files, src)
    ensures t.previews == s.previews && t.error == s.error
    ensures t.addBlank == s.addBlank && t.outputName == s.outputName
  {
    if over.None? || over.value == active then s
    else
      s.(files := MoveById(s.files, active, over.value))
  }

  /** The "Clear All" button: no files and no previews are left. */
  function ClearAll(s: MergerState): (t: MergerState)
    ensures t.files == [] && t.previews == {}
    ensures t.error == s.error && t.addBlank == s.addBlank && t.outputName == s.outputName
  {
    s.(files := [], previews := {})
  }

  /** The count in the "blank page(s) will be added" notice. */
  function BlankNotice(s: MergerState): (r: nat)
    ensures r <= |s.files|
    ensures forall i :: 0 <= i < |s.files| ==> (SeparatorAfter(i, |s.files|, true) <==> i < r)
  {
    BlankCount(|s.files|)
  }

  function Sources(files: seq<Entry>): (bytes: seq<FileBytes>)
    ensures |bytes| == |files|
    ensures forall k :: 0 <= k < |files| ==> bytes[k] == files[k].bytes
  {
    seq(|files|, k requires 0 <= k < |files| => files[k].bytes)
  }

  /** Every listed file loads, and every file a separator follows has a
      first page. */
  predicate MergeSucceeds(s: MergerState) {
    var loaded := LoadAll(Sources(s.files));
    loaded.Some? && Separable(loaded.value, s.addBlank, |s.files|)
  }

  /** `mergePDFs`: with no files, an error and no download. Otherwise the
      sources are merged in list order; if that fails the error is shown
      and nothing is downloaded. A successful merge downloads the pages of
      every source in order, with, when the option is on, exactly the
      announced number of blank separator pages, under the normalised
      output name. The list and previews are left as they were. */
  method Merge(s: MergerState) returns (t: MergerState, out: Option<Output>)
    ensures t.files == s.files && t.previews == s.previews
    ensures t.addBlank == s.addBlank && t.outputName == s.outputName
    ensures |s.files| == 0 ==> out.None? && t.error == Some(NoFiles)
    ensures |s.files| > 0 ==> (out.Some? <==> MergeSucceeds(s))
    ensures |s.files| > 0 && out.None? ==> t.error == Some(MergeFailed)
    ensures out.Some? ==>
              var docs := LoadAll(Sources(s.files)).value;
              && t.error == None
              && out.value.fileName == OutputFileName(s.outputName)
              && EndsWith(out.value.fileName, ".pdf")
              && Separable(docs, s.addBlank, |docs|)
              && out.value.pages == Merged(docs, s.addBlank)
              && |out.value.pages| == PageTotal(docs) + (if s.addBlank then BlankNotice(s) else 0)
              && CountBlank(out.value.pages)
                 == CountBlank(Flatten(docs)) + (if s.addBlank then BlankNotice(s) else 0)
  {
    if |s.files| == 0 {
      return s.(error := Some(NoFiles)), None;
    }
    var pages := MergePages(Sources(s.files), s.addBlank);
    MergeOutcomeSucceeds(Sources(s.files), s.addBlank);
    if pages.None? {
      return s.(error := Some(MergeFailed)), None;
    }
    MergedCounts(LoadAll(Sources(s.files)).value, s.addBlank);
    return s.(error := None), Some(Output(OutputFileName(s.outputName), pages.value));
  }

  /** Every listed file has a preview under its name. */
  predicate PreviewsCover(s: MergerState) {
    Names(s.files) <= s.previews
  }

  lemma NamesConcat(a: seq<Entry>, b: seq<Entry>)
    ensures Names(a + b) == Names(a) + Names(b)
  {
    forall x | x in Names(a + b) ensures x in Names(a) + Names(b) {
      var k :| 0 <= k < |a + b| && (a + b)[k].name == x;
      if k >= |a| {
        assert b[k - |a|].name == x;
      }
    }
    forall x | x in Names(a) ensures x in Names(a + b) {
      var k :| 0 <= k < |a| && a[k].name == x;
      assert (a + b)[k] == a[k];
    }
    forall x | x in Names(b) ensures x in Names(a + b) {
      var k :| 0 <= k < |b| && b[k].name == x;
      assert (a + b)[|a| + k] == b[k];
    }
  }

  /** The screen starts with nothing listed, so a merge right away reports
      that there is nothing to merge; every listed file has a preview. */
  lemma InitialState()
    ensures Initial().files == [] && Initial().error == None && PreviewsCover(Initial())
    ensures BlankNotice(Initial()) == 0
  {
  }

  /** A drop adds a preview for every file it lists. */
  lemma DropKeepsPreviewsCover(s: MergerState, dropped: seq<Incoming>)
    requires PreviewsCover(s)
    ensures PreviewsCover(Drop(s, dropped))
  {
    NamesConcat(s.files, Admit(dropped));
  }

  /** So does the file picker. */
  lemma PickKeepsPreviewsCover(s: MergerState, picked: Option<seq<Incoming>>)
    requires PreviewsCover(s)
    ensures PreviewsCover(Pick(s, picked))
  {
    if picked.Some? {
      NamesConcat(s.files, Admit(picked.value));
    }
  }

  /** A reorder lists the same files and keeps the previews. */
  lemma DragEndKeepsPreviewsCover(s: MergerState, active: string, over: Option<string>)
    requires |s.files| > 0 && PreviewsCover(s)
    ensures PreviewsCover(DragEnd(s, active, over))
  {
    var t := DragEnd(s, active, over);
    forall x | x in Names(t.files) ensures x in Names(s.files) {
      var k :| 0 <= k < |t.files| && t.files[k].name == x;
      assert t.files[k] in multiset(s.files);
      var j :| 0 <= j < |s.files| && s.files[j] == t.files[k];
    }
  }

  /** Clearing empties the list along with the previews. */
  lemma ClearAllKeepsPreviewsCover(s: MergerState)
    ensures PreviewsCover(ClearAll(s))
    ensures ClearAll(ClearAll(s)) == ClearAll(s)
  {
  }

  /** Removing a file whose name no other listed file shares keeps every
      remaining file's preview; `RemovingNamesakeDropsPreview` shows the
      case where it does not. */
  lemma RemoveFileKeepsPreviewsCover(s: MergerState, id: string)
    requires PreviewsCover(s)
    requires FindIndex(s.files, id) >= 0 ==>
               forall k :: 0 <= k < |s.files| && s.files[k].id != id
                           ==> s.files[k].name != s.files[FindIndex(s.files, id)].name
    ensures PreviewsCover(RemoveFile(s, id))
  {
    var i := FindIndex(s.files, id);
    var t := RemoveFile(s, id);
    forall x | x in Names(t.files) ensures x in t.previews {
      var k :| 0 <= k < |t.files| && t.files[k].name == x;
      var e := t.files[k];
      assert e in s.files && e.id != id;
      var j :| 0 <= j < |s.files| && s.files[j] == e;
      assert x in Names(s.files);
      assert i >= 0 ==> x != s.files[i].name;
    }
  }

  /** Two listed files with the same name and different ids: removing the
      first entry holding its id keeps the other listed but takes its
      preview away, because previews are keyed by file name. */
  lemma RemovingNamesakeDropsPreview(s: MergerState, i: nat, j: nat)
    requires i < |s.files| && j < |s.files|
    requires forall k :: 0 <= k < i ==> s.files[k].id != s.files[i].id
    requires s.files[i].id != s.files[j].id && s.files[i].name == s.files[j].name
    ensures var t := RemoveFile(s, s.files[i].id);
      s.files[j] in t.files && s.files[j].name !in t.previews
  {
    assert FindIndex(s.files, s.files[i].id) == i;
  }
}
