# PDF Tools: merger and splitter screens in Dafny

A model of the two screens of the PDF Tools web app, together with proofs about them.

- **Splitter.** The user loads one PDF and keeps a list of named page ranges. The page-number fields are edited as text and committed on blur. Preview documents are generated for the valid ranges. The split downloads one PDF per valid range.
- **Merger.** The user keeps an ordered list of PDF files and can reorder them by drag and drop. The files are merged into one download. An option adds a blank separator page after every file but the last, sized like that file's first page. The download name is normalised to end in ".pdf".

Each event handler of the two components is a pure transition on an immutable state. A download is a value: a file name and a page sequence.

pdf-lib is reduced to what the components observe:
- a document is its sequence of pages;
- loading can fail;
- `copyPages` fails on an index that names no page;
- `getPage(0)` fails on an empty document.

The JavaScript string primitives the handlers rely on are written out: `trim`, `endsWith`, `parseInt` and `Number.prototype.toString`.

Modules:

- `Wrappers`: `Option`.
- `Text`: JavaScript white space, `trim`, `endsWith`, decimal `toString`, and `parseInt` in base ten.
- `Seqs`: order-preserving `filter` and its laws.
- `Pdf`: pages, documents, loading, `copyPages` and blank pages.
- `RangeSet`: the splitter's range list, the texts of its fields and its preview keys. It holds the handlers `addSplitRange`, `removeSplitRange`, `updateSplitRange`, `handleInputChange` and `handleInputBlur`.
- `SplitCompose`: which ranges are eligible and which page indices each one copies. It also holds the pass over the range list that both preview generation and the split run.
- `Splitter`: the splitter screen. It covers choosing a file by drop or by picker, preview generation and the split.
- `SourceList`: the merger's file list. It covers admitting uploads, `findIndex`, removal by id, and dnd-kit's `arrayMove`.
- `MergeCompose`: the merge loop (`MergePages`), with a reference composition it is proved equal to. It also holds the page and blank-page counts and the output file name.
- `Merger`: the merger screen. It covers drop, file picker, remove, drag end, Clear All and merge.

Behaviours of the code that the model keeps as they are:

- A split part is always named `name + ".pdf"`, including when the name already ends in ".pdf".
- A new range's id is the list length plus one, so after a removal two ranges can share an id (`RangeSet.RemoveThenAddRepeatsId`).
- A committed page number is kept as parsed, with no clamping. Only zero and text that does not parse fall back to the default.
- Eligibility has no lower bound on `start`. An eligible range with a start of 0 or less asks `copyPages` for a negative index. That throws out of the loop, so the split stops at that range and reports an error (`Splitter.NonPositiveStartAborts`).
- Uploads are admitted by their MIME type.
- A drag onto an id that has left the list moves the dragged file to the end of the list.
- The merger keys previews by file name (`Merger.RemovingNamesakeDropsPreview`).

## Model

| member | source | states |
|---|---|---|
| Text.Trim | pdf-merger/src/components/PDFMerger.jsx:210 | `trim` returns a slice of the input with only white space before and after it. The result is empty exactly when the input is all JavaScript white space. Otherwise it neither starts nor ends with white space. |
| Text.TrimOfTrimmed | pdf-merger/src/components/PDFMerger.jsx:210 | A name that neither starts nor ends with white space is left alone by `trim`. |
| Text.EndsWithIffAppended | pdf-merger/src/components/PDFMerger.jsx:212 | `endsWith` holds exactly when the name is some string followed by the suffix. |
| Text.DecimalString | pdf-merger/src/components/PDFSplitter.jsx:88 | `toString` of an integer is a non-empty run of digits, with a leading minus for negatives, and has no white space at either end. It has no leading zero: a digit run longer than one digit never starts with '0', and a negative number's digits never do. |
| Text.DigitsValueOfNatDigits | pdf-merger/src/components/PDFSplitter.jsx:190 | The digits `toString` writes for a natural number denote that number. |
| Text.ParseInt | pdf-merger/src/components/PDFSplitter.jsx:177 | `parseInt` gives a number exactly for text made of white space, an optional sign and a digit run, followed by anything that is not a digit. The number is the run's value, negated after a minus, so "007" gives 7 and "-0" gives 0. Any other text, including text with no digit, is NaN. |
| Text.ParseIntOfDecimalString | pdf-merger/src/components/PDFSplitter.jsx:177 | `parseInt` of an integer's decimal string gives the integer back, even with a non-digit suffix such as ".5" or "px" after it. |
| Text.ParseIntRoundTrip | pdf-merger/src/components/PDFSplitter.jsx:186-192 | A committed field's text, `toString` of the stored value, parses back to exactly that value. |
| Seqs.Filter | pdf-merger/src/components/PDFSplitter.jsx:143 | `filter` keeps only accepted elements, keeps every accepted element, and never grows the list. |
| Seqs.FilterConcat | pdf-merger/src/components/PDFSplitter.jsx:143 | Filtering keeps relative order: filtering a concatenation is the concatenation of the filtered parts. |
| Seqs.FilterKeepsAll | pdf-merger/src/components/PDFSplitter.jsx:143 | When every element is accepted, the list is unchanged. |
| Seqs.FilterKeepsNone | pdf-merger/src/components/PDFSplitter.jsx:143 | When no element is accepted, the list becomes empty. |
| Seqs.FilterSubMultiset | pdf-merger/src/components/PDFMerger.jsx:168 | Filtering keeps a sub-multiset, so no element is duplicated. |
| Seqs.FilterLength | pdf-merger/src/components/PDFMerger.jsx:168 | The list shrinks by exactly the number of rejected elements. |
| Pdf.Load | pdf-merger/src/components/PDFMerger.jsx:187 | `PDFDocument.load` succeeds exactly when the bytes are a readable PDF, and then yields that file's pages in order. The splitter loads the same way (PDFSplitter.jsx lines 81, 112, 200 and 243). |
| Pdf.CopyPages | pdf-merger/src/components/PDFSplitter.jsx:215 | `copyPages` succeeds exactly when every index names a page of the document. On success it returns those pages in the order asked for. |
| RangeSet.Seed | pdf-merger/src/components/PDFSplitter.jsx:86-88 | After a load there is one range, `{1, 1, pages, "Part 1"}`, and its fields show "1" and the page count. The ids follow positions and the fields show the bounds. Preview keys are kept. |
| RangeSet.AddRange | pdf-merger/src/components/PDFSplitter.jsx:127-140 | The old ranges are kept as a prefix. One range is appended with id = old length + 1, the whole document and the name "Part id". Only that id's field texts are (re)set to "1" and the page count. |
| RangeSet.RemoveRange | pdf-merger/src/components/PDFSplitter.jsx:142-154 | Every range with the id goes and every other range stays. The ranges left are the old list filtered by id, in order. The id's field texts and preview key go; all other keys are kept unchanged. |
| RangeSet.Apply | pdf-merger/src/components/PDFSplitter.jsx:158 | Spreading `{[field]: value}` over a range replaces that one field and keeps the id and the other fields. |
| RangeSet.UpdateRange | pdf-merger/src/components/PDFSplitter.jsx:156-160 | Every range with the id gets the edit and every other range is untouched. Texts and previews are untouched. |
| RangeSet.InputChange | pdf-merger/src/components/PDFSplitter.jsx:162-170 | One field text of one id is set, and the entry is created if it is missing. The sibling field and other ids are kept, and ranges and previews are unchanged. |
| RangeSet.CommitValue | pdf-merger/src/components/PDFSplitter.jsx:173-180 | Missing, empty, unparsable and zero texts give the fallback. Any other parsed integer is kept, negative or out of range included. |
| RangeSet.InputBlur | pdf-merger/src/components/PDFSplitter.jsx:172-193 | Every range with the id stores the committed value in that bound and only there. The field then shows that value's decimal text, which parses back to it. The other field, other ids and previews are unchanged. |
| RangeSet.InputBlurIdempotent | pdf-merger/src/components/PDFSplitter.jsx:172-193 | Blurring the same field twice gives the same state as blurring it once. |
| RangeSet.IdsFollowPositionsDistinct | pdf-merger/src/components/PDFSplitter.jsx:128 | When range k has id k + 1, the ids are distinct. |
| RangeSet.AddRangeKeepsIdsInStep | pdf-merger/src/components/PDFSplitter.jsx:127-140 | Adding to a list whose ids follow positions keeps them in step, and so keeps them distinct. |
| RangeSet.AddRangeKeepsFieldsShowingBounds | pdf-merger/src/components/PDFSplitter.jsx:127-140 | When ids follow positions, adding keeps every field showing its range's committed bounds. |
| RangeSet.RemoveRangeKeepsFieldsShowingBounds | pdf-merger/src/components/PDFSplitter.jsx:142-154 | Removing keeps every remaining field showing its range's committed bounds. |
| RangeSet.RemoveRangeKeepsOrder | pdf-merger/src/components/PDFSplitter.jsx:143 | The ranges that remain keep their relative order: removing from two lists joined is removing from each. |
| RangeSet.UpdateRangeKeepsIdsInStep | pdf-merger/src/components/PDFSplitter.jsx:156-160 | An edit never changes an id, so ids that follow positions keep doing so. |
| RangeSet.RenameKeepsFieldsShowingBounds | pdf-merger/src/components/PDFSplitter.jsx:156-160 | Renaming a range keeps every field showing its range's committed bounds. |
| RangeSet.TypeThenBlur | pdf-merger/src/components/PDFSplitter.jsx:162-193 | Typing a text into a field and then leaving it stores what that text commits to in every range with the id. The field then shows that number, and the other field keeps its text. |
| RangeSet.TypeThenBlurShowsBounds | pdf-merger/src/components/PDFSplitter.jsx:162-193 | Typing leaves a field out of step with its bound only until the field is left. Afterwards every field shows its committed bounds again. |
| RangeSet.RemoveAbsentId | pdf-merger/src/components/PDFSplitter.jsx:142-154 | Removing an id no range has leaves the ranges unchanged. |
| RangeSet.RemoveThenAddRepeatsId | pdf-merger/src/components/PDFSplitter.jsx:127-154 | Take ranges 1 and 2, remove 1, then add. Both ranges now have id 2, and removing id 2 empties the list. |
| SplitCompose.Eligible | pdf-merger/src/components/PDFSplitter.jsx:205 | A range is copied exactly when start ≤ end ≤ page count, so the separate `start <= totalPages` test adds nothing. The split tests the same condition (line 246). There is no lower bound on start. |
| SplitCompose.PageIndices | pdf-merger/src/components/PDFSplitter.jsx:209-213 | The loop pushes indices from [start-1, end) that are below the page count, strictly ascending, and it pushes every such index. |
| SplitCompose.PageIndicesContiguous | pdf-merger/src/components/PDFSplitter.jsx:209-213 | When the interval lies inside the document, the loop pushes every index from lo to hi-1 in turn. |
| SplitCompose.EligibleRangeIndices | pdf-merger/src/components/PDFSplitter.jsx:205-213 | An eligible range with start ≥ 1 copies exactly the indices start-1 … end-1, all of them pages of the document. Their number is what the card displays (line 453). |
| SplitCompose.DisplayedCount | pdf-merger/src/components/PDFSplitter.jsx:453 | For a range that is not reversed, the card's count is the number of page numbers from start to end. The count is positive exactly for such ranges; a reversed range shows zero or less. |
| SplitCompose.CopyableIffPositiveStart | pdf-merger/src/components/PDFSplitter.jsx:205-215 | An eligible range's `copyPages` succeeds if and only if start ≥ 1. |
| SplitCompose.RunRanges | pdf-merger/src/components/PDFSplitter.jsx:204-223 | Each part produced in the pass holds the result of copying its range's indices. |
| SplitCompose.RunRangesFollowEligible | pdf-merger/src/components/PDFSplitter.jsx:204-223 | The parts' ranges are a prefix of the eligible ranges in list order. When the pass does not stop, they are exactly the eligible ranges. |
| SplitCompose.RunRangesStop | pdf-merger/src/components/PDFSplitter.jsx:245-275 | A pass that stops made parts for the eligible ranges before the first one that blocks, and for no other. |
| SplitCompose.RunRangesFailure | pdf-merger/src/components/PDFSplitter.jsx:204-229 | The pass stops if and only if some eligible range asks for a page the document lacks. |
| SplitCompose.CompleteRunIds | pdf-merger/src/components/PDFSplitter.jsx:202-225 | When the pass completes, the preview keys it writes are exactly the ids of the eligible ranges. |
| SplitCompose.EligibleRangePages | pdf-merger/src/components/PDFSplitter.jsx:209-216 | The pages copied for an eligible range with start ≥ 1 are the document's pages start … end. |
| SplitCompose.WholeRunPages | pdf-merger/src/components/PDFSplitter.jsx:245-257 | Suppose every start is ≥ 1 and the document has totalPages pages. Then the pass completes, and each part holds pages start … end of its range. |
| Splitter.LoadFile | pdf-merger/src/components/PDFSplitter.jsx:59-125 | An empty drop does nothing, and an empty picker list or a non-PDF type sets the handler's message and nothing else. A PDF replaces the file first. If the load then fails, the message is shown and the old page count and ranges stay. If it succeeds, the error is cleared and the list is seeded. |
| Splitter.GeneratePreviews | pdf-merger/src/components/PDFSplitter.jsx:195-230 | With no file or no ranges, nothing changes. After a complete pass the preview keys become exactly the eligible ids. After a failed pass the old previews stay and the message is shown. Ranges and texts are never touched. |
| Splitter.Downloads | pdf-merger/src/components/PDFSplitter.jsx:266 | Each download is named the range name plus ".pdf", always, and holds the part's pages. |
| Splitter.Split | pdf-merger/src/components/PDFSplitter.jsx:232-279 | With no file or no ranges: that message and no download. A file that does not load: the error and no download. Otherwise download k is named after eligible range k plus ".pdf" and holds the pages copied for it. A complete pass downloads every eligible range. A stopped pass downloads the eligible ranges before the first one that blocks and reports the error. The state is otherwise unchanged. |
| Splitter.InitialHasNothingToSplit | pdf-merger/src/components/PDFSplitter.jsx:31-39 | On the initial state preview generation does nothing, and a split reports that a file and ranges are needed. |
| Splitter.SplitDownloadsEligibleRanges | pdf-merger/src/components/PDFSplitter.jsx:245-272 | Suppose all starts are ≥ 1 and the document has totalPages pages. Then the split succeeds with one download per eligible range, in list order: "name.pdf" holding pages start … end. |
| Splitter.NonPositiveStartAborts | pdf-merger/src/components/PDFSplitter.jsx:245-256 | Suppose an eligible range has start ≤ 0. Then the split reports its error, and preview generation reports its own error and keeps the old previews. |
| Splitter.LoadThenSplitIsWholeDocument | pdf-merger/src/components/PDFSplitter.jsx:232-272 | A document of at least one page that is loaded and split right away downloads as one "Part 1.pdf" holding the whole document. |
| Splitter.LoadThenPreviews | pdf-merger/src/components/PDFSplitter.jsx:195-225 | Previews generated right after a load: the seeded range gets a preview if and only if the document has pages. |
| SourceList.IsPdf | pdf-merger/src/components/PDFMerger.jsx:99 | The MIME-type test that drop (line 99) and the picker (line 132) apply. What it admits is stated by `SourceList.Admit`. |
| SourceList.Admit | pdf-merger/src/components/PDFMerger.jsx:98-105 | Every PDF-typed upload becomes an entry and every entry comes from a PDF-typed upload. The result is empty if and only if there was no PDF. |
| SourceList.AdmitConcat | pdf-merger/src/components/PDFMerger.jsx:131-138 | Admission keeps upload order: admitting two batches in turn equals admitting them together. |
| SourceList.FindIndex | pdf-merger/src/components/PDFMerger.jsx:64-65 | `findIndex` returns the first position holding the id, or -1 if and only if no entry has it. |
| SourceList.RemoveById | pdf-merger/src/components/PDFMerger.jsx:168 | Every entry with the id goes and every other entry stays. |
| SourceList.RemoveByIdKeepsOrder | pdf-merger/src/components/PDFMerger.jsx:168 | Removal keeps relative order. |
| SourceList.ArrayMove | pdf-merger/src/components/PDFMerger.jsx:66 | `arrayMove` returns a permutation in which the moved element sits at the normalised target. Removing it leaves the other elements in their original order. |
| SourceList.ArrayMoveUndo | pdf-merger/src/components/PDFMerger.jsx:66 | For in-range positions, the element lands at `to`, and moving it back restores the list. |
| SourceList.IdsOfArrayMove | pdf-merger/src/components/PDFMerger.jsx:59-69 | A move moves the ids the same way and keeps their multiset. |
| SourceList.MoveById | pdf-merger/src/components/PDFMerger.jsx:63-66 | The reorder keeps the files and their ids as multisets. The file at the dragged id's index, or the last file when that id is missing, lands at the target's index, or at the end when the target is missing. Taking it out again leaves the old list without it, so the other files keep their relative order. |
| MergeCompose.LoadAll | pdf-merger/src/components/PDFMerger.jsx:186-187 | Loading the list succeeds if and only if every file loads. Document k is then what file k loads to. |
| MergeCompose.MergePages | pdf-merger/src/components/PDFMerger.jsx:184-199 | The loop, as written with a failure exit per source, computes exactly the reference outcome `MergeOutcome`: the composition of all loaded sources, or failure. |
| MergeCompose.MergeOutcomeSucceeds | pdf-merger/src/components/PDFMerger.jsx:184-199 | The merge succeeds if and only if every file loads and every file followed by a separator has a first page (`getPage(0)`). Its pages are then the composition of the sources. |
| MergeCompose.ComposedCounts | pdf-merger/src/components/PDFMerger.jsx:184-199 | Composition adds one page per separator to the sources' pages, and each added page is blank. |
| MergeCompose.MergedCounts | pdf-merger/src/components/PDFMerger.jsx:319 | The merged page count is the sources' page total plus, with the option on, the announced blank count. The number of blank pages grows by exactly that count. |
| MergeCompose.BlankCount | pdf-merger/src/components/PDFMerger.jsx:319 | The announced count of n files is the number of files a separator follows when the option is on. Exactly the files before that index get one, which is every file but the last. |
| MergeCompose.MergedWithoutSeparators | pdf-merger/src/components/PDFMerger.jsx:188-189 | With the option off, the merge is the plain concatenation of the sources in list order. |
| MergeCompose.MergedLayout | pdf-merger/src/components/PDFMerger.jsx:192-197 | Source i appears intact at its offset. When a separator follows it, the next page is blank and has the width and height of source i's first page. |
| MergeCompose.TwoSourcesWithSeparator | pdf-merger/src/components/PDFMerger.jsx:184-199 | Two sources with the option on merge to a, then a blank page sized like a's first page, then b. |
| MergeCompose.OutputFileName | pdf-merger/src/components/PDFMerger.jsx:209-212 | The name always ends in ".pdf". Blank input gives "merged.pdf". Otherwise the name is the trimmed input, with ".pdf" added only if it is missing. |
| MergeCompose.OutputFileNameIdempotent | pdf-merger/src/components/PDFMerger.jsx:209-212 | Normalising an already-normalised name changes nothing. |
| Merger.Drop | pdf-merger/src/components/PDFMerger.jsx:89-123 | An empty drop changes nothing. A drop with no PDF sets the message and keeps the list. Otherwise the PDFs are appended in order, their names gain previews and the error is cleared. |
| Merger.Pick | pdf-merger/src/components/PDFMerger.jsx:125-151 | A missing file list changes nothing. Otherwise the PDFs among the chosen files (possibly none) are appended with previews and the error is cleared. |
| Merger.RemoveFile | pdf-merger/src/components/PDFMerger.jsx:153-170 | Every entry with the id goes and the others stay. The files left are the old list filtered by id, in order. The preview of the first such entry's name goes. An unknown id changes nothing. |
| Merger.DragEnd | pdf-merger/src/components/PDFMerger.jsx:59-69 | No target, or a drop onto itself, changes nothing. Otherwise the files are permuted (ids as a multiset kept) and the dragged file lands at the target's index, or at the end when the target has left the list. A dragged id missing from the list moves the last file. Taking the moved file out of the new list leaves the old list without it: the other files keep their relative order. |
| Merger.ClearAll | pdf-merger/src/components/PDFMerger.jsx:375-380 | No files and no previews are left, and the rest is unchanged. |
| Merger.BlankNotice | pdf-merger/src/components/PDFMerger.jsx:319 | The notice counts the listed files that a separator will follow: exactly those before the count, at most the number of files. `Merger.Merge` adds that many blank pages. |
| Merger.Merge | pdf-merger/src/components/PDFMerger.jsx:172-225 | With no files: that message and no download. A failure: the merge message and no download, exactly when some file fails to load or lacks the first page a separator needs. On success the error is cleared. The download is named by the normalised name and holds every source's pages in order plus exactly the announced number of blank pages. |
| Merger.InitialState | pdf-merger/src/components/PDFMerger.jsx:44-49 | The screen starts with no files and no error, so a merge reports that no file is listed. Every listed file has a preview. |
| Merger.DropKeepsPreviewsCover | pdf-merger/src/components/PDFMerger.jsx:89-123 | After a drop every listed file still has a preview under its name. |
| Merger.PickKeepsPreviewsCover | pdf-merger/src/components/PDFMerger.jsx:125-151 | After the picker every listed file still has a preview under its name. |
| Merger.DragEndKeepsPreviewsCover | pdf-merger/src/components/PDFMerger.jsx:59-69 | A reorder keeps every listed file's preview. |
| Merger.ClearAllKeepsPreviewsCover | pdf-merger/src/components/PDFMerger.jsx:375-380 | Clear All leaves no file without a preview, and clearing twice is clearing once. |
| Merger.RemoveFileKeepsPreviewsCover | pdf-merger/src/components/PDFMerger.jsx:153-170 | Removing a file whose name no other listed file has keeps every remaining file's preview. |
| Merger.RemovingNamesakeDropsPreview | pdf-merger/src/components/PDFMerger.jsx:156-168 | Removing one of two same-named files leaves the other listed but takes its preview away. |

## Left out

- Byte-level PDF parsing, serialisation (`save`) and page content are not modelled. pdf-lib is not part of this model: a page is its size plus an abstract body, and a document is its page list.
- Object URLs, `Blob`s and the download link are left out: they are browser I/O. A preview is modelled as the presence of its key, and a download as an `Output` value.
- Revoking object URLs (remove, Clear All, the cleanup effects) is left out, because it only releases browser memory.
- The splitter's whole-file preview URL (`createPreviewUrl`) is left out, because it does not influence any other state.
- The `isProcessing`, `isMerging` and `isDragOver` flags, and the interleaving of asynchronous state updates, are left out. Each handler is modelled as one atomic transition on the state it reads.
- The `useEffect` that regenerates split previews whenever the ranges or the file change is left out as a trigger. `Splitter.GeneratePreviews` is the transition it runs.
- The ids drawn with `Math.random` are left out: each upload carries its id as a parameter (`Incoming.drawnId`). Distinct ids are not assumed.
- The drop and picker handlers' outer `catch` in the merger is left out, because nothing in it can throw once previews are modelled as keys.
- Merger.DragEnd: the list is required to be non-empty, because a drag can only start on a listed file.
- `formatFileSize`, the rendering, `LandingPage.jsx`, `App.jsx` and `SortablePDFItem.jsx` are display only and are not part of this model.
- The setters for the separator checkbox and the output-name field just store the value and are not modelled as transitions. `MergerState.addBlank` and `outputName` hold them.
- Text.ParseInt: the `0x` hexadecimal prefix of `parseInt` is left out, because a number input never holds it. Double-precision rounding above 2^53 is left out too, as is `toString`'s exponent notation for huge values; integers are unbounded here.
- Text.Trim: white space is the set of sections 12.2 and 12.3 of ECMA-262, compared by code point. Strings are sequences of Unicode scalar values rather than UTF-16 code units.
