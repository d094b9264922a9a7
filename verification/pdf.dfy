/** The document codec the screens borrow from pdf-lib, reduced to what
    the composition logic observes: a document is its sequence of pages,
    loading may fail, and pages are copied by 0-based index. */
module Pdf {
  import opened Wrappers

  /** The MIME type both screens accept. */
  const PdfMime: string := "application/pdf"

  /** What is drawn on a page: nothing (a page the merger inserts), or
      the content of some source page, identified abstractly. */
  datatype Body = Blank | Drawn(content: nat)

  datatype Page = Page(width: int, height: int, body: Body)

  type Doc = seq<Page>

  /** The bytes of an uploaded file: a readable PDF with its pages, or
      something `PDFDocument.load` rejects. */
  datatype FileBytes = PdfBytes(pages: Doc) | Unreadable

  /** `PDFDocument.load`. */
  function Load(b: FileBytes): (r: Option<Doc>)
    ensures r.Some? <==> b.PdfBytes?
    ensures b.PdfBytes? ==> r.value == b.pages
  {
    match b
    case PdfBytes(pages) => Some(pages)
    case Unreadable => None
  }

  /** Every index names a page of a document with `count` pages. */
  predicate IndicesInBounds(indices: seq<int>, count: int) {
    forall k :: 0 <= k < |indices| ==> 0 <= indices[k] < count
  }

  /** `copyPages(doc, indices)`: the pages at the given indices, in the
      given order. pdf-lib looks each index up in the page array and
      fails on an index that names no page, negative ones included. */
  function CopyPages(doc: Doc, indices: seq<int>): (r: Option<Doc>)
    ensures r.Some? <==> IndicesInBounds(indices, |doc|)
    ensures r.Some? ==> |r.value| == |indices|
    ensures r.Some? ==> forall k :: 0 <= k < |indices| ==> r.value[k] == doc[indices[k]]
  {
    if IndicesInBounds(indices, |doc|) then
      Some(seq(|indices|, k requires 0 <= k < |indices| => doc[indices[k]]))
    else
      None
  }

  /** A composed document handed to the browser as a download. */
  datatype Output = Output(fileName: string, pages: Doc)

  /** A fresh page with nothing drawn on it, sized like `p`
      (`addPage()` followed by `setSize(width, height)`). */
  function BlankLike(p: Page): Page {
    Page(p.width, p.height, Blank)
  }
}
