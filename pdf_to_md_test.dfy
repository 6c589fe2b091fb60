/** src/scripts/tests/test_pdf_to_md.py: the script's own copy of the parallel page
    rendering, whose job result puts the page id first. The inputs are as in
    src/index/base.py: the document, whose open and page renderings may raise, and the
    completion order of the jobs. */
module PdfToMdTest {
  import opened Outcomes
  import PageIndex
  import Documents

  /** `process_page((path, page_id))`: the id it was given, then the page's Markdown,
      or the exception rendering it raised. */
  function ProcessPage(pages: seq<Outcome<string>>, pageId: nat): (r: Outcome<(nat, string)>)
    requires pageId < |pages|
    ensures r.Ok? <==> pages[pageId].Ok?
    ensures r.Ok? ==> r.value.0 == pageId && r.value.1 == pages[pageId].value
    ensures r.Raised? ==> r.exception == pages[pageId].exception
  {
    match pages[pageId]
    case Ok(md) => Ok((pageId, md))
    case Raised(e) => Raised(e)
  }

  /** The two job functions carry the same two values in opposite order, and raise
      alike. */
  lemma ProcessPageSwapped(pages: seq<Outcome<string>>, pageId: nat)
    requires pageId < |pages|
    ensures PageIndex.ProcessPage(pages, pageId).Ok? <==> ProcessPage(pages, pageId).Ok?
    ensures ProcessPage(pages, pageId).Ok? ==>
      ProcessPage(pages, pageId).value
      == (PageIndex.ProcessPage(pages, pageId).value.1, PageIndex.ProcessPage(pages, pageId).value.0)
    ensures ProcessPage(pages, pageId).Raised? ==>
      ProcessPage(pages, pageId) == Raised(PageIndex.ProcessPage(pages, pageId).exception)
  {
  }

  /** `test_pymupdf_nccn(input_pdf_path)` without the interactive `check` display:
      opening the document may raise; otherwise slots for `page_count` pages are filled
      by page id as the jobs complete, so that slot i holds the Markdown of page i
      whatever the completion order, unless a rendering raises, whose exception then
      escapes. */
  method TestPymupdfNccn(doc: Documents.Document, completionOrder: seq<nat>)
    returns (r: Outcome<seq<Option<string>>>)
    requires doc.Ok? ==> PageIndex.IsCompletionOrder(completionOrder, |doc.value|)
    ensures doc.Raised? ==> r == Raised(doc.exception)
    ensures doc.Ok? && PageIndex.FirstFailed(completionOrder, doc.value) < |completionOrder| ==>
      r == Raised(doc.value[completionOrder[PageIndex.FirstFailed(completionOrder, doc.value)]].exception)
    ensures doc.Ok? && PageIndex.FirstFailed(completionOrder, doc.value) == |completionOrder| ==>
      && r.Ok? && |r.value| == |doc.value|
      && forall i :: 0 <= i < |doc.value| ==> doc.value[i].Ok? && r.value[i] == Some(doc.value[i].value)
  {
    if doc.Raised? {
      return Raised(doc.exception);       // pymupdf.open(input_pdf_path)
    }
    var pages := doc.value;
    var pageCount := |pages|;
    var md := new Option<string>[pageCount](_ => None);
    PageIndex.CompletionOrderIds(completionOrder, pageCount);
    ghost var stop := PageIndex.FirstFailed(completionOrder, pages);
    var j := 0;
    while j < |completionOrder|
      invariant 0 <= j <= stop
      invariant forall i :: 0 <= i < pageCount && i in completionOrder[..j] ==>
        pages[i].Ok? && md[i] == Some(pages[i].value)
      invariant forall i :: 0 <= i < pageCount && i !in completionOrder[..j] ==> md[i] == None
    {
      var result := ProcessPage(pages, completionOrder[j]);
      if result.Raised? {
        assert j == stop;
        return Raised(result.exception);
      }
      var pageId, mdText := result.value.0, result.value.1;
      md[pageId] := Some(mdText);
      assert completionOrder[..j + 1] == completionOrder[..j] + [completionOrder[j]];
      j := j + 1;
    }
    assert completionOrder[..j] == completionOrder;
    r := Ok(md[..]);
  }
}
