/** src/index/base.py: the page-by-page Markdown rendering of a PDF and the projection of
    chunks to their text. PyMuPDF is given as a `Documents.Document` whose page texts are
    the pages' Markdown renderings: opening the document may raise, and so may a worker
    rendering a page. The order in which the worker pool completes the page jobs is an
    input too: the pool is modelled by handling the results one after the other in that
    order. */
module PageIndex {
  import opened Outcomes
  import Documents

  /** A chunk produced by the chunking library; only its text is used here. */
  datatype Chunk = Chunk(text: string)

  /** `get_chunks`: one string per chunk, the chunk's text, in chunk order. */
  function GetChunks(chunks: seq<Chunk>): (r: seq<string>)
    ensures |r| == |chunks|
    ensures forall i :: 0 <= i < |chunks| ==> r[i] == chunks[i].text
  {
    seq(|chunks|, i requires 0 <= i < |chunks| => chunks[i].text)
  }

  /** Chunks taken in two runs give their texts in two runs. */
  lemma GetChunksAppend(a: seq<Chunk>, b: seq<Chunk>)
    ensures GetChunks(a + b) == GetChunks(a) + GetChunks(b)
  {
  }

  /** `args`: one job per page id, `0 .. page_count - 1` in order. */
  function PageJobs(pageCount: nat): (r: seq<nat>)
    ensures |r| == pageCount
    ensures forall i :: 0 <= i < pageCount ==> r[i] == i
  {
    if pageCount == 0 then [] else PageJobs(pageCount - 1) + [pageCount - 1]
  }

  /** Every page id below the count has exactly one job, and no other id has one. */
  lemma PageJobsOnce(pageCount: nat)
    ensures forall id: int :: multiset(PageJobs(pageCount))[id] == if 0 <= id < pageCount then 1 else 0
  {
    forall id: int
      ensures multiset(PageJobs(pageCount))[id] == if 0 <= id < pageCount then 1 else 0
    {
      PageJobCount(pageCount, id);
    }
  }

  lemma {:induction false} PageJobCount(pageCount: nat, id: int)
    ensures multiset(PageJobs(pageCount))[id] == if 0 <= id < pageCount then 1 else 0
  {
    if pageCount > 0 {
      var last: nat := pageCount - 1;
      PageJobCount(last, id);
      assert PageJobs(pageCount) == PageJobs(last) + [last];
      assert multiset(PageJobs(pageCount)) == multiset(PageJobs(last)) + multiset{last};
      assert multiset(PageJobs(pageCount))[id] == multiset(PageJobs(last))[id] + if id == last then 1 else 0;
    } else {
      assert PageJobs(pageCount) == [];
    }
  }

  /** The order in which `as_completed` hands back the jobs: each submitted job exactly
      once. */
  predicate IsCompletionOrder(order: seq<nat>, pageCount: nat)
  {
    multiset(order) == multiset(PageJobs(pageCount))
  }

  /** A completion order holds every page id below the count and no other. */
  lemma CompletionOrderIds(order: seq<nat>, pageCount: nat)
    requires IsCompletionOrder(order, pageCount)
    ensures forall j :: 0 <= j < |order| ==> order[j] < pageCount
    ensures forall id: nat :: id < pageCount ==> id in order
  {
    PageJobsOnce(pageCount);
    forall j | 0 <= j < |order|
      ensures order[j] < pageCount
    {
      assert order[j] in multiset(order);
    }
    forall id: nat | id < pageCount
      ensures id in order
    {
      assert multiset(PageJobs(pageCount))[id] == 1;
      assert multiset(order)[id] == 1;
    }
  }

  /** `process_page((path, page_id))`: the page's Markdown paired with the id it was
      given, or the exception rendering it raised. */
  function ProcessPage(pages: seq<Outcome<string>>, pageId: nat): (r: Outcome<(string, nat)>)
    requires pageId < |pages|
    ensures r.Ok? <==> pages[pageId].Ok?
    ensures r.Ok? ==> r.value.1 == pageId && r.value.0 == pages[pageId].value
    ensures r.Raised? ==> r.exception == pages[pageId].exception
  {
    match pages[pageId]
    case Ok(md) => Ok((md, pageId))
    case Raised(e) => Raised(e)
  }

  /** Whether the job of page `id` raised. */
  predicate RaisesAt(pages: seq<Outcome<string>>, id: nat)
  {
    id < |pages| && pages[id].Raised?
  }

  /** The position, in completion order, of the first job whose result raises, or the
      number of jobs when none does. */
  function FirstFailed(order: seq<nat>, pages: seq<Outcome<string>>): (k: nat)
    ensures k <= |order|
    ensures forall j :: 0 <= j < k ==> !RaisesAt(pages, order[j])
    ensures k < |order| ==> RaisesAt(pages, order[k])
  {
    if |order| == 0 || RaisesAt(pages, order[0]) then 0 else 1 + FirstFailed(order[1..], pages)
  }

  /** Whatever the completion order, some job's result raises exactly when some page's
      rendering raises. */
  lemma FirstFailedIff(order: seq<nat>, pages: seq<Outcome<string>>)
    requires IsCompletionOrder(order, |pages|)
    ensures FirstFailed(order, pages) == |order| <==> forall id :: 0 <= id < |pages| ==> pages[id].Ok?
  {
    CompletionOrderIds(order, |pages|);
    var k := FirstFailed(order, pages);
    if k == |order| {
      forall id | 0 <= id < |pages| ensures pages[id].Ok? {
        assert id in order;
        var j :| 0 <= j < |order| && order[j] == id;
        assert !RaisesAt(pages, order[j]);
      }
    }
  }

  /** `get_md_pages(pdf_file_path, output_dir_path)`: creating the output directory may
      raise, then opening the document may raise; otherwise the pages are rendered in
      parallel and, whatever the completion order, slot i ends up holding the Markdown
      of page i, unless a rendering raises, whose exception then escapes. */
  method GetMdPages(canMakeDir: bool, doc: Documents.Document, completionOrder: seq<nat>)
    returns (r: Outcome<seq<Option<string>>>)
    requires doc.Ok? ==> IsCompletionOrder(completionOrder, |doc.value|)
    ensures !canMakeDir ==> r == Raised(OSError)
    ensures canMakeDir && doc.Raised? ==> r == Raised(doc.exception)
    ensures canMakeDir && doc.Ok? && FirstFailed(completionOrder, doc.value) < |completionOrder| ==>
      r == Raised(doc.value[completionOrder[FirstFailed(completionOrder, doc.value)]].exception)
    ensures canMakeDir && doc.Ok? && FirstFailed(completionOrder, doc.value) == |completionOrder| ==>
      && r.Ok? && |r.value| == |doc.value|
      && forall i :: 0 <= i < |doc.value| ==> doc.value[i].Ok? && r.value[i] == Some(doc.value[i].value)
  {
    if !canMakeDir {
      return Raised(OSError);             // output_dir_path.mkdir(parents=True, exist_ok=True)
    }
    if doc.Raised? {
      return Raised(doc.exception);       // pymupdf.open(pdf_file_path)
    }
    var pages := doc.value;
    var pageCount := |pages|;
    var md := new Option<string>[pageCount](_ => None);
    CompletionOrderIds(completionOrder, pageCount);
    ghost var stop := FirstFailed(completionOrder, pages);
    var j := 0;
    while j < |completionOrder|
      invariant 0 <= j <= stop
      invariant forall i :: 0 <= i < pageCount && i in completionOrder[..j] ==>
        pages[i].Ok? && md[i] == Some(pages[i].value)
      invariant forall i :: 0 <= i < pageCount && i !in completionOrder[..j] ==> md[i] == None
    {
      var result := ProcessPage(pages, completionOrder[j]);
      if result.Raised? {
        assert j == stop;
        return Raised(result.exception);
      }
      var mdText, pageId := result.value.0, result.value.1;
      md[pageId] := Some(mdText);
      assert completionOrder[..j + 1] == completionOrder[..j] + [completionOrder[j]];
      j := j + 1;
    }
    assert completionOrder[..j] == completionOrder;
    r := Ok(md[..]);
  }
}
