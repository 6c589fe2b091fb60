/** PDF documents as PyMuPDF hands them to the code: `pymupdf.open` either raises (a
    corrupt file, a directory named `x.pdf`) or gives the pages, and reading each page
    (`page.get_text()`, or its Markdown rendering) either raises or gives its text. */
module Documents {
  import opened Outcomes

  /** The outcome of opening a document, and of reading each of its pages in order. */
  type Document = Outcome<seq<Outcome<string>>>

  /** The texts of the pages before the first page that raises: what a pass over the
      pages has read when it stops. */
  function Extracted(pages: seq<Outcome<string>>): (texts: seq<string>)
    ensures |texts| <= |pages|
    ensures forall i :: 0 <= i < |texts| ==> pages[i] == Ok(texts[i])
    ensures |texts| < |pages| ==> pages[|texts|].Raised?
  {
    if |pages| == 0 || pages[0].Raised? then [] else [pages[0].value] + Extracted(pages[1..])
  }

  /** The exception reading the whole document raises, if any: the open's, else that of
      the first page that raises. */
  function Failure(doc: Document): Option<Exception>
  {
    match doc
    case Raised(e) => Some(e)
    case Ok(pages) =>
      var n := |Extracted(pages)|;
      if n < |pages| then Some(pages[n].exception) else None
  }

  /** A document reads without an exception exactly when it opens and every page reads;
      its texts are then all the pages' texts. */
  lemma FailureIff(doc: Document)
    ensures Failure(doc).None? <==> doc.Ok? && forall i :: 0 <= i < |doc.value| ==> doc.value[i].Ok?
    ensures Failure(doc).None? ==>
      |Extracted(doc.value)| == |doc.value|
      && forall i :: 0 <= i < |doc.value| ==> doc.value[i] == Ok(Extracted(doc.value)[i])
  {
  }

  /** A document whose pages all read gives exactly those texts. */
  lemma ExtractedAll(texts: seq<string>)
    ensures Extracted(seq(|texts|, i requires 0 <= i < |texts| => Ok(texts[i]))) == texts
  {
    var pages := seq(|texts|, i requires 0 <= i < |texts| => Ok(texts[i]));
    var r := Extracted(pages);
    assert forall i :: 0 <= i < |r| ==> pages[i] == Ok(r[i]);
  }
}
