/** `src/ocr/ocr_pymupdf.py`: converts every PDF of a directory to a text file of its
    pages, each page's UTF-8 bytes followed by a 0x0C byte. Nothing is caught: the first
    document that cannot be opened or read, or a text file that cannot be created,
    aborts the whole run, and the files written so far stay as they are. PyMuPDF is
    given as each entry's `Documents.Document`, and `canCreate` says whether files can
    be created in `out_txt_dir` (the script never creates that directory). */
module OcrPymupdf {
  import opened Outcomes
  import Seqs
  import Utf8
  import Paths
  import PageText
  import FileWrites
  import Documents

  /** `process_pdf_file(pdf_path, txt_path)`: `pymupdf.open` raises before anything is
      written; then `open(txt_path, "wb")` raises, or creates the file empty; then the
      pages are written one by one, each followed by 0x0C, until a page's `get_text()`
      raises. Returns the contents of the text file if it was opened, and the exception
      that escapes, if any. */
  method ProcessPdfFile(doc: Documents.Document, canCreate: bool)
    returns (file: Option<seq<Utf8.byte>>, error: Option<Exception>)
    ensures doc.Raised? ==> file == None && error == Some(doc.exception)
    ensures doc.Ok? && !canCreate ==> file == None && error == Some(OSError)
    ensures doc.Ok? && canCreate ==>
      file == Some(PageText.TerminatedBytes(Documents.Extracted(doc.value)))
      && error == Documents.Failure(doc)
  {
    if doc.Raised? {
      return None, Some(doc.exception);
    }
    if !canCreate {
      return None, Some(OSError);
    }
    var pages := doc.value;
    ghost var texts := Documents.Extracted(pages);
    var bytes := [];
    for i := 0 to |pages|
      invariant i <= |texts|
      invariant bytes == PageText.TerminatedBytes(texts[..i])
    {
      if pages[i].Raised? {
        assert i == |texts| && texts[..i] == texts;
        return Some(bytes), Some(pages[i].exception);
      }
      var text := Utf8.Encode(pages[i].value);
      bytes := bytes + text;                      // txt_file.write(text)
      bytes := bytes + [Utf8.FormFeedByte];       // txt_file.write(bytes((12,)))
      assert texts[..i + 1] == texts[..i] + [pages[i].value];
      Utf8.EncodeAllSnoc(texts[..i], pages[i].value);
      Seqs.TerminatedSnoc(Utf8.EncodeAll(texts[..i]), text, [Utf8.FormFeedByte]);
    }
    assert texts[..|pages|] == texts;
    return Some(bytes), None;
  }

  /** The exception `process_pdf_file` lets escape for a document, if any. */
  function EntryError(doc: Documents.Document, canCreate: bool): Option<Exception>
  {
    if doc.Raised? then Some(doc.exception)
    else if !canCreate then Some(OSError)
    else Documents.Failure(doc)
  }

  /** Converting a document raises nothing exactly when the text file can be created,
      the document opens and every page reads. */
  lemma EntryErrorIff(doc: Documents.Document, canCreate: bool)
    ensures EntryError(doc, canCreate).None? <==>
      canCreate && doc.Ok? && forall i :: 0 <= i < |doc.value| ==> doc.value[i].Ok?
  {
    Documents.FailureIff(doc);
  }

  /** Whether processing the entry aborts the run. */
  predicate Aborts(entry: string, doc: Documents.Document, canCreate: bool)
  {
    Paths.IsPdf(entry) && EntryError(doc, canCreate).Some?
  }

  /** The position of the first entry whose processing aborts the run, or the number of
      entries when none does. */
  function FirstAbort(entries: seq<string>, docs: seq<Documents.Document>, canCreate: bool): (k: nat)
    requires |docs| == |entries|
    ensures k <= |entries|
    ensures forall j :: 0 <= j < k ==> !Aborts(entries[j], docs[j], canCreate)
    ensures k < |entries| ==> Aborts(entries[k], docs[k], canCreate)
  {
    if |entries| == 0 || Aborts(entries[0], docs[0], canCreate) then 0
    else 1 + FirstAbort(entries[1..], docs[1..], canCreate)
  }

  /** What one directory entry writes: a `.pdf` entry whose document opens and whose
      text file can be created writes the pages it read before stopping to
      `out_txt_dir / f"{stem}.txt"`; any other entry writes nothing. */
  function EntryWrite(entry: string, doc: Documents.Document, canCreate: bool): Option<(string, seq<Utf8.byte>)>
  {
    if Paths.IsPdf(entry) && doc.Ok? && canCreate
    then Some((Paths.TxtName(entry), PageText.TerminatedBytes(Documents.Extracted(doc.value))))
    else None
  }

  /** The writes of the entries, one per entry in listing order; `docs[i]` is the
      document of `entries[i]`. */
  function ScanWrites(entries: seq<string>, docs: seq<Documents.Document>, canCreate: bool)
    : seq<Option<(string, seq<Utf8.byte>)>>
    requires |docs| == |entries|
  {
    FileWrites.Writes(entries, docs, (e: string, d: Documents.Document) => EntryWrite(e, d, canCreate))
  }

  /** `process(in_pdf_dir, out_txt_dir)`: raises ValueError for a non-directory before
      touching any file. Otherwise converts the `.pdf` entries in listing order: the run
      ends normally, with `total_count` PDFs converted, when none aborts; else the
      exception of the first aborting entry escapes, and the output directory keeps the
      writes of the entries up to and including that one. */
  method Process(isDir: bool, entries: seq<string>, docs: seq<Documents.Document>, canCreate: bool,
                 outDir: map<string, seq<Utf8.byte>>)
    returns (r: Outcome<nat>, files: map<string, seq<Utf8.byte>>)
    requires |docs| == |entries|
    ensures !isDir ==> r == Raised(ValueError) && files == outDir
    ensures isDir && FirstAbort(entries, docs, canCreate) == |entries| ==>
      r == Ok(Paths.PdfCount(entries))
      && files == FileWrites.Apply(outDir, ScanWrites(entries, docs, canCreate))
    ensures isDir && FirstAbort(entries, docs, canCreate) < |entries| ==>
      var k := FirstAbort(entries, docs, canCreate);
      r == Raised(EntryError(docs[k], canCreate).value)
      && files == FileWrites.Apply(outDir, ScanWrites(entries[..k + 1], docs[..k + 1], canCreate))
  {
    if !isDir {
      return Raised(ValueError), outDir;
    }
    ghost var stop := FirstAbort(entries, docs, canCreate);
    var totalCount := 0;
    files := outDir;
    for i := 0 to |entries|
      invariant i <= stop
      invariant totalCount == Paths.PdfCount(entries[..i])
      invariant files == FileWrites.Apply(outDir, ScanWrites(entries[..i], docs[..i], canCreate))
    {
      ScanStep(entries, docs, canCreate, outDir, i);
      ghost var w := EntryWrite(entries[i], docs[i], canCreate);
      if Paths.IsPdf(entries[i]) {
        totalCount := totalCount + 1;
        var txtName := Paths.TxtName(entries[i]);
        var file, error := ProcessPdfFile(docs[i], canCreate);
        assert error == EntryError(docs[i], canCreate);
        assert file.Some? <==> w.Some?;
        if file.Some? {
          assert w == Some((txtName, file.value));
          files := files[txtName := file.value];
        }
        if error.Some? {
          assert i == stop;
          return Raised(error.value), files;
        }
      } else {
        assert w == None;
      }
      assert !Aborts(entries[i], docs[i], canCreate);
    }
    assert entries[..|entries|] == entries && docs[..|docs|] == docs;
    r := Ok(totalCount);
  }

  /** One more entry of the listing is one more step of the count and of the writes. */
  lemma ScanStep(entries: seq<string>, docs: seq<Documents.Document>, canCreate: bool,
                 outDir: map<string, seq<Utf8.byte>>, i: nat)
    requires |docs| == |entries| && i < |entries|
    ensures Paths.PdfCount(entries[..i + 1])
         == Paths.PdfCount(entries[..i]) + if Paths.IsPdf(entries[i]) then 1 else 0
    ensures FileWrites.Apply(outDir, ScanWrites(entries[..i + 1], docs[..i + 1], canCreate))
         == var before := FileWrites.Apply(outDir, ScanWrites(entries[..i], docs[..i], canCreate));
            match EntryWrite(entries[i], docs[i], canCreate)
            case Some((name, bytes)) => before[name := bytes]
            case None => before
  {
    assert entries[..i + 1][..i] == entries[..i];
    FileWrites.WritesStep(outDir, entries, docs, (e: string, d: Documents.Document) => EntryWrite(e, d, canCreate), i);
  }

  /** The run ends normally exactly when every `.pdf` entry's document opens and reads
      page by page and its text file can be created. */
  lemma ConvertsAll(entries: seq<string>, docs: seq<Documents.Document>, canCreate: bool)
    requires |docs| == |entries|
    ensures FirstAbort(entries, docs, canCreate) == |entries| <==>
      forall j :: 0 <= j < |entries| && Paths.IsPdf(entries[j]) ==> EntryError(docs[j], canCreate).None?
  {
    var k := FirstAbort(entries, docs, canCreate);
    if k < |entries| {
      assert Paths.IsPdf(entries[k]) && EntryError(docs[k], canCreate).Some?;
    }
  }

  /** A document with no pages gives an empty text file. */
  lemma EmptyDocument(entry: string, canCreate: bool)
    requires Paths.IsPdf(entry) && canCreate
    ensures EntryWrite(entry, Ok([]), canCreate) == Some((Paths.TxtName(entry), []))
  {
    assert Documents.Extracted([]) == [];
    assert Utf8.EncodeAll([]) == [];
  }

  /** Only `.pdf` entries produce files: every new or changed file is the text file of a
      `.pdf` entry whose document opened, and holds the pages read from it. */
  lemma ScanOnlyPdf(entries: seq<string>, docs: seq<Documents.Document>, canCreate: bool,
                    outDir: map<string, seq<Utf8.byte>>, name: string)
    requires |docs| == |entries|
    requires name in FileWrites.Apply(outDir, ScanWrites(entries, docs, canCreate))
    requires name !in outDir || FileWrites.Apply(outDir, ScanWrites(entries, docs, canCreate))[name] != outDir[name]
    ensures canCreate
    ensures exists j :: 0 <= j < |entries| && Paths.IsPdf(entries[j]) && name == Paths.TxtName(entries[j])
              && docs[j].Ok?
              && FileWrites.Apply(outDir, ScanWrites(entries, docs, canCreate))[name]
                 == PageText.TerminatedBytes(Documents.Extracted(docs[j].value))
  {
    var ws := ScanWrites(entries, docs, canCreate);
    FileWrites.OnlyWritten(outDir, ws, name);
    var j :| 0 <= j < |ws| && ws[j] == Some((name, FileWrites.Apply(outDir, ws)[name]));
    assert ws[j] == EntryWrite(entries[j], docs[j], canCreate);
  }

  /** The file of the last `.pdf` entry with a given stem holds that document's pages,
      each followed by 0x0C, when the document reads completely. */
  lemma ScanLastWins(entries: seq<string>, docs: seq<Documents.Document>, canCreate: bool,
                     outDir: map<string, seq<Utf8.byte>>, i: nat, pages: seq<string>)
    requires |docs| == |entries| && i < |entries| && Paths.IsPdf(entries[i]) && canCreate
    requires docs[i] == Ok(seq(|pages|, p requires 0 <= p < |pages| => Ok(pages[p])))
    requires forall j :: i < j < |entries| && Paths.IsPdf(entries[j]) ==> Paths.Stem(entries[j]) != Paths.Stem(entries[i])
    ensures Paths.TxtName(entries[i]) in FileWrites.Apply(outDir, ScanWrites(entries, docs, canCreate))
    ensures FileWrites.Apply(outDir, ScanWrites(entries, docs, canCreate))[Paths.TxtName(entries[i])]
         == PageText.TerminatedBytes(pages)
  {
    var ws := ScanWrites(entries, docs, canCreate);
    Documents.ExtractedAll(pages);
    assert ws[i] == Some((Paths.TxtName(entries[i]), PageText.TerminatedBytes(pages)));
    forall j | i < j < |ws| && ws[j].Some? ensures ws[j].value.0 != ws[i].value.0 {
      assert ws[j] == EntryWrite(entries[j], docs[j], canCreate);
      Paths.TxtNameInjective(entries[j], entries[i]);
    }
    FileWrites.LastWriteWins(outDir, ws, i);
  }

  /** A file no `.pdf` entry names is left as it was. */
  lemma ScanKeepsOthers(entries: seq<string>, docs: seq<Documents.Document>, canCreate: bool,
                        outDir: map<string, seq<Utf8.byte>>, name: string)
    requires |docs| == |entries|
    requires forall j :: 0 <= j < |entries| && Paths.IsPdf(entries[j]) ==> Paths.TxtName(entries[j]) != name
    ensures name in FileWrites.Apply(outDir, ScanWrites(entries, docs, canCreate)) <==> name in outDir
    ensures name in outDir ==> FileWrites.Apply(outDir, ScanWrites(entries, docs, canCreate))[name] == outDir[name]
  {
    var ws := ScanWrites(entries, docs, canCreate);
    forall j | 0 <= j < |ws| && ws[j].Some? ensures ws[j].value.0 != name {
      assert ws[j] == EntryWrite(entries[j], docs[j], canCreate);
    }
    FileWrites.Untouched(outDir, ws, name);
  }
}
