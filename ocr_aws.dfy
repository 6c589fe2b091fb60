/** `src/scripts/ocr_aws.py`: the Textract pipeline over an input directory. Each
    `.pdf` entry is uploaded under its stem, its LINE text is written to
    `out_txt_dir / f"{stem}.txt"`, and the run counts the PDFs seen and the ones
    processed successfully. `scripts[i]` is the outside world while `entries[i]` is
    processed and `outcomes[i]` how that ended; the output directory is a map from file name to text. */
module OcrAws {
  import opened Outcomes
  import Paths
  import Textract
  import FileWrites

  /** `process_pdf_file(s3, textract, pdf_file, txt_file, report_name)`: True exactly on
      the path that wrote the text. A failed job or an exception caught before the text
      file is opened gives False and leaves the directory as it was; an exception while
      writing, after `write_text` truncated the file, gives False and leaves a prefix
      of the text in it. */
  method ProcessPdfFile(s: Textract.Script, txtFile: string, outDir: map<string, string>)
    returns (ok: bool, files: map<string, string>)
    requires Textract.Completes(s)
    ensures ok <==> Textract.RunJob(s).Written?
    ensures ok ==> files == outDir[txtFile := Textract.RunJob(s).text]
    ensures Textract.RunJob(s).WriteAborted? ==> files == outDir[txtFile := Textract.RunJob(s).partial]
    ensures Textract.RunJob(s).JobFailed? || Textract.RunJob(s).Errored? ==> files == outDir
  {
    var o := Textract.ProcessJob(s);
    files := outDir;
    match o
    case Written(text) =>
      files := files[txtFile := text];
      return true, files;
    case WriteAborted(partial) =>
      files := files[txtFile := partial];
      return false, files;
    case _ =>
      return false, files;
  }

  /** Whether the entry is a PDF whose processing returned True. */
  predicate Succeeds(entry: string, o: Textract.JobOutcome)
  {
    Paths.IsPdf(entry) && o.Written?
  }

  /** The final `success_count`: never more than the `.pdf` entries. */
  function SuccessCount(entries: seq<string>, outcomes: seq<Textract.JobOutcome>): (n: nat)
    requires |outcomes| == |entries|
    ensures n <= Paths.PdfCount(entries)
  {
    if |entries| == 0 then 0
    else
      var k := |entries| - 1;
      SuccessCount(entries[..k], outcomes[..k]) + if Succeeds(entries[k], outcomes[k]) then 1 else 0
  }

  /** What one entry writes, given how its job ended: a `.pdf` entry whose job reached
      the write leaves the text, or part of it, in its stem's text file. */
  function EntryWrite(entry: string, o: Textract.JobOutcome): Option<(string, string)>
  {
    if Paths.IsPdf(entry) && o.FileContents().Some? then Some((Paths.TxtName(entry), o.FileContents().value)) else None
  }

  /** The writes of the scan, one per entry in listing order. */
  function ScanWrites(entries: seq<string>, outcomes: seq<Textract.JobOutcome>): seq<Option<(string, string)>>
    requires |outcomes| == |entries|
  {
    FileWrites.Writes(entries, outcomes, EntryWrite)
  }

  /** The counters logged at the end and the output directory. */
  datatype Summary = Summary(totalCount: nat, successCount: nat, files: map<string, string>)

  /** One pass of the loop body: a `.pdf` entry is counted, also counted as a success
      when its job wrote text, and its text file gets whatever the write left in it;
      any other entry changes nothing. */
  function Step(s: Summary, entry: string, o: Textract.JobOutcome): Summary
  {
    if !Paths.IsPdf(entry) then s
    else
      var files := if o.FileContents().Some? then s.files[Paths.TxtName(entry) := o.FileContents().value] else s.files;
      Summary(s.totalCount + 1, s.successCount + if o.Written? then 1 else 0, files)
  }

  /** The counters and the directory after the loop bodies of the entries in order. */
  function Scan(entries: seq<string>, outcomes: seq<Textract.JobOutcome>, outDir: map<string, string>): Summary
    requires |outcomes| == |entries|
  {
    if |entries| == 0 then Summary(0, 0, outDir)
    else
      var k := |entries| - 1;
      Step(Scan(entries[..k], outcomes[..k], outDir), entries[k], outcomes[k])
  }

  lemma ScanPrefix(entries: seq<string>, outcomes: seq<Textract.JobOutcome>, outDir: map<string, string>, i: nat)
    requires |outcomes| == |entries| && i < |entries|
    ensures Scan(entries[..i + 1], outcomes[..i + 1], outDir)
         == Step(Scan(entries[..i], outcomes[..i], outDir), entries[i], outcomes[i])
  {
    assert entries[..i + 1][..i] == entries[..i] && outcomes[..i + 1][..i] == outcomes[..i];
  }

  /** After the whole scan, `total_count` is the number of `.pdf` entries,
      `success_count` the number whose job wrote text, and the directory holds their
      writes in listing order. */
  lemma {:induction false} ScanMeaning(entries: seq<string>, outcomes: seq<Textract.JobOutcome>, outDir: map<string, string>)
    requires |outcomes| == |entries|
    ensures Scan(entries, outcomes, outDir)
         == Summary(Paths.PdfCount(entries), SuccessCount(entries, outcomes), FileWrites.Apply(outDir, ScanWrites(entries, outcomes)))
  {
    if |entries| > 0 {
      var k := |entries| - 1;
      var init, initOutcomes := entries[..k], outcomes[..k];
      ScanMeaning(init, initOutcomes, outDir);
      var ws, w := ScanWrites(init, initOutcomes), EntryWrite(entries[k], outcomes[k]);
      assert ScanWrites(entries, outcomes) == ws + [w];
      FileWrites.ApplySnoc(outDir, ws, w);
      var before := Summary(Paths.PdfCount(init), SuccessCount(init, initOutcomes), FileWrites.Apply(outDir, ws));
      assert Scan(entries, outcomes, outDir) == Step(before, entries[k], outcomes[k]);
      assert Paths.PdfCount(entries) == before.totalCount + if Paths.IsPdf(entries[k]) then 1 else 0;
      assert SuccessCount(entries, outcomes) == before.successCount + if Succeeds(entries[k], outcomes[k]) then 1 else 0;
    } else {
      assert ScanWrites(entries, outcomes) == [];
    }
  }

  /** `process(in_pdf_dir, out_txt_dir)`: a non-directory raises ValueError before any
      entry is processed; otherwise `total_count` counts the `.pdf` entries and
      `success_count` those whose processing returned True. */
  method Process(isDir: bool, entries: seq<string>, scripts: seq<Textract.Script>, outDir: map<string, string>)
    returns (r: Outcome<Summary>)
    requires |scripts| == |entries| && Textract.AllComplete(scripts)
    ensures !isDir <==> r == Raised(ValueError)
    ensures isDir ==>
      var outcomes := Textract.JobOutcomes(scripts);
      r == Ok(Summary(Paths.PdfCount(entries), SuccessCount(entries, outcomes),
                      FileWrites.Apply(outDir, ScanWrites(entries, outcomes))))
  {
    if !isDir {
      return Raised(ValueError);
    }
    ghost var outcomes := Textract.JobOutcomes(scripts);
    var totalCount := 0;
    var successCount := 0;
    var files := outDir;
    for i := 0 to |entries|
      invariant Summary(totalCount, successCount, files) == Scan(entries[..i], outcomes[..i], outDir)
    {
      ghost var before := Summary(totalCount, successCount, files);
      ghost var o := outcomes[i];
      ScanPrefix(entries, outcomes, outDir, i);
      assert Textract.Completes(scripts[i]) && o == Textract.RunJob(scripts[i]);
      if Paths.IsPdf(entries[i]) {
        totalCount := totalCount + 1;
        var txtPath := Paths.TxtName(entries[i]);   // out_txt_dir / f"{pdf_path.stem}.txt"
        var ok;
        ok, files := ProcessPdfFile(scripts[i], txtPath, files);
        if ok {
          successCount := successCount + 1;
          assert Summary(totalCount, successCount, files) == Step(before, entries[i], o);
        } else {
          assert Summary(totalCount, successCount, files) == Step(before, entries[i], o);
        }
      } else {
        assert before == Step(before, entries[i], o);
      }
    }
    assert entries[..|entries|] == entries && outcomes[..|outcomes|] == outcomes;
    ScanMeaning(entries, outcomes, outDir);
    r := Ok(Summary(totalCount, successCount, files));
  }

  /** All PDFs were processed successfully exactly when the two counters agree. */
  lemma AllSucceeded(entries: seq<string>, outcomes: seq<Textract.JobOutcome>)
    requires |outcomes| == |entries|
    ensures SuccessCount(entries, outcomes) == Paths.PdfCount(entries) <==>
      forall i :: 0 <= i < |entries| && Paths.IsPdf(entries[i]) ==> outcomes[i].Written?
  {
    if SuccessCount(entries, outcomes) == Paths.PdfCount(entries) {
      forall i | 0 <= i < |entries| && Paths.IsPdf(entries[i]) ensures outcomes[i].Written? {
        EqualCountsWritten(entries, outcomes, i);
      }
    }
    if forall i :: 0 <= i < |entries| && Paths.IsPdf(entries[i]) ==> outcomes[i].Written? {
      AllWrittenEqualCounts(entries, outcomes);
    }
  }

  lemma {:induction false} AllWrittenEqualCounts(entries: seq<string>, outcomes: seq<Textract.JobOutcome>)
    requires |outcomes| == |entries|
    requires forall i :: 0 <= i < |entries| && Paths.IsPdf(entries[i]) ==> outcomes[i].Written?
    ensures SuccessCount(entries, outcomes) == Paths.PdfCount(entries)
  {
    if |entries| > 0 {
      var k := |entries| - 1;
      var init, initOutcomes := entries[..k], outcomes[..k];
      forall i | 0 <= i < k && Paths.IsPdf(init[i]) ensures initOutcomes[i].Written? {
        assert init[i] == entries[i] && initOutcomes[i] == outcomes[i];
      }
      AllWrittenEqualCounts(init, initOutcomes);
    }
  }

  lemma {:induction false} EqualCountsWritten(entries: seq<string>, outcomes: seq<Textract.JobOutcome>, i: nat)
    requires |outcomes| == |entries| && SuccessCount(entries, outcomes) == Paths.PdfCount(entries)
    requires i < |entries| && Paths.IsPdf(entries[i])
    ensures outcomes[i].Written?
  {
    var k := |entries| - 1;
    var init, initOutcomes := entries[..k], outcomes[..k];
    var pdfs, successes := Paths.PdfCount(init), SuccessCount(init, initOutcomes);
    assert successes <= pdfs;
    var pdf := if Paths.IsPdf(entries[k]) then 1 else 0;
    var success := if Succeeds(entries[k], outcomes[k]) then 1 else 0;
    assert Paths.PdfCount(entries) == pdfs + pdf;
    assert SuccessCount(entries, outcomes) == successes + success;
    assert success <= pdf;
    if i < k {
      assert successes == pdfs;
      assert init[i] == entries[i] && initOutcomes[i] == outcomes[i];
      EqualCountsWritten(init, initOutcomes, i);
    }
  }

  /** A `.pdf` entry whose processing returned True has its text in `f"{stem}.txt"`,
      unless a later `.pdf` entry with the same stem overwrote it. */
  lemma ScanWritesSucceeded(entries: seq<string>, outcomes: seq<Textract.JobOutcome>,
                            outDir: map<string, string>, i: nat)
    requires |outcomes| == |entries| && i < |entries|
    requires forall j :: i < j < |entries| && Paths.IsPdf(entries[j]) ==> Paths.Stem(entries[j]) != Paths.Stem(entries[i])
    requires Succeeds(entries[i], outcomes[i])
    ensures Paths.TxtName(entries[i]) in FileWrites.Apply(outDir, ScanWrites(entries, outcomes))
    ensures FileWrites.Apply(outDir, ScanWrites(entries, outcomes))[Paths.TxtName(entries[i])] == outcomes[i].text
  {
    var ws := ScanWrites(entries, outcomes);
    forall j | i < j < |ws| && ws[j].Some? ensures ws[j].value.0 != ws[i].value.0 {
      Paths.TxtNameInjective(entries[j], entries[i]);
    }
    FileWrites.LastWriteWins(outDir, ws, i);
  }

  /** Every new or changed file is the text file of a `.pdf` entry whose job reached the
      write, and holds what that write left: the text of a successful entry, or a prefix
      of it when writing raised. */
  lemma ScanOnlyWritten(entries: seq<string>, outcomes: seq<Textract.JobOutcome>,
                        outDir: map<string, string>, name: string)
    requires |outcomes| == |entries|
    requires name in FileWrites.Apply(outDir, ScanWrites(entries, outcomes))
    requires name !in outDir || FileWrites.Apply(outDir, ScanWrites(entries, outcomes))[name] != outDir[name]
    ensures exists j :: 0 <= j < |entries| && Paths.IsPdf(entries[j]) && name == Paths.TxtName(entries[j])
              && outcomes[j].FileContents() == Some(FileWrites.Apply(outDir, ScanWrites(entries, outcomes))[name])
  {
    FileWrites.OnlyWritten(outDir, ScanWrites(entries, outcomes), name);
  }

  /** "r.pdf" and "r.PDF" both pass the filter and share the text file "r.txt": both are
      counted, and the later one's text replaces the earlier one's. */
  lemma CaseVariantsShareOutput()
    ensures Paths.IsPdf("r.pdf") && Paths.IsPdf("r.PDF")
    ensures Paths.TxtName("r.pdf") == Paths.TxtName("r.PDF") == "r.txt"
  {
    Paths.IsPdfIff("r.pdf");
    Paths.IsPdfIff("r.PDF");
    Paths.PdfTxtName("r.pdf");
    Paths.PdfTxtName("r.PDF");
  }
}
