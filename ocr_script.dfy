/** `ocr.py`: uploads every PDF of `LOCAL_PDF_DIR` to S3, runs a Textract text
    detection job on it and writes the LINE text of a succeeded job to
    `OUTPUT_TEXT_DIR / f"{filename}.txt"`. `scripts[i]` is the outside world's
    behaviour while `entries[i]` is processed and `outcomes[i]` how that ended; the output directory is a map from
    file name to text. */
module OcrScript {
  import opened Outcomes
  import Paths
  import Textract
  import FileWrites

  /** `f"{filename}.txt"` with the whole file name: "a.pdf" becomes "a.pdf.txt". */
  function OutputName(filename: string): string
  {
    filename + Paths.TxtSuffix
  }

  /** The output name keeps the input name as its stem and has suffix ".txt". */
  lemma OutputNameKeepsName(filename: string)
    requires |filename| > 0
    ensures Paths.Stem(OutputName(filename)) == filename
    ensures Paths.Suffix(OutputName(filename)) == ".txt"
  {
    var out := OutputName(filename);
    var n := |filename|;
    assert out[n] == '.' && out[n + 1] == 't' && out[n + 2] == 'x' && out[n + 3] == 't';
    assert Paths.LastDot(out) == n;
  }

  /** Distinct entries have distinct output files. */
  lemma OutputNameInjective(a: string, b: string)
    requires a != b
    ensures OutputName(a) != OutputName(b)
  {
    assert OutputName(a)[..|a|] == a && OutputName(b)[..|b|] == b;
  }

  /** `process_pdf_file(s3, textract, file_path)` on the output directory: the text file
      is written when the job ran to a written text, and holds a prefix of the text
      when writing raised after `write_text` had truncated it; a failed job and every
      exception raised before the file is opened (all caught and logged) leave the
      directory as it was. */
  method ProcessPdfFile(filename: string, s: Textract.Script, outDir: map<string, string>)
    returns (files: map<string, string>)
    requires Textract.Completes(s)
    ensures Textract.RunJob(s).Written? ==> files == outDir[OutputName(filename) := Textract.RunJob(s).text]
    ensures Textract.RunJob(s).WriteAborted? ==> files == outDir[OutputName(filename) := Textract.RunJob(s).partial]
    ensures Textract.RunJob(s).JobFailed? || Textract.RunJob(s).Errored? ==> files == outDir
  {
    var o := Textract.ProcessJob(s);
    files := outDir;
    match o
    case Written(text) => files := files[OutputName(filename) := text];
    case WriteAborted(partial) => files := files[OutputName(filename) := partial];
    case _ =>
  }

  /** What one directory entry writes, given how its job ended. */
  function EntryWrite(entry: string, o: Textract.JobOutcome): Option<(string, string)>
  {
    if Paths.IsPdf(entry) && o.FileContents().Some? then Some((OutputName(entry), o.FileContents().value)) else None
  }

  /** The writes of the scan; `outcomes[i]` is how the job of `entries[i]` ended. */
  function ScanWrites(entries: seq<string>, outcomes: seq<Textract.JobOutcome>): seq<Option<(string, string)>>
    requires |outcomes| == |entries|
  {
    FileWrites.Writes(entries, outcomes, EntryWrite)
  }

  /** `process()`: a missing input directory raises ValueError before any entry is
      processed; otherwise every entry whose suffix lower-cases to ".pdf" is processed
      in listing order and nothing escapes. */
  method Process(isDir: bool, entries: seq<string>, scripts: seq<Textract.Script>, outDir: map<string, string>)
    returns (r: Outcome<map<string, string>>)
    requires |scripts| == |entries| && Textract.AllComplete(scripts)
    ensures !isDir <==> r == Raised(ValueError)
    ensures isDir ==> r == Ok(FileWrites.Apply(outDir, ScanWrites(entries, Textract.JobOutcomes(scripts))))
  {
    if !isDir {
      return Raised(ValueError);
    }
    ghost var outcomes := Textract.JobOutcomes(scripts);
    var files := outDir;
    for i := 0 to |entries|
      invariant files == FileWrites.Apply(outDir, ScanWrites(entries[..i], outcomes[..i]))
    {
      FileWrites.WritesStep(outDir, entries, outcomes, EntryWrite, i);
      if Paths.IsPdf(entries[i]) {
        files := ProcessPdfFile(entries[i], scripts[i], files);
      }
    }
    assert entries[..|entries|] == entries && outcomes[..|outcomes|] == outcomes;
    r := Ok(files);
  }

  /** A `.pdf` entry whose job ran to a written text has that text in
      `f"{filename}.txt"` (directory entries are distinct names). */
  lemma ScanWritesSucceeded(entries: seq<string>, outcomes: seq<Textract.JobOutcome>,
                            outDir: map<string, string>, i: nat)
    requires |outcomes| == |entries| && i < |entries|
    requires forall j :: i < j < |entries| ==> entries[j] != entries[i]
    requires Paths.IsPdf(entries[i]) && outcomes[i].Written?
    ensures OutputName(entries[i]) in FileWrites.Apply(outDir, ScanWrites(entries, outcomes))
    ensures FileWrites.Apply(outDir, ScanWrites(entries, outcomes))[OutputName(entries[i])] == outcomes[i].text
  {
    var ws := ScanWrites(entries, outcomes);
    forall j | i < j < |ws| && ws[j].Some? ensures ws[j].value.0 != ws[i].value.0 {
      OutputNameInjective(entries[j], entries[i]);
    }
    FileWrites.LastWriteWins(outDir, ws, i);
  }

  /** Every new or changed file is the output of a `.pdf` entry whose job reached the
      write, and holds what that write left: the text, or a prefix of it. */
  lemma ScanOnlyWritten(entries: seq<string>, outcomes: seq<Textract.JobOutcome>,
                        outDir: map<string, string>, name: string)
    requires |outcomes| == |entries|
    requires name in FileWrites.Apply(outDir, ScanWrites(entries, outcomes))
    requires name !in outDir || FileWrites.Apply(outDir, ScanWrites(entries, outcomes))[name] != outDir[name]
    ensures exists j :: 0 <= j < |entries| && Paths.IsPdf(entries[j]) && name == OutputName(entries[j])
              && outcomes[j].FileContents() == Some(FileWrites.Apply(outDir, ScanWrites(entries, outcomes))[name])
  {
    FileWrites.OnlyWritten(outDir, ScanWrites(entries, outcomes), name);
  }

  /** The output of an entry that is not a PDF, or whose job failed or raised before
      the file was opened, is left as it was (no other entry has the same name). */
  lemma ScanKeepsUnwritten(entries: seq<string>, outcomes: seq<Textract.JobOutcome>,
                           outDir: map<string, string>, i: nat)
    requires |outcomes| == |entries| && i < |entries|
    requires forall j :: 0 <= j < |entries| && j != i ==> entries[j] != entries[i]
    requires !Paths.IsPdf(entries[i]) || outcomes[i].FileContents().None?
    ensures OutputName(entries[i]) in FileWrites.Apply(outDir, ScanWrites(entries, outcomes))
        <==> OutputName(entries[i]) in outDir
    ensures OutputName(entries[i]) in outDir ==>
      FileWrites.Apply(outDir, ScanWrites(entries, outcomes))[OutputName(entries[i])] == outDir[OutputName(entries[i])]
  {
    var ws := ScanWrites(entries, outcomes);
    forall j | 0 <= j < |ws| && ws[j].Some? ensures ws[j].value.0 != OutputName(entries[i]) {
      OutputNameInjective(entries[j], entries[i]);
    }
    FileWrites.Untouched(outDir, ws, OutputName(entries[i]));
  }
}
