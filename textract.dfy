/** The Textract helpers that `ocr.py` and `src/scripts/ocr_aws.py` define identically:
    flattening detected blocks to text, polling a job until a terminal status, and
    collecting the paginated results. The Textract service is a scripted stream of
    replies to `get_document_text_detection`, consumed first by the polling loop and
    then by the pagination loop, exactly as the real calls are made one after another. */
module Textract {
  import opened Outcomes
  import Seqs

  const Succeeded := "SUCCEEDED"
  const Failed := "FAILED"
  const PartialSuccess := "PARTIAL_SUCCESS"
  const LineType := "LINE"
  const Newline := '\n'

  /** A detected block: its `BlockType` (LINE, WORD, PAGE, ...) and its `Text`. */
  datatype Block = Block(blockType: string, text: string)

  /** One reply of `get_document_text_detection`: `JobStatus`, `Blocks` and `NextToken`
      (absent is `None`); or a call that raised. */
  datatype Reply = Reply(jobStatus: string, blocks: seq<Block>, nextToken: Option<string>) | Raises

  /** The keyword arguments of one `get_document_text_detection` call. */
  datatype Request = Request(jobId: string, nextToken: Option<string>)

  // ---------------------------------------------------------------- extract_text_from_blocks

  /** `[block["Text"] for block in blocks if block["BlockType"] == "LINE"]`. */
  function LineTexts(blocks: seq<Block>): seq<string>
  {
    if |blocks| == 0 then []
    else (if blocks[0].blockType == LineType then [blocks[0].text] else []) + LineTexts(blocks[1..])
  }

  /** `extract_text_from_blocks`: the LINE texts joined with "\n". */
  function ExtractText(blocks: seq<Block>): string
  {
    Seqs.Join(LineTexts(blocks), [Newline])
  }

  /** The filter works block by block: the LINE texts of a concatenation are the
      concatenation of the LINE texts. */
  lemma {:induction false} LineTextsAppend(a: seq<Block>, b: seq<Block>)
    ensures LineTexts(a + b) == LineTexts(a) + LineTexts(b)
  {
    if |a| == 0 {
      assert a + b == b;
    } else {
      assert (a + b)[0] == a[0];
      assert (a + b)[1..] == a[1..] + b;
      LineTextsAppend(a[1..], b);
      var head := if a[0].blockType == LineType then [a[0].text] else [];
      assert LineTexts(a + b) == head + LineTexts(a[1..] + b);
      assert LineTexts(a) == head + LineTexts(a[1..]);
    }
  }

  /** A block that is not a LINE contributes nothing, wherever it stands. */
  lemma NonLineIgnored(a: seq<Block>, x: Block, b: seq<Block>)
    requires x.blockType != LineType
    ensures ExtractText(a + [x] + b) == ExtractText(a + b)
  {
    LineTextsAppend(a + [x], b);
    LineTextsAppend(a, [x]);
    LineTextsAppend(a, b);
    assert LineTexts([x]) == [] + LineTexts([x][1..]);
    assert LineTexts(a + [x]) == LineTexts(a);
  }

  /** The LINE texts are exactly the texts of the LINE blocks, in their order: with
      only LINE blocks every text is kept, with none the result is the empty string. */
  lemma {:induction false} OnlyLines(blocks: seq<Block>)
    requires forall i :: 0 <= i < |blocks| ==> blocks[i].blockType == LineType
    ensures |LineTexts(blocks)| == |blocks|
    ensures forall i :: 0 <= i < |blocks| ==> LineTexts(blocks)[i] == blocks[i].text
  {
    if |blocks| > 0 {
      OnlyLines(blocks[1..]);
    }
  }

  lemma {:induction false} NoLines(blocks: seq<Block>)
    requires forall i :: 0 <= i < |blocks| ==> blocks[i].blockType != LineType
    ensures LineTexts(blocks) == [] && ExtractText(blocks) == ""
  {
    if |blocks| > 0 {
      NoLines(blocks[1..]);
    }
  }

  /** When no line text holds a newline, the written text splits back into the lines. */
  lemma ExtractTextSplits(blocks: seq<Block>)
    requires |LineTexts(blocks)| > 0 && Seqs.FreeOf(LineTexts(blocks), Newline)
    ensures Seqs.Split(ExtractText(blocks), Newline) == LineTexts(blocks)
  {
    Seqs.SplitJoin(LineTexts(blocks), Newline);
  }

  // ---------------------------------------------------------------- is_job_complete

  /** Polling stops at a SUCCEEDED or FAILED status, or when the call raises. Every
      other status is polled again: IN_PROGRESS, and also PARTIAL_SUCCESS, although
      Textract ends a job in that status for good (see `PartialSuccessPollsForever`). */
  predicate StopsPolling(r: Reply)
  {
    r.Raises? || r.jobStatus == Succeeded || r.jobStatus == Failed
  }

  /** The script eventually answers the polling loop. */
  ghost predicate PollEnds(rs: seq<Reply>)
  {
    exists i :: 0 <= i < |rs| && StopsPolling(rs[i])
  }

  /** The number of replies the polling loop consumes: up to the first that stops it. */
  function PollCount(rs: seq<Reply>): (n: nat)
    requires PollEnds(rs)
    ensures 1 <= n <= |rs| && StopsPolling(rs[n - 1])
    ensures forall i :: 0 <= i < n - 1 ==> !StopsPolling(rs[i])
  {
    if StopsPolling(rs[0]) then 1
    else
      assert PollEnds(rs[1..]) by {
        var i :| 0 <= i < |rs| && StopsPolling(rs[i]);
        assert rs[1..][i - 1] == rs[i];
      }
      1 + PollCount(rs[1..])
  }

  /** What `is_job_complete` returns: whether the first terminal status is SUCCEEDED;
      a raising call propagates. */
  function PollResult(rs: seq<Reply>): Outcome<bool>
    requires PollEnds(rs)
  {
    var last := rs[PollCount(rs) - 1];
    if last.Raises? then Raised(ServiceError) else Ok(last.jobStatus == Succeeded)
  }

  /** `is_job_complete(textract, job_id)`: polls until a terminal status. Returns the
      result and the number of replies it consumed. */
  method IsJobComplete(jobId: string, rs: seq<Reply>) returns (r: Outcome<bool>, consumed: nat)
    requires PollEnds(rs)
    ensures consumed == PollCount(rs)
    ensures r == PollResult(rs)
  {
    var i := 0;
    while true
      invariant 0 <= i < PollCount(rs)
      decreases PollCount(rs) - i
    {
      var response := rs[i];   // get_document_text_detection(JobId=job_id)
      if response.Raises? {
        return Raised(ServiceError), i + 1;
      }
      var status := response.jobStatus;
      if status == Succeeded || status == Failed {
        return Ok(status == Succeeded), i + 1;
      }
      i := i + 1;
    }
  }

  /** A status other than SUCCEEDED or FAILED (PARTIAL_SUCCESS included) keeps polling:
      the result is that of the remaining replies. */
  lemma KeepsPolling(rs: seq<Reply>)
    requires PollEnds(rs) && !StopsPolling(rs[0])
    ensures PollEnds(rs[1..])
    ensures PollCount(rs) == 1 + PollCount(rs[1..])
    ensures PollResult(rs) == PollResult(rs[1..])
  {
    assert rs[1..][PollCount(rs) - 2] == rs[PollCount(rs) - 1];
  }

  /** The result is true exactly when the first reply that stops the loop has status
      SUCCEEDED; a first terminal FAILED gives false. */
  lemma PollResultIff(rs: seq<Reply>)
    requires PollEnds(rs)
    ensures PollResult(rs) == Ok(true) <==>
      exists n :: 0 <= n < |rs| && rs[n].Reply? && rs[n].jobStatus == Succeeded
        && forall i :: 0 <= i < n ==> !StopsPolling(rs[i])
    ensures PollResult(rs) == Ok(false) <==>
      exists n :: 0 <= n < |rs| && rs[n].Reply? && rs[n].jobStatus == Failed
        && forall i :: 0 <= i < n ==> !StopsPolling(rs[i])
  {
    var c := PollCount(rs) - 1;
    forall n | 0 <= n < |rs| && StopsPolling(rs[n]) && (forall i :: 0 <= i < n ==> !StopsPolling(rs[i]))
      ensures n == c
    {
    }
  }

  // ---------------------------------------------------------------- PARTIAL_SUCCESS
  // Textract ends every job in one of three final statuses, SUCCEEDED, FAILED or
  // PARTIAL_SUCCESS, and reports that status on every later poll. The membership test
  // of `is_job_complete` knows only the first two.

  /** The replies to polling a job that ended in PARTIAL_SUCCESS. */
  function PartialSuccessReplies(n: nat): (rs: seq<Reply>)
    ensures |rs| == n
    ensures forall i :: 0 <= i < n ==> rs[i] == Reply(PartialSuccess, [], None)
  {
    seq(n, i => Reply(PartialSuccess, [], None))
  }

  /** As written, such a job is polled forever: however many replies the service gives,
      none of them stops the loop. */
  lemma PartialSuccessPollsForever(n: nat)
    ensures !PollEnds(PartialSuccessReplies(n))
  {
    var rs := PartialSuccessReplies(n);
    forall i | 0 <= i < n ensures !StopsPolling(rs[i]) {
      assert rs[i].jobStatus == PartialSuccess;
    }
  }

  /** The replies that should stop the polling loop: a raising call or a final status. */
  predicate StopsPollingFinal(r: Reply)
  {
    r.Raises? || r.jobStatus == Succeeded || r.jobStatus == Failed || r.jobStatus == PartialSuccess
  }

  /** `is_job_complete` as evidently intended: polling stops at the first raising call
      or final status, and the result is True only for SUCCEEDED. Also gives the number
      of replies consumed. */
  function PollFinal(rs: seq<Reply>): (r: (Outcome<bool>, nat))
    requires exists i :: 0 <= i < |rs| && StopsPollingFinal(rs[i])
    ensures 1 <= r.1 <= |rs| && StopsPollingFinal(rs[r.1 - 1])
    ensures forall i :: 0 <= i < r.1 - 1 ==> !StopsPollingFinal(rs[i])
    ensures r.0 == if rs[r.1 - 1].Raises? then Raised(ServiceError) else Ok(rs[r.1 - 1].jobStatus == Succeeded)
  {
    if StopsPollingFinal(rs[0]) then
      (if rs[0].Raises? then Raised(ServiceError) else Ok(rs[0].jobStatus == Succeeded), 1)
    else
      assert exists i :: 0 <= i < |rs[1..]| && StopsPollingFinal(rs[1..][i]) by {
        var i :| 0 <= i < |rs| && StopsPollingFinal(rs[i]);
        assert rs[1..][i - 1] == rs[i];
      }
      var r := PollFinal(rs[1..]);
      (r.0, r.1 + 1)
  }

  /** Corrected, a PARTIAL_SUCCESS job ends polling at once, as not succeeded. */
  lemma PartialSuccessStops(n: nat)
    requires n >= 1
    ensures StopsPollingFinal(PartialSuccessReplies(n)[0])
    ensures PollFinal(PartialSuccessReplies(n)) == (Ok(false), 1)
  {
  }

  /** The correction changes nothing for a job that does not report PARTIAL_SUCCESS
      before polling stops: the result and the replies consumed are the same. */
  lemma {:induction false} PollFinalAgrees(rs: seq<Reply>)
    requires PollEnds(rs)
    requires forall i :: 0 <= i < PollCount(rs) ==> rs[i].Raises? || rs[i].jobStatus != PartialSuccess
    ensures exists i :: 0 <= i < |rs| && StopsPollingFinal(rs[i])
    ensures PollFinal(rs) == (PollResult(rs), PollCount(rs))
  {
    var c := PollCount(rs);
    assert StopsPollingFinal(rs[c - 1]);
    if !StopsPolling(rs[0]) {
      assert !StopsPollingFinal(rs[0]);
      KeepsPolling(rs);
      var rest := rs[1..];
      forall i | 0 <= i < PollCount(rest) ensures rest[i].Raises? || rest[i].jobStatus != PartialSuccess {
        assert rest[i] == rs[i + 1];
      }
      PollFinalAgrees(rest);
      assert PollFinal(rs) == (PollFinal(rest).0, PollFinal(rest).1 + 1);
    }
  }

  // ---------------------------------------------------------------- get_job_results

  /** The pagination loop stops after a reply whose `NextToken` is absent or empty
      (`if not next_token: break`), or at a call that raises. */
  predicate IsLastPage(r: Reply)
  {
    r.Raises? || r.nextToken == None || r.nextToken == Some("")
  }

  ghost predicate PagesEnd(rs: seq<Reply>)
  {
    exists i :: 0 <= i < |rs| && IsLastPage(rs[i])
  }

  /** The number of result pages requested. */
  function PageCount(rs: seq<Reply>): (n: nat)
    requires PagesEnd(rs)
    ensures 1 <= n <= |rs| && IsLastPage(rs[n - 1])
    ensures forall i :: 0 <= i < n - 1 ==> !IsLastPage(rs[i])
  {
    if IsLastPage(rs[0]) then 1
    else
      assert PagesEnd(rs[1..]) by {
        var i :| 0 <= i < |rs| && IsLastPage(rs[i]);
        assert rs[1..][i - 1] == rs[i];
      }
      1 + PageCount(rs[1..])
  }

  /** The blocks of the given replies, one page after another. */
  function BlocksOf(rs: seq<Reply>): seq<Block>
  {
    if |rs| == 0 then []
    else BlocksOf(rs[..|rs| - 1]) + (if rs[|rs| - 1].Reply? then rs[|rs| - 1].blocks else [])
  }

  /** What `get_job_results` returns: the blocks of every page up to and including
      the last one; a raising call propagates. */
  function Paginate(rs: seq<Reply>): Outcome<seq<Block>>
    requires PagesEnd(rs)
  {
    var n := PageCount(rs);
    if rs[n - 1].Raises? then Raised(ServiceError) else Ok(BlocksOf(rs[..n]))
  }

  /** `get_job_results(textract, job_id)`. Besides the result it returns the requests it
      made: the first carries no `NextToken`, every later one the token of the reply
      before it, which is never empty. */
  method GetJobResults(jobId: string, rs: seq<Reply>) returns (r: Outcome<seq<Block>>, requests: seq<Request>)
    requires PagesEnd(rs)
    ensures r == Paginate(rs)
    ensures |requests| == PageCount(rs)
    ensures requests[0] == Request(jobId, None)
    ensures forall i :: 0 < i < |requests| ==>
      rs[i - 1].Reply? && rs[i - 1].nextToken.Some? && rs[i - 1].nextToken.value != ""
      && requests[i] == Request(jobId, rs[i - 1].nextToken)
  {
    var pages: seq<Block> := [];
    var nextToken: Option<string> := None;
    var i := 0;
    requests := [];
    while true
      invariant 0 <= i < PageCount(rs)
      invariant pages == BlocksOf(rs[..i])
      invariant |requests| == i
      invariant i == 0 ==> nextToken == None
      invariant i > 0 ==> rs[i - 1].Reply? && nextToken == rs[i - 1].nextToken
      invariant i > 0 ==> requests[0] == Request(jobId, None)
      invariant forall j :: 0 < j < i ==> requests[j] == Request(jobId, rs[j - 1].nextToken)
      decreases PageCount(rs) - i
    {
      // kwargs = {"JobId": job_id}; if next_token: kwargs["NextToken"] = next_token
      var request := if nextToken.Some? && nextToken.value != "" then Request(jobId, nextToken)
                     else Request(jobId, None);
      requests := requests + [request];
      var response := rs[i];
      if response.Raises? {
        return Raised(ServiceError), requests;
      }
      assert rs[..i + 1][..i] == rs[..i];
      pages := pages + response.blocks;
      nextToken := response.nextToken;
      i := i + 1;
      if nextToken.None? || nextToken.value == "" {
        break;
      }
    }
    r := Ok(pages);
  }

  /** The last reply's blocks are kept: a single final page gives exactly its blocks. */
  lemma SinglePage(rs: seq<Reply>)
    requires |rs| > 0 && rs[0].Reply? && IsLastPage(rs[0])
    ensures PagesEnd(rs) && Paginate(rs) == Ok(rs[0].blocks)
  {
    assert IsLastPage(rs[0]);
    assert PagesEnd(rs);
    assert PageCount(rs) == 1;
    var one := rs[..1];
    assert one[0] == rs[0] && one[..0] == [];
    assert BlocksOf(one) == BlocksOf(one[..0]) + rs[0].blocks;
    assert BlocksOf(one) == rs[0].blocks;
    assert Paginate(rs) == Ok(BlocksOf(one));
  }

  /** A page with a continuation token contributes its blocks ahead of the rest. */
  lemma NextPage(rs: seq<Reply>)
    requires PagesEnd(rs) && !IsLastPage(rs[0])
    ensures PagesEnd(rs[1..])
    ensures Paginate(rs).Ok? <==> Paginate(rs[1..]).Ok?
    ensures Paginate(rs).Ok? ==> Paginate(rs).value == rs[0].blocks + Paginate(rs[1..]).value
  {
    var n := PageCount(rs);
    assert rs[1..][n - 2] == rs[n - 1];
    BlocksOfCons(rs[..n]);
    assert rs[..n][1..] == rs[1..][..n - 1];
  }

  lemma {:induction false} BlocksOfCons(rs: seq<Reply>)
    requires |rs| > 0 && rs[0].Reply?
    ensures BlocksOf(rs) == rs[0].blocks + BlocksOf(rs[1..])
  {
    if |rs| > 1 {
      var init := rs[..|rs| - 1];
      BlocksOfCons(init);
      assert init[1..] == rs[1..][..|rs[1..]| - 1];
    } else {
      assert rs[..0] == [];
    }
  }

  // ---------------------------------------------------------------- one document

  /** How creating the output directory and `write_text` ended: the whole text was
      written; `mkdir` or opening the file raised, so the file is untouched; or writing
      raised after opening with mode "w" had truncated the file, once the first `kept`
      characters of the text had reached it. */
  datatype WriteResult = Complete | NotOpened | Truncated(kept: nat)

  /** The outside world for one document: whether the S3 upload succeeded, the reply of
      `start_document_text_detection` (a job id, or raising), the replies to
      `get_document_text_detection`, and how writing the text file ended. */
  datatype Script = Script(uploadOk: bool, start: Outcome<string>, replies: seq<Reply>, write: WriteResult)

  /** The script answers every loop the document's processing enters. */
  ghost predicate Completes(s: Script)
  {
    s.start.Ok? ==>
      PollEnds(s.replies)
      && (PollResult(s.replies) == Ok(true) ==> PagesEnd(s.replies[PollCount(s.replies)..]))
  }

  /** How processing one document ends: the text was written; the job FAILED (an error
      is logged, nothing is written); an exception was caught and logged before the text
      file was opened; or writing raised after the file was truncated, leaving `partial`
      in it, and that exception was caught and logged. */
  datatype JobOutcome = Written(text: string) | JobFailed | Errored | WriteAborted(partial: string)
  {
    /** What the job leaves in its text file, if it touched it. */
    function FileContents(): Option<string>
    {
      match this
      case Written(text) => Some(text)
      case WriteAborted(partial) => Some(partial)
      case _ => None
    }
  }

  /** The first `kept` characters of the text, or all of it. */
  function Kept(text: string, kept: nat): (p: string)
    ensures p <= text
    ensures |p| == if kept < |text| then kept else |text|
  {
    text[..if kept < |text| then kept else |text|]
  }

  /** The shared body of both `process_pdf_file`s: upload (its failure is logged and
      swallowed), start the job, poll, fetch the pages, flatten and write. */
  function RunJob(s: Script): JobOutcome
    requires Completes(s)
  {
    if s.start.Raised? then Errored
    else
      match PollResult(s.replies)
      case Raised(_) => Errored
      case Ok(false) => JobFailed
      case Ok(true) =>
        match Paginate(s.replies[PollCount(s.replies)..])
        case Raised(_) => Errored
        case Ok(blocks) =>
          match s.write
          case Complete => Written(ExtractText(blocks))
          case NotOpened => Errored
          case Truncated(kept) => WriteAborted(Kept(ExtractText(blocks), kept))
  }

  /** Every document's script answers the loops its processing enters. */
  ghost predicate AllComplete(scripts: seq<Script>)
  {
    forall i :: 0 <= i < |scripts| ==> Completes(scripts[i])
  }

  /** How the processing of each document of a directory ends, in listing order. */
  function JobOutcomes(scripts: seq<Script>): (os: seq<JobOutcome>)
    requires AllComplete(scripts)
    ensures |os| == |scripts|
    ensures forall i :: 0 <= i < |scripts| ==> os[i] == RunJob(scripts[i])
  {
    if |scripts| == 0 then [] else JobOutcomes(scripts[..|scripts| - 1]) + [RunJob(scripts[|scripts| - 1])]
  }

  /** Runs the calls of one document in order against the script. */
  method ProcessJob(s: Script) returns (o: JobOutcome)
    requires Completes(s)
    ensures o == RunJob(s)
  {
    // upload_to_s3 catches its own exception, so s.uploadOk never stops processing.
    if s.start.Raised? {
      return Errored;
    }
    var jobId := s.start.value;
    var complete, consumed := IsJobComplete(jobId, s.replies);
    if complete.Raised? {
      return Errored;
    }
    if !complete.value {
      return JobFailed;
    }
    var blocks, _ := GetJobResults(jobId, s.replies[consumed..]);
    if blocks.Raised? {
      return Errored;
    }
    var text := ExtractText(blocks.value);
    match s.write
    case Complete => o := Written(text);
    case NotOpened => o := Errored;
    case Truncated(kept) => o := WriteAborted(Kept(text, kept));
  }

  /** A failed upload changes nothing: the job is still started and processed. */
  lemma UploadFailureSwallowed(s: Script)
    requires Completes(s)
    ensures Completes(s.(uploadOk := false)) && RunJob(s.(uploadOk := false)) == RunJob(s)
  {
  }

  /** Text is written only when the job reported SUCCEEDED, every page was fetched and
      the write succeeded; it is then the LINE text of all pages' blocks. */
  lemma WrittenOnlyOnSuccess(s: Script)
    requires Completes(s)
    ensures RunJob(s).Written? <==>
      && s.start.Ok? && PollResult(s.replies) == Ok(true)
      && Paginate(s.replies[PollCount(s.replies)..]).Ok? && s.write == Complete
    ensures RunJob(s).Written? ==>
      RunJob(s).text == ExtractText(Paginate(s.replies[PollCount(s.replies)..]).value)
    ensures s.start.Ok? && PollResult(s.replies) == Ok(false) ==> RunJob(s) == JobFailed
  {
  }

  /** The text file is touched only on the path that reaches the write: then it holds
      the text, or, when writing raised after the file was truncated, a prefix of it. */
  lemma FileTouchedOnlyByWrite(s: Script)
    requires Completes(s)
    ensures RunJob(s).FileContents().Some? <==>
      && s.start.Ok? && PollResult(s.replies) == Ok(true)
      && Paginate(s.replies[PollCount(s.replies)..]).Ok? && !s.write.NotOpened?
    ensures RunJob(s).WriteAborted? <==> RunJob(s).FileContents().Some? && s.write.Truncated?
    ensures RunJob(s).FileContents().Some? ==>
      RunJob(s).FileContents().value <= ExtractText(Paginate(s.replies[PollCount(s.replies)..]).value)
  {
  }
}
