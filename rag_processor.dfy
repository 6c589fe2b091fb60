/** src/ragProcessor.py: the question-answering session over an uploaded pathology
    report. The session keeps the report text and the texts of the last successful
    search; each question searches the guideline table with the question, puts the
    report, the retrieved texts and the question into one prompt and returns the
    normalised chat reply. PyMuPDF's page extraction, the search and the chat service
    are inputs. */
module RagProcessing {
  import opened Outcomes
  import Seqs
  import Utf8
  import PageText
  import Documents
  import Search
  import PromptFormat
  import opened ProcessorCommon

  /** `PROMPT_TEMPLATE`, as literal runs and fields. */
  const RagIntro: string := "The user has uploaded this pathology report:\n\n"
  const RagBeforeTexts: string := "\n\nBelow is context retrieved from the NCCN guideline database:\n\n"
  const RagBeforeQuery: string :=
    "\n\nBased on **both** the report _and_ the guideline context, please answer the question:\n\n"
  const RagOutro: string :=
    "\n\nIf the information provided is insufficient, respond with \"I need more details to answer this question accurately.\n"

  const RagTemplate: PromptFormat.Template :=
    [PromptFormat.Lit(RagIntro), PromptFormat.Field("report")]
    + ([PromptFormat.Lit(RagBeforeTexts), PromptFormat.Field("relevant_texts")]
    + ([PromptFormat.Lit(RagBeforeQuery), PromptFormat.Field("query")]
    + [PromptFormat.Lit(RagOutro)]))

  /** The template names exactly the three fields `report`, `relevant_texts` and `query`. */
  lemma RagTemplateFields()
    ensures PromptFormat.Fields(RagTemplate) == {"report", "relevant_texts", "query"}
  {
    var args := map["report" := "", "relevant_texts" := "", "query" := ""];
    var t3: PromptFormat.Template := [PromptFormat.Lit(RagOutro)];
    var t2 := [PromptFormat.Lit(RagBeforeQuery), PromptFormat.Field("query")] + t3;
    var t1 := [PromptFormat.Lit(RagBeforeTexts), PromptFormat.Field("relevant_texts")] + t2;
    PromptFormat.FormatLit(RagOutro, args);
    PromptFormat.FormatLitField(RagBeforeQuery, "query", t3, args);
    PromptFormat.FormatLitField(RagBeforeTexts, "relevant_texts", t2, args);
    PromptFormat.FormatLitField(RagIntro, "report", t1, args);
  }

  /** `PROMPT_TEMPLATE.format(report=..., relevant_texts=..., query=...)`: the three
      values in that order between the template's literal runs. */
  function RagPrompt(report: string, relevantTexts: string, query: string): (r: string)
    ensures PromptFormat.Format(RagTemplate, map["report" := report, "relevant_texts" := relevantTexts, "query" := query])
         == Ok(r)
    ensures r == RagIntro + (report + (RagBeforeTexts + (relevantTexts + (RagBeforeQuery + (query + RagOutro)))))
  {
    var args := map["report" := report, "relevant_texts" := relevantTexts, "query" := query];
    var t3: PromptFormat.Template := [PromptFormat.Lit(RagOutro)];
    var t2 := [PromptFormat.Lit(RagBeforeQuery), PromptFormat.Field("query")] + t3;
    var t1 := [PromptFormat.Lit(RagBeforeTexts), PromptFormat.Field("relevant_texts")] + t2;
    var t0 := [PromptFormat.Lit(RagIntro), PromptFormat.Field("report")] + t1;
    assert t0 == RagTemplate;
    PromptFormat.FormatLit(RagOutro, args);
    PromptFormat.FormatLitField(RagBeforeQuery, "query", t3, args);
    PromptFormat.FormatLitField(RagBeforeTexts, "relevant_texts", t2, args);
    PromptFormat.FormatLitField(RagIntro, "report", t1, args);
    PromptFormat.Format(t0, args).value
  }

  /** `current_retrieval_context`: "" until a search succeeds, then the list of the texts
      it retrieved. */
  datatype RetrievalContext = NotRetrieved | Retrieved(texts: seq<string>)

  class RagProcessor {
    /** The number of top results to retrieve. */
    const k: nat
    var currentReportText: string
    var currentRetrievalContext: RetrievalContext

    constructor ()
      ensures k == 10 && currentReportText == "" && currentRetrievalContext == NotRetrieved
    {
      k := 10;
      currentReportText := "";
      currentRetrievalContext := NotRetrieved;
    }

    /** `ragProcessor()`: raises ValueError when OPENAI_API_KEY is unset or empty. */
    static method Create(apiKey: Option<string>) returns (r: Outcome<RagProcessor>)
      ensures r.Ok? <==> ApiKeyPresent(apiKey)
      ensures r.Raised? ==> r.exception == ValueError
      ensures r.Ok? ==>
        && fresh(r.value) && r.value.k == 10
        && r.value.currentReportText == "" && r.value.currentRetrievalContext == NotRetrieved
    {
      var p := new RagProcessor();
      if !ApiKeyPresent(apiKey) {
        return Raised(ValueError);
      }
      r := Ok(p);
    }

    /** `upload_report(report_file)`: `pymupdf.open`, or a page's `get_text()` inside the
        join, may raise, and the exception escapes with the session unchanged; otherwise
        the stored text replaces the previous one and is the pages joined with "\f"
        (the UTF-8 round trip changes nothing). */
    method UploadReport(doc: Documents.Document) returns (r: Outcome<string>)
      modifies this
      ensures Documents.Failure(doc).Some? ==>
        r == Raised(Documents.Failure(doc).value) && currentReportText == old(currentReportText)
      ensures Documents.Failure(doc).None? ==>
        var pages := Documents.Extracted(doc.value);
        && Utf8.Decode(PageText.SeparatedBytes(pages)) == Some(currentReportText)
        && currentReportText == Seqs.Join(pages, [Utf8.FormFeed])
        && r == Ok(UploadedMessage)
      ensures currentRetrievalContext == old(currentRetrievalContext)
    {
      var failure := Documents.Failure(doc);
      if failure.Some? {
        return Raised(failure.value);
      }
      var pages := Documents.Extracted(doc.value);
      var textContent := PageText.SeparatedBytes(pages);
      var decoded := Utf8.Decode(textContent);
      assert decoded == Some(PageText.ReportText(pages));
      currentReportText := decoded.value;
      r := Ok(UploadedMessage);
    }

    /** `ask_question(user_prompt)` against one search reply and one chat reply. Also
        returns the prompt sent to the chat service, if one was sent. */
    method AskQuestion(userPrompt: string, search: Search.SearchReply, llm: Completion)
      returns (answer: string, prompt: Option<string>)
      modifies this
      ensures currentReportText == old(currentReportText)
      ensures old(currentReportText) == "" ==>
        answer == UploadFirstMessage && prompt == None && currentRetrievalContext == old(currentRetrievalContext)
      ensures old(currentReportText) != "" && !Search.HasTexts(search) ==>
        answer == DatabaseErrorMessage && prompt == None && currentRetrievalContext == old(currentRetrievalContext)
      ensures old(currentReportText) != "" && Search.HasTexts(search) ==>
        var texts := Search.Limit(search.textColumn.value, k);
        && currentRetrievalContext == Retrieved(texts)
        && prompt == Some(RagPrompt(currentReportText, Search.RelevantTexts(texts), userPrompt))
        && answer == QueryLlm(llm)
    {
      if currentReportText == "" {
        return UploadFirstMessage, None;
      }
      // open_table, search, limit and to_polars, then search_result["text"] for the log
      // line: a missing column raises here, inside the same handler.
      if !Search.HasTexts(search) {
        return DatabaseErrorMessage, None;
      }
      currentRetrievalContext := Retrieved(Search.Limit(search.textColumn.value, k));
      // The handler for KeyError around the join cannot fire: the context is a list of
      // strings at this point.
      var relevantTexts := Search.RelevantTexts(currentRetrievalContext.texts);
      var text := RagPrompt(currentReportText, relevantTexts, userPrompt);
      prompt := Some(text);
      answer := QueryLlm(llm);
    }
  }

  /** The prompt holds the report text, then the joined retrieved texts, then the
      question, each exactly once between the literal runs. */
  lemma PromptParts(report: string, texts: seq<string>, query: string)
    ensures var p := RagPrompt(report, Search.RelevantTexts(texts), query);
      var a := |RagIntro|;
      var b := a + |report| + |RagBeforeTexts|;
      var c := b + |Search.RelevantTexts(texts)| + |RagBeforeQuery|;
      && p[a..a + |report|] == report
      && p[b..b + |Search.RelevantTexts(texts)|] == Search.RelevantTexts(texts)
      && p[c..c + |query|] == query
  {
    var rt := Search.RelevantTexts(texts);
    var p := RagPrompt(report, rt, query);
    Seqs.AlternateParts(RagIntro, report, RagBeforeTexts, rt, RagBeforeQuery, query, RagOutro);
  }
}
