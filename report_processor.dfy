/** src/main.py: `ReportProcessor`, the question-answering session in which only the
    retrieved texts and the question reach the prompt. It keeps the uploaded report
    text and uses it only to refuse questions before an upload. PyMuPDF's page
    extraction, the search and the chat service are inputs. */
module ReportProcessing {
  import opened Outcomes
  import Seqs
  import Utf8
  import PageText
  import Documents
  import Search
  import PromptFormat
  import opened ProcessorCommon

  /** `PROMPT_TEMPLATE`, as literal runs and fields. */
  const MainIntro: string :=
    "The user has uploaded a pathology report. The following is context retrieved from a database:\n\n"
  const MainBeforeQuery: string := "\n\nBased on this information, please answer the following question:\n"
  const MainOutro: string :=
    "\n\nIf the information provided is insufficient, respond with \"I need more details to answer this question accurately.\n"

  const MainTemplate: PromptFormat.Template := [
    PromptFormat.Lit(MainIntro), PromptFormat.Field("relevant_texts"),
    PromptFormat.Lit(MainBeforeQuery), PromptFormat.Field("query"),
    PromptFormat.Lit(MainOutro)]

  /** `PROMPT_TEMPLATE.format(relevant_texts=..., query=...)`: the retrieved texts, then
      the question, between the literal runs; the template names exactly these two
      fields. */
  function MainPrompt(relevantTexts: string, query: string): (r: string)
    ensures PromptFormat.Fields(MainTemplate) == {"relevant_texts", "query"}
    ensures PromptFormat.Format(MainTemplate, map["relevant_texts" := relevantTexts, "query" := query]) == Ok(r)
    ensures r == MainIntro + (relevantTexts + (MainBeforeQuery + (query + MainOutro)))
  {
    var args := map["relevant_texts" := relevantTexts, "query" := query];
    var t4: PromptFormat.Template := [PromptFormat.Lit(MainOutro)];
    var t3 := [PromptFormat.Field("query")] + t4;
    var t2 := [PromptFormat.Lit(MainBeforeQuery)] + t3;
    var t1 := [PromptFormat.Field("relevant_texts")] + t2;
    var t0 := [PromptFormat.Lit(MainIntro)] + t1;
    assert t0 == MainTemplate;
    PromptFormat.FormatCons(PromptFormat.Lit(MainOutro), [], args);
    assert MainOutro + [] == MainOutro;
    assert t4 == [PromptFormat.Lit(MainOutro)] + [];
    PromptFormat.FormatCons(PromptFormat.Field("query"), t4, args);
    PromptFormat.FormatCons(PromptFormat.Lit(MainBeforeQuery), t3, args);
    PromptFormat.FormatCons(PromptFormat.Field("relevant_texts"), t2, args);
    PromptFormat.FormatCons(PromptFormat.Lit(MainIntro), t1, args);
    PromptFormat.Format(t0, args).value
  }

  /** Passing the report to this template as well would change nothing: it has no
      `{report}` field. */
  lemma ReportNotInPrompt(relevantTexts: string, query: string, report: string)
    ensures PromptFormat.Format(MainTemplate, map["relevant_texts" := relevantTexts, "query" := query, "report" := report])
         == Ok(MainPrompt(relevantTexts, query))
  {
    var args := map["relevant_texts" := relevantTexts, "query" := query];
    var p := MainPrompt(relevantTexts, query);
    assert |"report"| != |"query"| && |"report"| != |"relevant_texts"|;
    PromptFormat.FormatIgnoresOtherArgs(MainTemplate, args["report" := report], args);
  }

  class ReportProcessor {
    /** The number of top results to retrieve. */
    const k: nat
    var currentReportText: string

    constructor ()
      ensures k == 2 && currentReportText == ""
    {
      k := 2;
      currentReportText := "";
    }

    /** `upload_report(report_file)`: `pymupdf.open`, or a page's `get_text()` inside the
        join, may raise, and the exception escapes with the session unchanged; otherwise
        the stored text replaces the previous one and is the pages joined with "\f"
        (the UTF-8 round trip changes nothing). */
    method UploadReport(doc: Documents.Document) returns (r: Outcome<string>)
      modifies this
      ensures Documents.Failure(doc).Some? ==>
        r == Raised(Documents.Failure(doc).value) && currentReportText == old(currentReportText)
      ensures Documents.Failure(doc).None? ==>
        var pages := Documents.Extracted(doc.value);
        && Utf8.Decode(PageText.SeparatedBytes(pages)) == Some(currentReportText)
        && currentReportText == Seqs.Join(pages, [Utf8.FormFeed])
        && r == Ok(UploadedMessage)
    {
      var failure := Documents.Failure(doc);
      if failure.Some? {
        return Raised(failure.value);
      }
      var pages := Documents.Extracted(doc.value);
      var textContent := PageText.SeparatedBytes(pages);
      var decoded := Utf8.Decode(textContent);
      assert decoded == Some(PageText.ReportText(pages));
      currentReportText := decoded.value;
      r := Ok(UploadedMessage);
    }

    /** `ask_question(query)` against one search reply and one chat reply; the session
        is not changed. Also returns the prompt sent to the chat service, if any. A
        result without a "text" column takes the KeyError branch. */
    method AskQuestion(query: string, search: Search.SearchReply, llm: Completion)
      returns (answer: string, prompt: Option<string>)
      ensures currentReportText == "" ==> answer == UploadFirstMessage && prompt == None
      ensures currentReportText != "" && search.SearchRaised? ==> answer == DatabaseErrorMessage && prompt == None
      ensures currentReportText != "" && search.Hits? && search.textColumn.None? ==>
        answer == NoContextMessage && prompt == None
      ensures currentReportText != "" && Search.HasTexts(search) ==>
        && prompt == Some(MainPrompt(Search.RelevantTexts(Search.Limit(search.textColumn.value, k)), query))
        && answer == QueryLlm(llm)
    {
      if currentReportText == "" {
        return UploadFirstMessage, None;
      }
      if search.SearchRaised? {
        return DatabaseErrorMessage, None;
      }
      var searchResult := search.textColumn;
      if searchResult.None? {
        return NoContextMessage, None;
      }
      var relevantTexts := Search.RelevantTexts(Search.Limit(searchResult.value, k));
      var text := MainPrompt(relevantTexts, query);
      prompt := Some(text);
      answer := QueryLlm(llm);
    }
  }
}
