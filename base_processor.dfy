/** src/baseProcessor.py: `baseProcessor`, the session that asks for a summary of the
    uploaded report with no retrieval. The prompt is made from the report alone.
    PyMuPDF's page extraction and the chat service are inputs. */
module BaseProcessing {
  import opened Outcomes
  import Seqs
  import Utf8
  import PageText
  import Documents
  import PromptFormat
  import opened ProcessorCommon

  /** `PROMPT_TEMPLATE`: the instructions, then the report between quotes. */
  const BaseIntro: string :=
    "Reading the pathology report and summarizing your key findings from it. If the information provided is insufficient, respond with \"I need more details to answer this question accurately\".\n"
    + "From the following text, produce a concise bullet-point summary that covers:\n"
    + "\U{2022} Patient information and clinical background\n"
    + "\U{2022} What specimen was examined\n"
    + "\U{2022} Main diagnostic findings\n"
    + "\U{2022} Tumor measurements and grade\n"
    + "\U{2022} Overall stage and lymph node evaluation\n\n\n\""
  const BaseOutro: string := "\n\n\"\nSummary:\n\n"

  const BaseTemplate: PromptFormat.Template :=
    [PromptFormat.Lit(BaseIntro), PromptFormat.Field("report"), PromptFormat.Lit(BaseOutro)]

  /** `PROMPT_TEMPLATE.format(report=...)`: the report between the two literal runs; the
      template names no other field. */
  function BasePrompt(report: string): (r: string)
    ensures PromptFormat.Fields(BaseTemplate) == {"report"}
    ensures PromptFormat.Format(BaseTemplate, map["report" := report]) == Ok(r)
    ensures r == BaseIntro + (report + BaseOutro)
  {
    var args := map["report" := report];
    var t2: PromptFormat.Template := [PromptFormat.Lit(BaseOutro)];
    var t1 := [PromptFormat.Field("report")] + t2;
    var t0 := [PromptFormat.Lit(BaseIntro)] + t1;
    assert t0 == BaseTemplate;
    PromptFormat.FormatCons(PromptFormat.Lit(BaseOutro), [], args);
    assert BaseOutro + [] == BaseOutro;
    assert t2 == [PromptFormat.Lit(BaseOutro)] + [];
    PromptFormat.FormatCons(PromptFormat.Field("report"), t2, args);
    PromptFormat.FormatCons(PromptFormat.Lit(BaseIntro), t1, args);
    PromptFormat.Format(t0, args).value
  }

  /** Different reports give different prompts: the report can be read back from it. */
  lemma BasePromptInjective(a: string, b: string)
    requires BasePrompt(a) == BasePrompt(b)
    ensures a == b
  {
    var n := |BaseIntro|;
    assert BasePrompt(a)[n..|BasePrompt(a)| - |BaseOutro|] == a;
    assert BasePrompt(b)[n..|BasePrompt(b)| - |BaseOutro|] == b;
  }

  class BaseProcessor {
    var currentReportText: string

    constructor ()
      ensures currentReportText == ""
    {
      currentReportText := "";
    }

    /** `baseProcessor()`: raises ValueError when OPENAI_API_KEY is unset or empty. */
    static method Create(apiKey: Option<string>) returns (r: Outcome<BaseProcessor>)
      ensures r.Ok? <==> ApiKeyPresent(apiKey)
      ensures r.Raised? ==> r.exception == ValueError
      ensures r.Ok? ==> fresh(r.value) && r.value.currentReportText == ""
    {
      var p := new BaseProcessor();
      if !ApiKeyPresent(apiKey) {
        return Raised(ValueError);
      }
      r := Ok(p);
    }

    /** `upload_report(report_file)`: `pymupdf.open`, or a page's `get_text()` inside the
        join, may raise, and the exception escapes with the session unchanged; otherwise
        the stored text replaces the previous one and is the pages joined with "\f"
        (the UTF-8 round trip changes nothing). */
    method UploadReport(doc: Documents.Document) returns (r: Outcome<string>)
      modifies this
      ensures Documents.Failure(doc).Some? ==>
        r == Raised(Documents.Failure(doc).value) && currentReportText == old(currentReportText)
      ensures Documents.Failure(doc).None? ==>
        var pages := Documents.Extracted(doc.value);
        && Utf8.Decode(PageText.SeparatedBytes(pages)) == Some(currentReportText)
        && currentReportText == Seqs.Join(pages, [Utf8.FormFeed])
        && r == Ok(UploadedMessage)
    {
      var failure := Documents.Failure(doc);
      if failure.Some? {
        return Raised(failure.value);
      }
      var pages := Documents.Extracted(doc.value);
      var textContent := PageText.SeparatedBytes(pages);
      var decoded := Utf8.Decode(textContent);
      assert decoded == Some(PageText.ReportText(pages));
      currentReportText := decoded.value;
      r := Ok(UploadedMessage);
    }

    /** `ask_question(user_prompt)` against one chat reply; the session is not changed.
        Also returns the prompt sent, if any. The question only reaches the evaluation
        step, so neither the prompt nor the answer depends on it. */
    method AskQuestion(userPrompt: string, llm: Completion) returns (answer: string, prompt: Option<string>)
      ensures currentReportText == "" ==> answer == UploadFirstMessage && prompt == None
      ensures currentReportText != "" ==> prompt == Some(BasePrompt(currentReportText)) && answer == QueryLlm(llm)
    {
      if currentReportText == "" {
        return UploadFirstMessage, None;
      }
      var text := BasePrompt(currentReportText);
      prompt := Some(text);
      answer := QueryLlm(llm);
    }
  }
}
