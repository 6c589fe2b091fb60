/** What `ragProcessor` (src/ragProcessor.py), `ReportProcessor` (src/main.py) and
    `baseProcessor` (src/baseProcessor.py) have in common: their fixed replies, the
    API-key check, and the normalisation of a chat completion. The chat service is an
    input: the reply to one `chat.completions.create` call. */
module ProcessorCommon {
  import opened Outcomes
  import Text

  const UploadFirstMessage: string := "Please upload a report first."
  const DatabaseErrorMessage: string := "There was an error retrieving information from the database."
  const NoContextMessage: string := "No relevant context could be found in the database."
  const UploadedMessage: string := "Report uploaded and processed successfully."
  const QueryErrorMessage: string := "There was an error processing your query."

  /** The reply to one chat completion request: the first choice's `message.content`
      (which may be `None`), or a request that raised. */
  datatype Completion = Completion(content: Option<string>) | CompletionRaised

  /** `os.getenv("OPENAI_API_KEY")` passes `if not api_key` exactly when it is set and
      non-empty. */
  predicate ApiKeyPresent(apiKey: Option<string>)
  {
    apiKey.Some? && apiKey.value != ""
  }

  /** `(content or "").strip()`. */
  function ContentText(content: Option<string>): (r: string)
    ensures r != [] ==> !Text.IsSpace(r[0]) && !Text.IsSpace(r[|r| - 1])
    ensures content.None? ==> r == ""
  {
    Text.Strip(if content.Some? then content.value else "")
  }

  /** `query_llm(prompt)`: the stripped content, "" for no content, and the fixed error
      reply when the request raised; it never raises itself. */
  function QueryLlm(c: Completion): (r: string)
    ensures c.CompletionRaised? ==> r == QueryErrorMessage
    ensures c == Completion(None) ==> r == ""
  {
    if c.CompletionRaised? then QueryErrorMessage else ContentText(c.content)
  }

  /** The normalised reply never starts or ends with whitespace, the error reply
      included, and normalising it again changes nothing. */
  lemma QueryLlmTrimmed(c: Completion)
    ensures var r := QueryLlm(c); r != [] ==> !Text.IsSpace(r[0]) && !Text.IsSpace(r[|r| - 1])
    ensures Text.Strip(QueryLlm(c)) == QueryLlm(c)
  {
    var r := QueryLlm(c);
    if c.CompletionRaised? {
      assert r[0] == 'T' && r[|r| - 1] == '.';
    }
    Text.StripTrimmed(r);
  }

  /** Content made only of whitespace gives the empty reply, like no content at all. */
  lemma BlankContentIsEmpty(s: string)
    requires forall k :: 0 <= k < |s| ==> Text.IsSpace(s[k])
    ensures QueryLlm(Completion(Some(s))) == QueryLlm(Completion(None)) == ""
  {
    Text.StripBlank(s);
    Text.StripBlank("");
  }
}
