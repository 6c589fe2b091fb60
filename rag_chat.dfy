/** src/chat/rag_chat.py: `RAGChat`, which summarises a report with guideline context.
    The search for the report, the table it runs on and the chat service are inputs;
    the object's fields are set once by the constructor and never change, so the chat
    is a value. */
module RagChatting {
  import opened Outcomes
  import Seqs
  import Text
  import Search
  import opened ProcessorCommon

  const DocOpen: string := "<doc id='"
  const DocHeadEnd: string := "'>\n"
  const DocClose: string := "\n</doc>"
  const Newline: string := "\n"

  /** The f-string `<doc id='{i}'>\n{text}\n</doc>` for the text at position `i`. */
  function WrapDoc(i: nat, text: string): string
  {
    DocOpen + (Text.Decimal(i) + (DocHeadEnd + (text + DocClose)))
  }

  /** The length of the run of ASCII digits at the start of `s`. */
  function DigitPrefix(s: string): (n: nat)
    ensures n <= |s|
    ensures forall j :: 0 <= j < n ==> '0' <= s[j] <= '9'
    ensures n < |s| ==> !('0' <= s[n] <= '9')
  {
    if |s| == 0 || !('0' <= s[0] <= '9') then 0 else 1 + DigitPrefix(s[1..])
  }

  /** Reads a block back: the id and the text of `<doc id='ID'>\nTEXT\n</doc>`, or None
      when `s` does not have that shape. */
  function UnwrapDoc(s: string): Option<(nat, string)>
  {
    if |s| < |DocOpen| || s[..|DocOpen|] != DocOpen then None
    else
      var body := s[|DocOpen|..];
      var n := DigitPrefix(body);
      var rest := body[n..];
      if n == 0 || |rest| < |DocHeadEnd| + |DocClose| || rest[..|DocHeadEnd|] != DocHeadEnd
         || rest[|rest| - |DocClose|..] != DocClose
      then None
      else Some((Text.ParseDecimal(body[..n]), rest[|DocHeadEnd|..|rest| - |DocClose|]))
  }

  /** The digit run ends where the digits of `d` do, when a non-digit follows them. */
  lemma DigitPrefixOf(d: string, rest: string)
    requires forall j :: 0 <= j < |d| ==> '0' <= d[j] <= '9'
    requires |rest| > 0 && !('0' <= rest[0] <= '9')
    ensures DigitPrefix(d + rest) == |d|
  {
    var s := d + rest;
    assert forall j :: 0 <= j < |d| ==> s[j] == d[j];
    assert s[|d|] == rest[0];
  }

  /** Reading a block back gives its id and its text, whatever the text holds. */
  lemma UnwrapWrap(i: nat, text: string)
    ensures UnwrapDoc(WrapDoc(i, text)) == Some((i, text))
  {
    var s := WrapDoc(i, text);
    var d := Text.Decimal(i);
    var rest := DocHeadEnd + (text + DocClose);
    assert s[..|DocOpen|] == DocOpen;
    var body := s[|DocOpen|..];
    assert body == d + rest;
    assert rest[0] == '\'';
    DigitPrefixOf(d, rest);
    assert body[..|d|] == d;
    assert body[|d|..] == rest;
    assert rest[..|DocHeadEnd|] == DocHeadEnd;
    assert rest[|rest| - |DocClose|..] == DocClose;
    assert rest[|DocHeadEnd|..|rest| - |DocClose|] == text;
    Text.ParseDecimalOfDecimal(i);
  }

  /** Different positions or different texts give different blocks. */
  lemma WrapDocInjective(i: nat, t: string, j: nat, u: string)
    requires WrapDoc(i, t) == WrapDoc(j, u)
    ensures i == j && t == u
  {
    UnwrapWrap(i, t);
    UnwrapWrap(j, u);
  }

  /** `formatted_texts`: every retrieved text wrapped with its zero-based position. */
  function Wrapped(texts: seq<string>): (r: seq<string>)
    ensures |r| == |texts|
  {
    seq(|texts|, i requires 0 <= i < |texts| => WrapDoc(i, texts[i]))
  }

  /** The blocks carry the ids 0, 1, ... in retrieval order, one per text, so no two
      share an id, and each holds its text unchanged. */
  lemma WrappedIds(texts: seq<string>)
    ensures forall i :: 0 <= i < |texts| ==> UnwrapDoc(Wrapped(texts)[i]) == Some((i, texts[i]))
    ensures forall i, j :: 0 <= i < j < |texts| ==> UnwrapDoc(Wrapped(texts)[i]).value.0 != UnwrapDoc(Wrapped(texts)[j]).value.0
  {
    forall i | 0 <= i < |texts|
      ensures UnwrapDoc(Wrapped(texts)[i]) == Some((i, texts[i]))
    {
      UnwrapWrap(i, texts[i]);
    }
  }

  /** One more text adds one block, numbered with its position. */
  lemma WrappedSnoc(texts: seq<string>, t: string)
    ensures Wrapped(texts + [t]) == Wrapped(texts) + [WrapDoc(|texts|, t)]
  {
  }

  /** `retrieval_context`: the blocks joined with "\n". */
  function RetrievalContext(texts: seq<string>): string
  {
    Seqs.Join(Wrapped(texts), Newline)
  }

  /** No text gives no context, and a single block has no separator. */
  lemma RetrievalContextSmall(texts: seq<string>)
    ensures |texts| == 0 ==> RetrievalContext(texts) == ""
    ensures |texts| == 1 ==> RetrievalContext(texts) == WrapDoc(0, texts[0])
  {
    Seqs.JoinSmall(Wrapped(texts), Newline);
  }

  /** One more text adds a "\n" and its block at the end of the context. */
  lemma RetrievalContextSnoc(texts: seq<string>, t: string)
    requires |texts| > 0
    ensures RetrievalContext(texts + [t]) == RetrievalContext(texts) + Newline + WrapDoc(|texts|, t)
  {
    WrappedSnoc(texts, t);
    Seqs.JoinSnoc(Wrapped(texts), WrapDoc(|texts|, t), Newline);
  }

  /** A constructed `RAGChat`: only the number of results to retrieve matters here. */
  datatype RagChat = RagChat(k: nat)

  /** `RAGChat(k)`: opening the table comes first and its failure propagates; then a
      missing or empty OPENAI_API_KEY raises ValueError. */
  function Create(k: nat, tableOpens: bool, apiKey: Option<string>): (r: Outcome<RagChat>)
    ensures r.Ok? <==> tableOpens && ApiKeyPresent(apiKey)
    ensures !tableOpens ==> r == Raised(ServiceError)
    ensures tableOpens && !ApiKeyPresent(apiKey) ==> r == Raised(ValueError)
    ensures r.Ok? ==> r.value.k == k
  {
    if !tableOpens then Raised(ServiceError)
    else if !ApiKeyPresent(apiKey) then Raised(ValueError)
    else Ok(RagChat(k))
  }

  /** What the two chat messages are formatted from: `context=` of the system template
      and `report=` of the user template. */
  datatype ChatRequest = ChatRequest(context: string, report: string)

  /** The pair `generate` returns, and the request it sent, if any. */
  datatype Generation = Generation(answer: string, retrieved: seq<string>, request: Option<ChatRequest>)

  /** `generate(report)` against the search reply for the report and one chat reply. A
      failed search, or a result without a "text" column, gives the fixed error reply
      and no texts without asking the chat service; a chat request that raises is not
      caught. */
  function Generate(chat: RagChat, report: string, search: Search.SearchReply, llm: Completion): (r: Outcome<Generation>)
    ensures r.Raised? <==> Search.HasTexts(search) && llm.CompletionRaised?
    ensures r.Raised? ==> r.exception == ServiceError
    ensures !Search.HasTexts(search) ==> r == Ok(Generation(DatabaseErrorMessage, [], None))
    ensures Search.HasTexts(search) && r.Ok? ==>
      var texts := Search.Limit(search.textColumn.value, chat.k);
      && r.value.retrieved == texts
      && r.value.request == Some(ChatRequest(RetrievalContext(texts), report))
      && r.value.answer == ContentText(llm.content)
  {
    if !Search.HasTexts(search) then Ok(Generation(DatabaseErrorMessage, [], None))
    else
      var retrievedTexts := Search.Limit(search.textColumn.value, chat.k);
      var retrievalContext := RetrievalContext(retrievedTexts);
      if llm.CompletionRaised? then Raised(ServiceError)
      else Ok(Generation(ContentText(llm.content), retrievedTexts, Some(ChatRequest(retrievalContext, report))))
  }

  /** The returned texts are the best-ranked results unchanged, at most `k` of them, and
      the context sent to the chat service numbers exactly those texts in that order;
      a chat answer never starts or ends with whitespace. */
  lemma GenerateReturnsRetrieved(chat: RagChat, report: string, search: Search.SearchReply, llm: Completion)
    requires Generate(chat, report, search, llm).Ok?
    ensures var g := Generate(chat, report, search, llm).value;
      && |g.retrieved| <= chat.k
      && (Search.HasTexts(search) ==> g.retrieved == search.textColumn.value[..|g.retrieved|])
      && (g.request.Some? ==>
           forall i :: 0 <= i < |g.retrieved| ==> UnwrapDoc(Wrapped(g.retrieved)[i]) == Some((i, g.retrieved[i])))
      && (Search.HasTexts(search) && g.answer != [] ==> !Text.IsSpace(g.answer[0]) && !Text.IsSpace(g.answer[|g.answer| - 1]))
  {
    var g := Generate(chat, report, search, llm).value;
    WrappedIds(g.retrieved);
  }
}
