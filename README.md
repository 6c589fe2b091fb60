# llm-ocr text pipeline, modelled in Dafny

This project models the layer of text shaping and bookkeeping that the llm-ocr
repository writes around its external services. The services are Amazon Textract and
S3, PyMuPDF, LanceDB, OpenAI chat completions and deepeval. The model covers:

- **Textract result handling** (`ocr.py`, `src/scripts/ocr_aws.py`):
  - keeping only the LINE blocks and joining their texts with `"\n"`;
  - polling a job until its first SUCCEEDED or FAILED status;
  - following `NextToken` through the result pages;
  - the directory drivers: the `.pdf` filter, output names and counters.
- **Page-text byte conventions** (`src/ocr/ocr_pymupdf.py` and the processors):
  - UTF-8 (RFC 3629) with a 0x0C separator or terminator between pages;
  - proved equal to the string join with `"\f"`.
- **The three processor sessions** (`src/ragProcessor.py`, `src/main.py`,
  `src/baseProcessor.py`):
  - the report text they keep, and the retrieval context `ragProcessor` keeps;
  - the upload, and the guard against questions before an upload;
  - the fixed error replies;
  - the prompt built with `str.format`;
  - the normalisation of the chat reply.
- **`RAGChat.generate`** (`src/chat/rag_chat.py`): the `<doc id='i'>` wrapping, the
  join, and the failure branches.
- **Page reassembly**: for any completion order of the worker pool, results go into
  the slot of their page id (`src/index/base.py`,
  `src/scripts/tests/test_pdf_to_md.py`).
- **Score grouping by metric name** (`notebooks/analyze.py`).

Each external call is an input to the model:

| call | modelled as |
|---|---|
| Textract | a scripted sequence of replies |
| PyMuPDF | a document whose opening either raises or gives its pages, each page's text (or Markdown) read or raising |
| the worker pool | the order in which jobs complete |
| a LanceDB search | its ranked `text` column, a result without that column, or a call that raised |
| a chat completion | its `content`, which may be `None`, or a call that raised |
| the file system | a map from file name to contents; a Textract driver's write completes, fails before the file is opened, or fails after truncating it with a prefix of the text written; whether the PyMuPDF converter can create files in its output directory is a flag |

Modules:

| module | models |
|---|---|
| `Outcomes` | `Option`, and a Python call that returns a value or raises one of `ValueError`, `KeyError`, `OSError` or a service error |
| `Documents` | PyMuPDF documents whose opening or page reads may raise |
| `Seqs` | join with a separator, the terminator convention, split and count |
| `Utf8` | the UTF-8 codec |
| `PageText` | the two page conventions |
| `Text` | `str.strip` and decimal digits |
| `Paths` | `Path.suffix`, `Path.stem` and the `.pdf` filter |
| `FileWrites` | the writes of a directory scan, and a directory after a sequence of writes |
| `PromptFormat` | `str.format` on the repository's templates |
| `Search` | LanceDB search replies and `limit(k)` |
| `ProcessorCommon` | what the processors share |
| `Textract` | the Textract helpers |
| `OcrScript` | `ocr.py` |
| `OcrAws` | `src/scripts/ocr_aws.py` |
| `OcrPymupdf` | `src/ocr/ocr_pymupdf.py` |
| `RagProcessing` | `src/ragProcessor.py` |
| `ReportProcessing` | `src/main.py` |
| `BaseProcessing` | `src/baseProcessor.py` |
| `RagChatting` | `src/chat/rag_chat.py` |
| `PageIndex` | `src/index/base.py` |
| `PdfToMdTest` | `src/scripts/tests/test_pdf_to_md.py` |
| `Analyze` | `notebooks/analyze.py` |

Where the code and its own comments or descriptions disagree, the model follows the code:

- `ragProcessor.ask_question` reads `search_result["text"]` inside the search handler
  (src/ragProcessor.py:104-107). A result without a `text` column therefore gives the
  database-error reply. The `except KeyError` around the join (src/ragProcessor.py:113-117)
  can never fire, because the context is by then a list of strings.
- `ReportProcessor.ask_question` reads the column inside its own `KeyError` handler
  (src/main.py:100-104). A missing column there gives "No relevant context could be
  found in the database.", as written.
  - The model assumes that indexing the result frame with a missing column raises
    KeyError.
- `ocr.py` names the output `f"{filename}.txt"` with the full file name, so `a.pdf`
  becomes `a.pdf.txt`. `ocr_aws.py` and `ocr_pymupdf.py` use the stem, so `a.pdf`
  becomes `a.txt`.

## Model

| member | source | states |
|---|---|---|
| Utf8.DecodeEncode | src/ragProcessor.py:65-69 | decoding the UTF-8 encoding of any string gives the string back |
| Utf8.EncodeDecode | src/ragProcessor.py:65-69 | bytes that decode are exactly the encoding of what they decode to |
| Utf8.EncodeAppend | src/ragProcessor.py:65-66 | encoding is a homomorphism: the encoding of a concatenation is the concatenation of the encodings |
| Utf8.FormFeedEncoding | src/ocr/ocr_pymupdf.py:13 | U+000C encodes as the single byte 0x0C |
| Utf8.CountFormFeedBytes | src/ocr/ocr_pymupdf.py:11-13 | an encoded string has as many 0x0C bytes as the string has form feeds, since no multi-byte sequence contains 0x0C |
| Utf8.EncodeChar | src/ocr/ocr_pymupdf.py:11 | a character encodes to 1 to 4 bytes, to its own value when below 0x80, and otherwise to bytes that are all at least 0x80 |
| Utf8.DecodeFirstOfEncoding | src/ragProcessor.py:69 | the decoder reads back the first character of an encoding and exactly its length |
| PageText.EncodeSeparated | src/ragProcessor.py:65-67 | joining the encoded pages with 0x0C is the encoding of the pages joined with "\f" |
| PageText.EncodeTerminated | src/ocr/ocr_pymupdf.py:10-13 | the pages each followed by 0x0C are the encoding of the pages each followed by "\f" |
| PageText.ReportText | src/ragProcessor.py:63-69 | decoding the joined page bytes always succeeds and gives the pages joined with "\f", with no trailing form feed |
| PageText.DecodeTerminated | src/ocr/ocr_pymupdf.py:10-13 | a converter file decodes to every page followed by "\f"; for a non-empty document that is the stored report text plus one "\f" |
| PageText.ReportTextSplits | src/ragProcessor.py:65-69 | when no page holds a form feed, the stored text splits on "\f" back into the pages |
| PageText.TerminatorCount | src/ocr/ocr_pymupdf.py:10-13 | a converter file holds one 0x0C per page plus one per form feed inside the pages |
| PageText.ReportTextEmpty | src/ragProcessor.py:64-69 | the stored text is empty, so a later question is refused, exactly when the document has no pages or one empty page |
| Documents.Extracted | src/ocr/ocr_pymupdf.py:10-13 | the texts read are those of the pages before the first page that raises, in page order |
| Documents.FailureIff | src/ragProcessor.py:63-67 | reading a document raises nothing exactly when it opens and every page reads, and then every page's text is read |
| Documents.ExtractedAll | src/ocr/ocr_pymupdf.py:10-13 | a document whose pages all read gives exactly their texts |
| Seqs.AlternateParts | src/ragProcessor.py:9-23 | proof helper for `RagProcessing.PromptParts`: in a concatenation of alternating runs and values, each value sits at the offset the lengths before it add up to |
| Seqs.JoinSplit | src/ragProcessor.py:114 | splitting on a separator and joining again gives the input back |
| Seqs.SplitJoin | src/ragProcessor.py:114 | joining parts free of the separator and splitting again gives the parts back |
| Seqs.CountJoin | src/ragProcessor.py:114 | a join of n parts adds n - 1 separators to those inside the parts |
| Seqs.CountTerminated | src/ocr/ocr_pymupdf.py:12-13 | the terminator convention adds one terminator per part |
| Text.Strip | src/ragProcessor.py:87 | `strip()` removes exactly the leading and trailing whitespace: the result is a slice of the input, there is only whitespace outside it, and it neither starts nor ends with whitespace |
| Text.StripIdempotent | src/ragProcessor.py:87 | stripping twice is stripping once |
| Text.StripBlank | src/ragProcessor.py:87 | a string of whitespace strips to "" |
| Text.ParseDecimalOfDecimal | src/chat/rag_chat.py:37 | the decimal digits of an id read back as that id |
| Text.DecimalInjective | src/chat/rag_chat.py:37-38 | different ids have different decimal digits |
| Paths.LastDot | src/ocr/ocr_pymupdf.py:22 | `rfind(".")`: the index of the last dot, or -1 |
| Paths.IsPdfLower | src/scripts/ocr_aws.py:113 | the filter is the comparison of the lower-cased `suffix` with ".pdf" |
| Paths.PdfLastDot | src/scripts/ocr_aws.py:113 | a name that passes the filter has a suffix, and its last dot is four characters from the end |
| Paths.IsPdfIff | src/ocr/ocr_pymupdf.py:22 | the `.pdf` filter passes exactly the names of 5 or more characters whose last four lower-case to ".pdf" |
| Paths.StemSuffix | src/ocr/ocr_pymupdf.py:22-24 | stem followed by suffix is the whole name |
| Paths.PdfStem | src/ocr/ocr_pymupdf.py:24 | the stem of a `.pdf` entry drops exactly its last four characters |
| Paths.PdfCount | src/ocr/ocr_pymupdf.py:20-23 | the number of entries the filter passes is at most the number of entries |
| Paths.StemOfTxtName | src/ocr/ocr_pymupdf.py:25 | `f"{stem}.txt"` is the stem followed by ".txt", so the stem can be read back |
| Paths.TxtNameInjective | src/ocr/ocr_pymupdf.py:24-25 | different stems give different text files |
| Paths.PdfTxtName | src/scripts/ocr_aws.py:115-116 | for a `.pdf` entry the text file replaces the last four characters with ".txt" |
| FileWrites.LastWriteWins | src/ocr/ocr_pymupdf.py:9 | a file written and not written again holds the last contents written to it |
| FileWrites.Untouched | src/ocr/ocr_pymupdf.py:9 | a file no write names keeps its old state, present or absent |
| FileWrites.OnlyWritten | src/ocr/ocr_pymupdf.py:9 | a new or changed file was written by some write, with the contents it holds |
| FileWrites.Writes | src/ocr/ocr_pymupdf.py:21-27 | one write per entry, in listing order, each the entry's own write given its input |
| FileWrites.WritesStep | src/scripts/ocr_aws.py:112-117 | one more entry of the listing is its write applied to the directory so far |
| PromptFormat.Format | src/main.py:107 | formatting succeeds exactly when every field of the template has an argument; a missing one raises KeyError |
| PromptFormat.FormatAppend | src/main.py:107 | a template made of two parts formats to the two results one after the other |
| PromptFormat.FormatCons | src/main.py:107 | a literal or field in front of a template puts its text or argument in front of the result |
| PromptFormat.FormatLitField | src/main.py:107 | a literal run and a field in front of a template give the run, then the argument, then the rest |
| PromptFormat.FormatLit | src/main.py:107 | a template of one literal run names no field and formats to that run |
| PromptFormat.FormatIgnoresOtherArgs | src/main.py:107 | only the arguments a template names affect the result |
| PromptFormat.FormatNoFields | src/main.py:107 | a template without fields formats to its literal text |
| Search.Limit | src/ragProcessor.py:103 | `limit(k)` keeps the first min(k, n) results, in ranking order |
| Search.LimitAll | src/ragProcessor.py:103 | with at most k results all are kept |
| Search.RelevantTextsSplit | src/ragProcessor.py:114 | when no text holds a newline, the joined texts split back into the texts |
| Search.RelevantTextsNewlines | src/main.py:101 | the joined texts hold n - 1 newlines beyond those inside the texts |
| Textract.LineTextsAppend | ocr.py:72-74 | the LINE filter works block by block: a concatenation of blocks gives the concatenation of their LINE texts |
| Textract.NonLineIgnored | ocr.py:73 | a block that is not a LINE changes nothing, wherever it stands |
| Textract.OnlyLines | ocr.py:72-74 | with only LINE blocks every text is kept, in block order |
| Textract.NoLines | ocr.py:72-74 | with no LINE block the result is the empty string |
| Textract.ExtractTextSplits | src/scripts/ocr_aws.py:73-75 | when no line holds a newline, the extracted text splits back into the LINE texts |
| Textract.PollCount | ocr.py:39-45 | polling consumes the replies up to and including the first that is SUCCEEDED, FAILED or raises |
| Textract.IsJobComplete | ocr.py:37-48 | the polling loop returns the outcome of the first reply that stops polling and consumes exactly the replies up to it |
| Textract.KeepsPolling | src/scripts/ocr_aws.py:40-46 | a status other than SUCCEEDED or FAILED, PARTIAL_SUCCESS included, polls again with the same final result, as the membership test does |
| Textract.PollResultIff | ocr.py:43-44 | the result is true exactly when the first terminal status is SUCCEEDED, and false exactly when it is FAILED |
| Textract.PartialSuccessPollsForever | src/scripts/ocr_aws.py:44-46 | as written, a job that ended in PARTIAL_SUCCESS is polled forever: no number of replies stops the loop |
| Textract.PollFinal | src/scripts/ocr_aws.py:40-46 | polling as evidently intended stops at the first raising call or final status (PARTIAL_SUCCESS included) and returns True only for SUCCEEDED |
| Textract.PartialSuccessStops | src/scripts/ocr_aws.py:44-45 | with the correction, a PARTIAL_SUCCESS job stops polling after one reply, as not succeeded |
| Textract.PollFinalAgrees | src/scripts/ocr_aws.py:40-46 | the correction changes nothing for a job that reports no PARTIAL_SUCCESS before polling stops: same result, same replies consumed |
| Textract.PageCount | ocr.py:55-64 | the pages requested run up to and including the first reply whose token is missing or empty |
| Textract.GetJobResults | ocr.py:51-69 | the result is the blocks of every page in order; the first request has no token and each later one carries the previous reply's non-empty token |
| Textract.SinglePage | src/scripts/ocr_aws.py:61-65 | the last page's blocks are kept: a single final page gives exactly its blocks |
| Textract.NextPage | src/scripts/ocr_aws.py:56-65 | a page with a token contributes its blocks ahead of those of the remaining pages |
| Textract.BlocksOfCons | ocr.py:61 | the collected blocks of a run of pages are the first page's blocks followed by the rest's |
| Textract.JobOutcomes | ocr.py:101-103 | one outcome per document, in listing order |
| Textract.ProcessJob | ocr.py:77-93 | one document's calls, in order, end as the outcome the script determines: written, failed job, an exception caught before the text file is opened, or a write that raised after truncating the file |
| Textract.UploadFailureSwallowed | ocr.py:16-21 | a failed upload changes nothing: the job is still started |
| Textract.WrittenOnlyOnSuccess | ocr.py:83-91 | text is written exactly when the job started, its first terminal status is SUCCEEDED, every page was fetched and the write completed; it is the LINE text of all pages; a FAILED job ends as a failed job |
| Textract.FileTouchedOnlyByWrite | src/scripts/ocr_aws.py:88-94 | the text file is touched only when the job reached the write and the file was opened; it then holds the text or, when writing raised after `write_text` truncated it, a prefix of the text |
| Textract.Kept | src/scripts/ocr_aws.py:94 | what a write cut short leaves: a prefix of the text of the length written |
| OcrScript.OutputNameKeepsName | ocr.py:87 | the output name of a non-empty name has the whole input name as its stem and ".txt" as its suffix |
| OcrScript.OutputNameInjective | ocr.py:87 | different entries have different output files |
| OcrScript.ProcessPdfFile | ocr.py:77-93 | the output file holds the text when the job ran to a written text, and a prefix of it when writing raised after the file was truncated; a failed job or an exception before the file is opened leaves the directory unchanged |
| OcrScript.Process | ocr.py:96-103 | a non-directory raises ValueError; otherwise the final directory is the result of the entries' writes in listing order |
| OcrScript.ScanWritesSucceeded | ocr.py:87-103 | a `.pdf` entry whose job wrote text has that text in `f"{filename}.txt"` |
| OcrScript.ScanOnlyWritten | ocr.py:83-102 | every new or changed file belongs to a `.pdf` entry whose job reached the write, and holds what that write left: the text, or a prefix of it |
| OcrScript.ScanKeepsUnwritten | ocr.py:90-102 | the output of a non-PDF entry, or of a job that failed or raised before the file was opened, is left as it was |
| OcrAws.ProcessPdfFile | src/scripts/ocr_aws.py:78-102 | the result is True exactly when the text was written; a failed job or an exception caught before the file is opened gives False and writes nothing; a write that raised after truncating the file gives False and leaves a prefix of the text |
| OcrAws.SuccessCount | src/scripts/ocr_aws.py:111-118 | `success_count` never exceeds the number of `.pdf` entries |
| OcrAws.ScanPrefix | src/scripts/ocr_aws.py:112-118 | the loop state after one more entry is one more pass of the loop body |
| OcrAws.ScanMeaning | src/scripts/ocr_aws.py:110-118 | after the loop, `total_count` is the number of `.pdf` entries, `success_count` the number whose job wrote text, and the directory holds what their writes left, in listing order |
| OcrAws.Process | src/scripts/ocr_aws.py:105-119 | a non-directory raises ValueError; otherwise `total_count` is the number of `.pdf` entries, `success_count` the number processed successfully, and the directory is the result of their writes |
| OcrAws.AllSucceeded | src/scripts/ocr_aws.py:110-119 | the two counters agree exactly when every `.pdf` entry was processed successfully |
| OcrAws.AllWrittenEqualCounts | src/scripts/ocr_aws.py:110-119 | if every `.pdf` entry succeeds, the counters agree |
| OcrAws.EqualCountsWritten | src/scripts/ocr_aws.py:110-119 | if the counters agree, every `.pdf` entry succeeded |
| OcrAws.ScanWritesSucceeded | src/scripts/ocr_aws.py:115-117 | a successful entry's text is in `f"{stem}.txt"` unless a later PDF with the same stem overwrote it |
| OcrAws.ScanOnlyWritten | src/scripts/ocr_aws.py:88-117 | every new or changed file is the text file of a `.pdf` entry whose job reached the write, and holds what the write left: the text of a successful entry, or a prefix of it |
| OcrAws.CaseVariantsShareOutput | src/scripts/ocr_aws.py:113-116 | "r.pdf" and "r.PDF" both pass the filter and both write "r.txt" |
| OcrPymupdf.ProcessPdfFile | src/ocr/ocr_pymupdf.py:7-14 | an unopenable document raises before any file is touched; a text file that cannot be created raises OSError; otherwise the file holds the UTF-8 bytes of the pages read before the first failing page, each followed by 0x0C, and that page's exception escapes |
| OcrPymupdf.EntryErrorIff | src/ocr/ocr_pymupdf.py:7-14 | converting a document raises nothing exactly when its text file can be created, it opens and every page reads |
| OcrPymupdf.FirstAbort | src/ocr/ocr_pymupdf.py:21-27 | the first `.pdf` entry whose conversion raises, or the end of the listing: no earlier entry aborts |
| OcrPymupdf.ScanStep | src/ocr/ocr_pymupdf.py:21-27 | one more entry is one step of the count and of the writes |
| OcrPymupdf.Process | src/ocr/ocr_pymupdf.py:17-28 | a non-directory raises ValueError with no file touched; when no `.pdf` entry aborts, `total_count` is the number of `.pdf` entries and the directory holds their files; otherwise the first aborting entry's exception escapes and the directory keeps the files written up to and including that entry |
| OcrPymupdf.ConvertsAll | src/ocr/ocr_pymupdf.py:21-27 | the run ends normally exactly when every `.pdf` entry's document opens and reads and its text file can be created |
| OcrPymupdf.EmptyDocument | src/ocr/ocr_pymupdf.py:9-14 | a document with no pages gives an empty text file |
| OcrPymupdf.ScanOnlyPdf | src/ocr/ocr_pymupdf.py:22-27 | every new or changed file is the text file of a `.pdf` entry whose document opened, and holds the pages read from it |
| OcrPymupdf.ScanLastWins | src/ocr/ocr_pymupdf.py:24-27 | a `.pdf` entry whose document reads completely has all its pages in its file, unless a later PDF with the same stem overwrote it |
| OcrPymupdf.ScanKeepsOthers | src/ocr/ocr_pymupdf.py:21-27 | a file no `.pdf` entry names is left as it was |
| ProcessorCommon.ContentText | src/ragProcessor.py:87 | `(content or "").strip()` neither starts nor ends with whitespace, and no content gives "" |
| ProcessorCommon.QueryLlm | src/ragProcessor.py:73-90 | a raising request gives the fixed error reply, and no content gives "" |
| ProcessorCommon.QueryLlmTrimmed | src/baseProcessor.py:62-65 | the reply, the error reply included, has no surrounding whitespace, and stripping it again changes nothing |
| ProcessorCommon.BlankContentIsEmpty | src/main.py:76 | content of only whitespace gives "" like no content |
| RagProcessing.RagTemplateFields | src/ragProcessor.py:9-23 | the template names exactly report, relevant_texts and query |
| RagProcessing.RagPrompt | src/ragProcessor.py:120-124 | formatting the template with the three values succeeds and puts them in that order between its literal runs |
| RagProcessing.RagProcessor.constructor | src/ragProcessor.py:48-51 | k = 10, an empty report and no retrieval context |
| RagProcessing.RagProcessor.Create | src/ragProcessor.py:47-57 | the constructor succeeds exactly when the API key is set and non-empty, and otherwise raises ValueError |
| RagProcessing.RagProcessor.UploadReport | src/ragProcessor.py:59-71 | opening the document or reading a page may raise, and the exception escapes with the session unchanged; otherwise the stored text replaces the old one; it is the page bytes joined with 0x0C and decoded, which is the pages joined with "\f"; the retrieval context is unchanged |
| RagProcessing.RagProcessor.AskQuestion | src/ragProcessor.py:92-138 | with no report the reply is the upload prompt; a failed search, or one without texts, gives the database-error reply; neither changes the session; otherwise the context is the top-k texts and the prompt holds the report, those texts joined with "\n", and the question; the answer is the normalised chat reply |
| RagProcessing.PromptParts | src/ragProcessor.py:120-124 | the prompt holds the report, the joined texts and the question at their offsets between the literal runs |
| ReportProcessing.MainPrompt | src/main.py:8-17 | the template names exactly relevant_texts and query, formats without error, and puts the texts and then the question between its literal runs |
| ReportProcessing.ReportNotInPrompt | src/main.py:107 | the report text does not reach the prompt: adding it as an argument changes nothing |
| ReportProcessing.ReportProcessor.constructor | src/main.py:42-44 | k = 2 and an empty report |
| ReportProcessing.ReportProcessor.UploadReport | src/main.py:49-61 | opening the document or reading a page may raise, and the exception escapes with the stored text unchanged; otherwise the stored text replaces the old one and is the pages joined with "\f" |
| ReportProcessing.ReportProcessor.AskQuestion | src/main.py:82-112 | with no report the reply is the upload prompt and nothing is searched; a raising search gives the database-error reply; a result without a text column gives the no-context reply; otherwise the prompt holds the top-2 texts joined with "\n" and the question, and the answer is the normalised chat reply |
| BaseProcessing.BasePrompt | src/baseProcessor.py:11-21 | the template names only report, formats without error, and quotes the report between its literal runs |
| BaseProcessing.BasePromptInjective | src/baseProcessor.py:76-78 | different reports give different prompts |
| BaseProcessing.BaseProcessor.constructor | src/baseProcessor.py:26 | an empty report |
| BaseProcessing.BaseProcessor.Create | src/baseProcessor.py:25-33 | the constructor succeeds exactly when the API key is set and non-empty, and otherwise raises ValueError |
| BaseProcessing.BaseProcessor.UploadReport | src/baseProcessor.py:35-47 | opening the document or reading a page may raise, and the exception escapes with the stored text unchanged; otherwise the stored text replaces the old one and is the pages joined with "\f" |
| BaseProcessing.BaseProcessor.AskQuestion | src/baseProcessor.py:67-91 | with no report the reply is the upload prompt and no chat request is made; otherwise the prompt is built from the report alone, whatever the question, and the answer is the normalised chat reply |
| RagChatting.DigitPrefix | src/chat/rag_chat.py:37 | proof helper for `RagChatting.UnwrapWrap`: the run of digits at the start of a string, all digits, followed by a non-digit or the end |
| RagChatting.DigitPrefixOf | src/chat/rag_chat.py:37 | the digits of an id end where the quote after them begins |
| RagChatting.UnwrapWrap | src/chat/rag_chat.py:36-39 | a wrapped block reads back as its id and its text, whatever the text holds |
| RagChatting.WrapDocInjective | src/chat/rag_chat.py:36-39 | different positions or texts give different blocks |
| RagChatting.Wrapped | src/chat/rag_chat.py:36-39 | one block per retrieved text |
| RagChatting.WrappedIds | src/chat/rag_chat.py:38 | block i carries id i and text i, so the ids are 0..n-1 in retrieval order and no two are equal |
| RagChatting.WrappedSnoc | src/chat/rag_chat.py:38 | one more text adds one block numbered with its position |
| RagChatting.RetrievalContextSmall | src/chat/rag_chat.py:40 | no texts give "", and a single block has no separator |
| RagChatting.RetrievalContextSnoc | src/chat/rag_chat.py:40 | one more text appends "\n" and its block |
| RagChatting.Create | src/chat/rag_chat.py:12-19 | opening the table comes first and its failure propagates; then a missing or empty API key raises ValueError; otherwise the chat keeps k |
| RagChatting.Generate | src/chat/rag_chat.py:21-54 | a failed search, or one without texts, gives the fixed error reply and no texts, without a chat request; a raising chat request propagates; otherwise the texts are the top k, the system message is formatted from their numbered blocks and the user message from the report, and the answer is the stripped content |
| RagChatting.GenerateReturnsRetrieved | src/chat/rag_chat.py:29-54 | the returned texts are at most k of the best-ranked results, unchanged; the context numbers exactly those texts in order; a chat answer has no surrounding whitespace |
| PageIndex.GetChunks | src/index/base.py:21 | one string per chunk, its text, in chunk order |
| PageIndex.GetChunksAppend | src/index/base.py:21 | the projection commutes with concatenation |
| PageIndex.PageJobs | src/index/base.py:42 | the jobs are the page ids 0..page_count-1 in order |
| PageIndex.PageJobCount | src/index/base.py:42 | a page id below the count occurs once among the jobs, any other id never |
| PageIndex.PageJobsOnce | src/index/base.py:42-45 | every page id below the count has exactly one job and no other id has one |
| PageIndex.CompletionOrderIds | src/index/base.py:45-46 | a completion order holds every page id below the count and only those |
| PageIndex.ProcessPage | src/index/base.py:24-29 | the result pairs the page's Markdown with the page id it was given, text first, or is the exception rendering the page raised |
| PageIndex.FirstFailed | src/index/base.py:46-47 | the position, in completion order, of the first job whose result raises, or the end: no earlier job raises |
| PageIndex.FirstFailedIff | src/index/base.py:44-48 | whatever the completion order, no job result raises exactly when every page renders |
| PageIndex.GetMdPages | src/index/base.py:32-51 | a failing `mkdir` or `pymupdf.open` raises; the first raising job result in completion order propagates its exception; otherwise the result has page_count slots and, for any completion order, slot i holds the Markdown of page i |
| PdfToMdTest.ProcessPage | src/scripts/tests/test_pdf_to_md.py:43-48 | the result pairs the page id it was given with the page's Markdown, id first, or is the exception rendering the page raised |
| PdfToMdTest.ProcessPageSwapped | src/scripts/tests/test_pdf_to_md.py:48 | the same two values as the index job, in the opposite order, and the same exception when rendering raises |
| PdfToMdTest.TestPymupdfNccn | src/scripts/tests/test_pdf_to_md.py:51-79 | a failing `pymupdf.open` raises; the first raising job result in completion order propagates its exception; otherwise the result has page_count slots and, for any completion order, slot i holds the Markdown of page i |
| Analyze.CollectScores | notebooks/analyze.py:33-38 | the keys are exactly the metric names seen; each list is that name's scores in encounter order; the key order is the order of first use; the lists hold as many scores as there were metrics |
| Analyze.CollectedSnoc | notebooks/analyze.py:37 | one more metric is one more append |
| Analyze.MetricStep | notebooks/analyze.py:36-37 | one more metric of the current result is one more append |
| Analyze.ResultStep | notebooks/analyze.py:35-36 | one more result contributes all of its metrics in order |
| Analyze.CollectedNames | notebooks/analyze.py:34-37 | the fold's keys are the names seen, and the key order lists each key once, by first use |
| Analyze.CollectedLists | notebooks/analyze.py:34-37 | each list of the fold is that name's scores in encounter order |
| Analyze.ScoresNamedUnseen | notebooks/analyze.py:37 | a name no metric has gets no scores |
| Analyze.TotalGrow | notebooks/analyze.py:37 | appending to an existing list adds one to the total |
| Analyze.TotalSame | notebooks/analyze.py:37 | storing under an unlisted name leaves the total of the listed names unchanged |
| Analyze.CollectedTotal | notebooks/analyze.py:35-37 | the total number of stored scores equals the number of metrics |
| Analyze.EmptyResultAddsNothing | notebooks/analyze.py:36 | a result with no metrics adds nothing |

## Left out

- Amazon S3 and Textract, PyMuPDF and pymupdf4llm, LanceDB, OpenAI and deepeval are
  external services or libraries. Their effects are inputs, as listed above.
- Network and service failures are one `ServiceError`, whatever their kind.
- `time.sleep` between polls is a delay only, so it is omitted.
- Log output (loguru) and console output are left out, as is the `"wb"` file handle's close.
- In the Textract drivers, `mkdir` and `write_text` are one input per document: the
  write completed, failed before the file was opened (untouched), or failed after
  opening with mode "w" truncated the file, with a prefix of the text written. The
  prefix is counted in characters; a write cut inside a multi-byte UTF-8 sequence is
  represented by the characters before it.
- OcrPymupdf.ProcessPdfFile: when a page raises, the model takes the bytes written
  before it as the file's final contents. When the unclosed file's buffer reaches the
  disk is not modelled. A text file that cannot be created is the single `canCreate`
  flag for the whole output directory, and raises `OSError`.
- PageIndex.GetMdPages, PdfToMdTest.TestPymupdfNccn: each worker opens the document
  again; the model gives every worker the same document, so a worker's failure is the
  page's rendering raising. A broken worker pool, and the jobs still running when the
  exception leaves the `with` block, are left out.
- Textract.IsJobComplete, Textract.GetJobResults: a service that never reports a
  terminal status, or never stops sending tokens, would make the loops run forever.
  The model requires the scripted replies to end each loop, so it does not describe
  non-termination.
- Vector search itself, embedding, chunking, `index_faiss`/`index_lancedb` and the
  other parts of `src/index` beyond `base.py` are left out. `table.search(...).limit(k)`
  is its ranked result taken to the first `k` texts. The texts are given; their
  ranking is the library's.
- `from unstructured ... chunk_elements`: only the projection of chunks to `.text`
  (`get_chunks`) is modelled. The console output around it is left out.
- The evaluation step (`evaluate(...)`, src/ragProcessor.py:131-137 and
  src/baseProcessor.py:82-90) only logs its result. Its failures are not modelled:
  the model returns the chat reply as if the evaluation succeeded.
- The SYSTEM_PROMPT constants and the text of src/chat/prompt_templates.py are not
  part of this model. `RagChatting.Generate` records what is substituted into the
  system and user templates (`context=` and `report=`), not the formatted messages.
- The chat request's model, temperature and token limit are service parameters, not
  logic.
- `lancedb.connect` and `OpenAI(...)` in the constructors are left out. Opening the
  table in `RAGChat.__init__` is modelled by the `tableOpens` flag.
- ReportProcessing.ReportProcessor.constructor: `ReportProcessor` has no key check of
  its own. The model does not describe the OpenAI client raising about a missing key.
- `str.lower()` is modelled on ASCII letters only. Other characters never lower-case
  to one of ".pdf", so the `.pdf` filter is still exact.
- `Path.suffix` and `Path.stem` are modelled on the final name component, following
  CPython 3.12.
- Strings are sequences of Unicode scalar values. Lone surrogates, which Python's
  UTF-8 encoder rejects, cannot occur.
- Scores are stored and never computed with, so floats are `real`.
- Loading the results JSON and building the polars frame (notebooks/analyze.py:21-26,
  50-52) are I/O.
- `ProcessPoolExecutor` parallelism is left out. The pool is modelled by one
  completion order, which holds each job exactly once.
- The interactive `check` display of `test_pymupdf_nccn` (src/scripts/tests/test_pdf_to_md.py:69-77)
  is left out.
- The helpers shared by `ocr.py` and `src/scripts/ocr_aws.py` (src/scripts/ocr_aws.py:17-75)
  are the same code. Both use the `Textract` module.
- OcrAws.ScanWritesSucceeded, OcrPymupdf.ScanLastWins: they require that no later
  `.pdf` entry has the same stem. Without that, the later entry's file replaces the
  earlier one, as `OcrAws.CaseVariantsShareOutput` shows.
- OcrScript.ScanWritesSucceeded, OcrScript.ScanKeepsUnwritten: they require distinct
  entry names, which directory listings have.
- RagChatting.GenerateReturnsRetrieved: whitespace trimming is stated for chat answers
  only, not for the fixed error reply.

## Findings

| source | as written | input that shows it | evidently intended | confidence | as-written member | corrected member |
|---|---|---|---|---|---|---|
| src/scripts/ocr_aws.py:44-46 | `is_job_complete` stops only at SUCCEEDED or FAILED | a job that ends in PARTIAL_SUCCESS, which Textract reports on every later poll: the loop never returns (the same code is in ocr.py:43-44) | stop at every final status and return True only for SUCCEEDED | not executed | Textract.PartialSuccessPollsForever | Textract.PollFinal |

The rest of the model follows the code as written: `Textract.IsJobComplete`
requires a reply stream that stops the loop, which excludes this case.
`Textract.PollFinal` gives the corrected loop, and `Textract.PartialSuccessStops`
shows that it ends on this input.
