# A model of the RAG challenge pipeline's deterministic core

The repository is a retrieval-augmented question-answering pipeline over
company reports. Its retrieval, reranking and question-answering classes live
in modules that are not part of this model. What is modelled here is the
deterministic list and string handling around them:

- **Ingestion** (`src/ingestion.py`).
  - Which chunk texts of a report are embedded: non-blank ones, cut to 2048 characters.
  - The validation in `_get_embeddings` and its three-attempt retry.
  - The two batching loops. They cut the texts into batches of 25, check each provider response and stop at the first failure.
  - The faiss flat index as a (dimension, vectors) record.
  - The BM25 corpus: one whitespace token list per chunk.
  - `_sanitize_filename`.
- **Pipeline bookkeeping** (`src/pipeline.py`).
  - `PipelineConfig` path derivation.
  - `_get_next_available_filename` over a finite set of existing paths.
  - The answer normalisation of `answer_single_question`. It strips a code fence, parses, re-serialises, or wraps the text as `final_answer`.
  - The company-name lookup over metadata rows.
- **Answer display** (`app_streamlit.py:55-94`).
  - Parsing the answer record and its `content`: directly, then fence-stripped, then kept as raw text.
  - Extracting the four displayed fields with their defaults.
  - End-to-end lemmas that join this to the pipeline's normalisation.
- **`.env` editing** (`get_valid_api_key.py`, `fix_api_key.py`).
  - Finding the first `DASHSCOPE_API_KEY=` line, then replacing it or appending one.
  - Masking the key for display.
  - Reading the value and checking its length.

Python's `str.isspace` (and so regex `\s`, `strip()` and `split()`) is one
exact predicate, `PyText.IsSpace`.

Four things are parameters of the model rather than part of it:

- `json.loads`, `json.dumps` and `str()`, as the record `PyRuntime`. The round trip `loads(dumps(v)) == v` is the hypothesis `DumpsRoundTrips`.
- NFKC normalisation and Unicode `\w`, as the record `UnicodeTables`.
- Each embedding provider, as a function from (attempt number, batch) to a response.
- The answers typed at `input()`, as method arguments.

Modules:

- `Results`: Option and Result.
- `PyText`: Python string primitives.
- `AnswerFormat`: JSON values and the code-fence regex.
- `Pipeline`, `StreamlitApp`.
- `Batching`: the shared batching scheme.
- `SanitizeFilename`, `VectorDbIngestor`, `Bm25Ingestor`.
- `DotEnv`, `GetValidApiKey`, `FixApiKey`.

## Model

| member | source | states |
|---|---|---|
| PyText.StripWhere | src/ingestion.py:255 | the result of `s.strip(chars)` neither starts nor ends with a stripped character, is no longer than `s`, and is empty exactly when every character is stripped |
| PyText.StripWhereDecomposes | src/ingestion.py:255 | `s` is `pre + s.strip(chars) + post` with `pre` and `post` made of stripped characters only |
| PyText.Strip | src/pipeline.py:437 | `s.strip()` neither starts nor ends with whitespace, and is empty exactly when the text is blank |
| PyText.StripKeepsPrefix | fix_api_key.py:29-31 | stripping a line that starts with a prefix which neither starts nor ends with whitespace keeps that prefix |
| PyText.StripAround | src/pipeline.py:437 | `strip()` removes exactly blank text around a middle part that neither starts nor ends with whitespace |
| PyText.StripWideSpaces | get_valid_api_key.py:25 | `str.isspace` counts the no-break space U+00A0 and the ideographic space U+3000 as whitespace, so `strip()` removes them |
| PyText.StripKeepsZeroWidthSpace | get_valid_api_key.py:25 | the zero-width space U+200B is not whitespace and stays, while the separator U+001C is stripped |
| PyText.Min | src/ingestion.py:121-122 | `min(a, b)`: no larger than either argument and equal to one of them |
| PyText.Split | src/ingestion.py:34 | every token of `s.split()` is non-empty and free of whitespace |
| PyText.SplitKeepsNonSpace | src/ingestion.py:34 | the tokens spell out exactly the non-whitespace characters of the text, in order |
| PyText.SplitAtSpace | src/ingestion.py:34 | splitting around a whitespace character splits each side on its own |
| PyText.SplitBeforeSpace | src/ingestion.py:34 | a text followed by nothing or by whitespace splits on its own: the split of `a + r` is the split of `a` followed by the split of `r` |
| PyText.SplitJoinRoundTrip | src/ingestion.py:34 | splitting `" ".join(tokens)` gives back any list of proper tokens |
| PyText.DecimalString | src/pipeline.py:358 | decimal digits, no leading zero, one digit exactly below ten |
| PyText.DecimalStringRoundTrip | src/pipeline.py:358 | reading the decimal string back gives the number |
| PyText.Pad2 | src/pipeline.py:358 | `f"{n:02d}"` has at least two digits, exactly two below 100: a leading '0' before the single digit below ten, the plain decimal string from ten on |
| PyText.Pad2RoundTrip | src/pipeline.py:358 | reading the padded string back gives the number |
| PyText.Pad2Injective | src/pipeline.py:358 | distinct counters give distinct strings |
| AnswerFormat.Get | app_streamlit.py:86-89 | `d.get(key, default)`: the member when present, otherwise the default |
| AnswerFormat.FenceHeadEnd | src/pipeline.py:437 | the `^```(?:json)?\s*` match is empty unless the text starts with three backticks; otherwise it covers the backticks, a following "json" when there is one, and the whole run of whitespace after them |
| AnswerFormat.FenceTailStart | src/pipeline.py:437 | the `\s*```$` match is empty unless the text ends with three backticks after the head match; otherwise it starts after the last non-whitespace character before them, or at the head match when only whitespace lies between |
| AnswerFormat.StripCodeFence | src/pipeline.py:437 | removing the two regex matches never lengthens the text, and a result cut from a stripped text neither starts nor ends with whitespace |
| AnswerFormat.CutEnds | src/pipeline.py:437 | the head match ends no later than the tail match starts, and the text between them neither starts nor ends with whitespace when the original did not |
| AnswerFormat.CleanFenced | src/pipeline.py:437 | `re.sub(..., answer.strip())` neither starts nor ends with whitespace and is the stripped text itself when that neither starts nor ends with a fence |
| AnswerFormat.UnfencedUnchanged | src/pipeline.py:437 | text that neither starts nor ends with backticks is left as it is |
| AnswerFormat.FencedBodyRecovered | src/pipeline.py:437 | a body fenced by "```" or "```json", a newline before and after, comes back exactly |
| AnswerFormat.FencedBodyTagged | src/pipeline.py:437 | a body between "```json\n" and "\n```" comes back exactly |
| AnswerFormat.FencedBodyUntagged | src/pipeline.py:437 | a body between "```\n" and "\n```" comes back exactly |
| AnswerFormat.OpeningJsonFenceOnly | src/pipeline.py:437 | an opening "```json\n" with no closing fence is removed on its own |
| AnswerFormat.OpeningFenceOnly | src/pipeline.py:437 | an opening "```\n" with no closing fence is removed on its own |
| AnswerFormat.FencesOnOneLine | src/pipeline.py:437 | "```json" + body + "```" on one line gives the body |
| Pipeline.Join | src/pipeline.py:37-57 | `p / name` has parent `p` and name `name` |
| Pipeline.RFind | src/pipeline.py:352-353 | the last occurrence of a character, or -1 when there is none |
| Pipeline.Suffix | src/pipeline.py:353 | `.suffix`: empty, or a final part of the name that starts with its only '.', has a character after it and is not the whole name; empty only when the name has no '.' or its last '.' is its first or its last character |
| Pipeline.Stem | src/pipeline.py:352 | `.stem`: a prefix of the name, the whole name when there is no suffix, and empty only for an empty name |
| Pipeline.StemSuffixSplitName | src/pipeline.py:352-353 | stem and suffix put together are the file name |
| Pipeline.NewPipelineConfig | src/pipeline.py:32-57 | subset, questions file and PDF directory are `root / <given name>`; the answers file is `root/"answers"+suffix+".json"`; `databases` (with "_ser_tab" when serialised) and `debug_data` sit under the root; vector_dbs, chunked_reports and bm25_dbs under the databases directory; the dirnames are "01_parsed_reports", "01_parsed_reports_debug", "02_merged_reports" and "03_reports_markdown", the last two with "_ser_tab" when serialised; the four report paths are the debug directory joined with those dirnames |
| Pipeline.SerializedSuffixOnly | src/pipeline.py:35-52 | setting `serialized` appends "_ser_tab" to the databases directory and the merged and markdown dirnames, changes what derives from them and nothing else |
| Pipeline.Numbered | src/pipeline.py:358-359 | the numbered candidate stays in the base path's directory; the shape of its name is stated by `Pipeline.NumberedShape` |
| Pipeline.NumberedShape | src/pipeline.py:358-359 | `parent / f"{stem}_{counter:02d}{suffix}"` stays in the same directory and gains one '_' and the padded counter, so it differs from the base name |
| Pipeline.NumberedInjective | src/pipeline.py:358-359 | distinct counters name distinct paths |
| Pipeline.NextAvailableFilename | src/pipeline.py:344-363 | returns a path not in the file system: the base path when it is free, otherwise `parent/stem_NN suffix` for the smallest free counter ≥ 1, which is at most one more than the number of existing paths, so the loop ends |
| Pipeline.NormalizeAnswer | src/pipeline.py:426-446 | a dict or str answer becomes `{"content": <string>}`; anything else is returned unchanged |
| Pipeline.NormalizedContentDecodes | src/pipeline.py:426-446 | the content decodes to the dict answer itself (both dict branches alike), to the parsed fence-stripped text when it parses, and otherwise to `{"final_answer": <original answer>}` |
| Pipeline.LookupCompanyName | src/pipeline.py:231-234 | the company name of the first row whose file name contains the stem or whose sha1 equals it; "" when no row matches or the metadata cannot be read |
| StreamlitApp.AnswerDict | app_streamlit.py:56-63 | a string answer is parsed, or becomes `{}` when it does not parse; a non-string answer is used as it is |
| StreamlitApp.ParsedContent | app_streamlit.py:69-82 | string content is parsed directly, then fence-stripped, and otherwise kept raw; other content unchanged |
| StreamlitApp.FieldsOf | app_streamlit.py:85-94 | dict content gives its four fields with defaults "-", "-", [], "-"; other content gives "-", "-", [] and `str(content)` |
| StreamlitApp.ExtractAnswerFields | app_streamlit.py:55-94 | fields exist exactly when the answer dict is a dict; with a "content" key they are the fields of the parsed content, and without one the dict itself is the content |
| StreamlitApp.NonJsonStringAnswerGivesDefaults | app_streamlit.py:56-89 | a string answer that is not JSON shows all four defaults, final answer "-" included |
| StreamlitApp.DictAnswerEndToEnd | src/pipeline.py:426-433 | a dict answer from the pipeline is displayed by app_streamlit.py:55-94 with the dict's own fields |
| StreamlitApp.JsonTextAnswerEndToEnd | src/pipeline.py:434-441 | a JSON text answer is displayed by app_streamlit.py:55-94 with the fields of its parsed value |
| StreamlitApp.PlainTextAnswerEndToEnd | src/pipeline.py:442-444 | a plain text answer is displayed by app_streamlit.py:55-94 as final answer with "-", "-", [] |
| StreamlitApp.TheAnswerIs42 | src/pipeline.py:444 | "The answer is 42" ends, after app_streamlit.py:66-89, as the final answer with "-", "-", [] |
| StreamlitApp.CleanFencedIdentity | app_streamlit.py:77 | text without surrounding whitespace or backticks is its own fence-stripped form |
| DotEnv.FirstApiKeyLine | get_valid_api_key.py:40-41 | the first line starting with "DASHSCOPE_API_KEY=" (the same search as fix_api_key.py:28-29), with no such line before it, or none when no line does |
| GetValidApiKey.MaskKey | get_valid_api_key.py:20 | the display has the key's length, shows its first min(10, len) characters and '*' for the rest |
| GetValidApiKey.ConfirmsYesMeans | get_valid_api_key.py:33-34 | the answer confirms exactly when it is a single 'y' or 'Y' with only whitespace around it |
| GetValidApiKey.AcceptsKeyMeans | get_valid_api_key.py:25-36 | a key starting with "sk-" is taken whatever the answer; any other key only when it is non-empty and confirmed |
| GetValidApiKey.UpdateApiKeyInEnv | get_valid_api_key.py:7-51 | writes exactly when the stripped key is non-empty and starts with "sk-" or is confirmed with "y"; then the first key line is replaced by `DASHSCOPE_API_KEY=<key>\n`, or that line is appended when there is none; otherwise nothing changes |
| GetValidApiKey.OnlyFirstKeyLineReplaced | get_valid_api_key.py:39-44 | every other line is unchanged, and the new line starts with the key prefix |
| FixApiKey.IndexOf | fix_api_key.py:31 | the first occurrence of a character, or none |
| FixApiKey.ApiKeyValue | fix_api_key.py:31 | `line.strip().split("=", 1)[1]`: the stripped line starts with the prefix and the value is everything after it, later '=' signs included |
| FixApiKey.KeyLineHasEquals | fix_api_key.py:31 | on a key line, the text after the first '=' of the stripped line starts right after the prefix |
| FixApiKey.ApiKeyValueShape | fix_api_key.py:31 | the value has no trailing whitespace or newline |
| FixApiKey.CheckAndFixApiKey | fix_api_key.py:12-57 | no file or no key line: False, nothing written; a value of at least 20 characters: True, unchanged; a shorter one: True with only the found line replaced when the stripped replacement is non-empty, otherwise False with nothing changed |
| Batching.Collect | src/ingestion.py:121-186 | the batch loop succeeds exactly when every batch does, and an error is always the error of one of the batches |
| Batching.OkValues | src/ingestion.py:132-133 | one entry per batch, holding that batch's vectors when it succeeded |
| Batching.CollectFlatten | src/ingestion.py:132-133 | a successful loop's vectors are the batches' vectors put together in order |
| Batching.CollectOutcome | src/ingestion.py:121-186 | the loop succeeds iff every batch does, then with all their vectors in order, and otherwise fails with some batch's error |
| Batching.CollectFailsAt | src/ingestion.py:120-186 | the first failing batch's error is the result of the whole call |
| Batching.CollectErrSticks | src/ingestion.py:135-186 | an error stays the result however many batches follow |
| Batching.CollectShape | src/ingestion.py:121-140 | the call then yields the total number of vectors of its batches, each with the batches' common property |
| Batching.CollectKeeps | src/ingestion.py:121-140 | a property of every batch's vectors holds of the call's vectors |
| Batching.BatchAt | src/ingestion.py:121-147 | batch k is `texts[25k : 25k+25]`, and there are ⌈n/25⌉ of them |
| Batching.BatchSizes | src/ingestion.py:120-122 | each batch has 1 to 25 texts, all but the last exactly 25 |
| Batching.Batches | src/ingestion.py:121-122 | there are no batches exactly when there are no texts, and each batch has 1 to 25 texts |
| Batching.BatchesFlatten | src/ingestion.py:121-122 | the batches put back together are the input |
| SanitizeFilename.ReplaceUnkept | src/ingestion.py:250 | every character outside `[\w\-_.一-鿿]` becomes '_', the others stay, and the length is kept |
| SanitizeFilename.ReplaceNonAscii | src/ingestion.py:257 | every non-ASCII character becomes '_', the others stay, and the length is kept |
| SanitizeFilename.Cut | src/ingestion.py:252-253 | a prefix of at most 30 characters, the whole text when it is short enough |
| SanitizeFilename.Sanitize | src/ingestion.py:245-258 | the result has 1 to 30 characters, each an ASCII letter, digit, '_', '-' or '.' |
| SanitizeFilename.CjkBecomesUnderscore | src/ingestion.py:250-257 | "中abc" becomes "_abc": the CJK character survives the strip and is replaced after it |
| SanitizeFilename.HexDigestIsCut | src/ingestion.py:245-258 | a 40-digit hexadecimal sha1 (the fallback name of src/ingestion.py:237) becomes its first 30 digits |
| SanitizeFilename.NothingLeftGivesDefault | src/ingestion.py:258 | a name of underscores and refused characters only becomes "default_filename" |
| VectorDbIngestor.Truncate | src/ingestion.py:210-211 | `t[:2048]`: a prefix of length min(len, 2048) |
| VectorDbIngestor.SelectChunkTexts | src/ingestion.py:204-211 | at most one text per chunk, each at most 2048 characters |
| VectorDbIngestor.SelectedIndices | src/ingestion.py:204 | the positions of the chunks with a non-blank "text", strictly increasing, and containing every such position |
| VectorDbIngestor.SelectChunkTextsExact | src/ingestion.py:204-211 | the texts sent are exactly those chunks' texts, in order, each cut to 2048 characters |
| VectorDbIngestor.FilterNonBlank | src/ingestion.py:105-108 | only non-blank entries remain, no more of them than entries, and nothing remains exactly when all are blank |
| VectorDbIngestor.NonBlankIndices | src/ingestion.py:106 | the positions of the non-blank entries, strictly increasing, and containing every such position |
| VectorDbIngestor.FilterNonBlankExact | src/ingestion.py:106 | the filter keeps exactly the non-blank entries, in their order |
| VectorDbIngestor.FilterNonBlankKeepsNonBlank | src/ingestion.py:106 | a list without blank entries passes through unchanged |
| VectorDbIngestor.FilterSelectionIsEmbedded | src/ingestion.py:211 | after the second filter (src/ingestion.py:106), what is embedded is the texts whose first 2048 characters are not blank |
| VectorDbIngestor.ItemResult | src/ingestion.py:165-170 | an entry succeeds exactly when its embedding is neither null nor empty, and then yields it |
| VectorDbIngestor.NativeBatchResult | src/ingestion.py:155-182 | a 401 status is the authentication error and any other non-200 status the generic API error; with 200 an "embeddings" list succeeds iff no entry is empty and gives their vectors in order, a single "embedding" succeeds iff it is not empty and gives that vector, and an output that is not a dict or has neither key is the unexpected-format error |
| VectorDbIngestor.ItemsResultIff | src/ingestion.py:163-170 | a list response succeeds iff no entry is empty, and then gives each entry's vector in order; otherwise the first empty entry's error is the result |
| VectorDbIngestor.ItemsInOrder | src/ingestion.py:165-170 | a successful list gives one vector per entry, the entry's own, in order |
| VectorDbIngestor.CompatBatchResult | src/ingestion.py:123-137 | the response's vectors, or the exception's message as the error |
| VectorDbIngestor.EmbedNative | src/ingestion.py:142-189 | the loop's result is the batch-by-batch specification over `Batches(texts)` with the native response checks |
| VectorDbIngestor.EmbedOpenAiCompatible | src/ingestion.py:117-140 | the loop's result is the batch-by-batch specification over `Batches(texts)` with the compatible client |
| VectorDbIngestor.ValidatedTexts | src/ingestion.py:92-108 | a blank single string is refused and any other is sent alone; a list is refused exactly when all its entries are blank and otherwise sent as `FilterNonBlank` of it; what passes is non-empty and non-blank |
| VectorDbIngestor.EmbedBatches | src/ingestion.py:112-186 | the embedding call succeeds exactly when every batch of 25 does, with all their vectors in order, and otherwise fails with some batch's error |
| VectorDbIngestor.AttemptEmbeddings | src/ingestion.py:90-115 | input the checks refuse fails with the check's own error before the provider is asked; a success implies the input passed |
| VectorDbIngestor.RetryFrom | src/ingestion.py:89 | the retry from a given attempt succeeds iff one of the attempts up to the third does, with the vectors of one of them, and otherwise fails with the third attempt's error |
| VectorDbIngestor.GetEmbeddings | src/ingestion.py:89-115 | a success comes from a validated input and is the result of one of the three attempts |
| VectorDbIngestor.RetryFirstSuccess | src/ingestion.py:89 | when attempt a is the first to succeed, the retry gives its vectors |
| VectorDbIngestor.RetryOutcome | src/ingestion.py:89 | the decorated call succeeds iff one of three attempts does, with the first successful attempt's vectors, and otherwise fails with the third attempt's error |
| VectorDbIngestor.InvalidInputFails | src/ingestion.py:89-108 | input the checks refuse fails on every attempt, whatever the provider |
| VectorDbIngestor.CreateVectorDb | src/ingestion.py:191-197 | an index exists exactly when there are vectors of one common length; it holds them all and has that length as its dimension |
| VectorDbIngestor.ProcessReport | src/ingestion.py:199-222 | no "chunks" key fails; no selected text gives the empty 1024-dimension index whatever the provider; selected texts that are all blank once cut fail; otherwise a failed embedding call on the selected texts is the error, and a successful one is handed to `_create_vector_db`, so an index holds exactly the returned vectors, at least one, with the first one's length as its dimension shared by all |
| VectorDbIngestor.GoodBatch | src/ingestion.py:155-170 | a provider that answers as documented gives one vector of the dimension per text of the batch |
| VectorDbIngestor.WellBehavedEmbeddings | src/ingestion.py:89-189 | with such a provider a list with a non-blank entry is embedded as one vector of the dimension per non-blank entry |
| VectorDbIngestor.WellBehavedNativeIndex | src/ingestion.py:199-222 | with such a provider the index has that dimension and one vector per embedded text |
| VectorDbIngestor.Spaces | src/ingestion.py:211 | a blank string of the given length |
| VectorDbIngestor.BlankPrefixChunkFails | src/ingestion.py:204-211 | 2048 spaces followed by "x" pass the first filter, are cut to blanks and dropped by src/ingestion.py:106-108, and the report fails |
| Bm25Ingestor.CreateBm25Index | src/ingestion.py:32-35 | one token list per chunk, which is `Split` of the chunk, spelling out the chunk's non-whitespace characters with non-empty whitespace-free tokens |
| Bm25Ingestor.Bm25ReportTexts | src/ingestion.py:53 | every chunk's text, blank ones included, in order; none when a chunk lacks "text" |
| Bm25Ingestor.TokensOfJoinedText | src/ingestion.py:34 | a text of space-separated proper tokens is indexed as exactly those tokens |
| Bm25Ingestor.IndexesDiverge | src/ingestion.py:204-222 | a blank chunk before "a" gives two BM25 entries (src/ingestion.py:53) but one vector |

## Left out

- File and network I/O are not modelled. This covers reading and writing `.env`, JSON, pickle and faiss files, `glob`, `mkdir`, and CSV reading. The file system is only a set of paths, and a missing or unreadable file is `None`.
- `process_reports` of both ingestors are not modelled: they are loops of file I/O around the modelled per-report functions. BM25 scoring (`BM25Okapi`) and faiss search are library code with floating point. Vectors are sequences of reals that are never computed with.
- The provider clients are parameters, not calls.
  - The model names and `dimensions=1024` passed to them are fixed arguments that are not represented.
  - A response depends only on the attempt number and the batch contents.
  - For the compatible client, any exception becomes one `ClientError` message.
- The retry wait (`wait_fixed(20)`), logging and `print` output are not modelled.
- `VectorDbIngestor.ItemResult` treats a missing "embedding" key like a null one. Both abort the batch; only Python's error text differs (`KeyError` against the empty-embedding error). A non-integer "text_index" is not represented.
- `VectorDbIngestor.CreateVectorDb` does not model faiss's behaviour for dimension 0. `BM25Okapi` rejecting an empty corpus is not modelled either.
- The type check at src/ingestion.py:102 is not modelled: inputs are strings by typing. A chunk "text" that is not a string is not represented either.
- The API-key check in the `VectorDBIngestor` constructor (src/ingestion.py:66-87) is not modelled: it reads the environment.
- NFKC normalisation and Unicode `\w` are parameters. Python strings may hold lone surrogates, which Dafny's `char` cannot.
- `json.loads`, `json.dumps` and `str()` are parameters. `Pipeline.NormalizeAnswer` models only the `JSONDecodeError` path of `json.loads`; other exceptions are not represented.
- `pathlib` follows the suffix rules of Python up to 3.11. Only `/`, `.name`, `.stem`, `.suffix` and `.parent` are modelled.
- The rest of `_create_basic_structure` is not modelled: the demo page text, the output file, and the exception handler's message. The failure to read the metadata CSV becomes `None`.
- `Pipeline.MetaRow` holds each CSV cell as the string `str()` gives inside src/pipeline.py:232. Empty cells that pandas reads as NaN (`"nan"`) or numeric cells (`"123"`, `"1.0"`) are assumed already converted. `company_name` is written as the raw cell at src/pipeline.py:233, so a NaN or numeric company name is not represented.
- `GetValidApiKey.UpdateApiKeyInEnv` appends the key line as a separate list element. When the file's last line has no trailing newline, `writelines` at get_valid_api_key.py:46-51 glues the new line onto it, so the key line that lands on disk is not a separate line. The model does not represent that.
- These parts are not modelled at all: the retrieval, reranking and question-answering classes, which come from modules outside this model; `src/pdf_mineru.py`, an HTTP polling client; `src/generate_signed_urls.py` and `src/upload_pdf.py`, cloud storage scripts; and Streamlit rendering and the environment check (app_streamlit.py:13-53, app_streamlit.py:96-138).
