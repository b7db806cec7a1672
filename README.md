# SSYK occupation classifier: a Dafny model

The system is an MCP server that classifies job descriptions into Swedish SSYK 2012
occupation codes and reports income statistics for those codes. It is written in
Python. The model covers five parts:

- **The hybrid search engine** (`SearchEngine`). It loads the occupation table lazily
  and tokenizes one text per row for a BM25 index. It answers a query by min-max
  normalising the BM25 scores and, when an OpenAI client exists, the cosine scores.
  It fuses them as 0.3 · BM25 + 0.7 · vector and returns the top n rows. It returns
  nothing when no fused score is positive.
- **The income cache** (`SCBClient`). It loads `income_stats.json` on the first lookup
  and retries while loading fails. It answers a code with the code's stats plus
  `"ssyk_code"`, or with an explicit error map.
- **The OAuth set-up** (`build_auth`). It reads the environment and decides between
  no auth, a configuration error and a remote provider. Its helpers are `_split_csv`
  and `_is_truthy`.
- **Taxonomy ingestion**. It extracts the level-4 concepts from the SSYK tree in
  pre-order. It builds the `"title: description"` text of each occupation and embeds
  the texts in batches of 100.
- **The income pipeline** (`fetch_all_income_stats`). It reads the metric codes and
  the latest year from the SCB metadata and queries the codes in batches of 50. It
  folds every answered row into one stats dictionary per code.

Each source file maps to a module of the same shape:

| source | modules |
|---|---|
| `search.py` | `Tokenizer`, `Fusion`, `SearchEngine` |
| `scb_api.py` | `Scb` |
| `auth.py` | `Auth` |
| `ingestion.py` and `pipelines/ingest_all.py` | `Taxonomy`, `Batching`, `Income`, `IncomePipeline` |

`Text` holds the Python string operations these modules share. `Optional` holds the
option type.

The source's stateful objects are modelled as classes whose methods update fields.
These are `SearchEngine.Engine` and `Scb.SCBClient`. The loops of the ingestion code
are modelled as methods proved against specification functions. Examples are
`Taxonomy.ExtractLevel4`, `Batching.GenerateEmbeddings` and
`IncomePipeline.FetchAllIncomeStats`. The properties those loops promise are then
proved as lemmas about the specification functions.

Everything outside the process is a parameter. This covers the parquet and JSON
files, the environment, the BM25 library, the OpenAI and SCB requests and the
cosine similarity. A function-typed parameter answers `None` where the real call
raises.

## Model

| member | source | states |
|---|---|---|
| Text.Strip | services/mcp_server/src/ssyk_mcp/auth.py:15 | `strip()` never lengthens, leaves no whitespace at either end, and yields "" exactly for an all-whitespace string |
| Text.StripPadded | services/mcp_server/src/ssyk_mcp/auth.py:22 | surrounding whitespace does not change what `strip()` returns |
| Text.StripStripped | services/mcp_server/src/ssyk_mcp/auth.py:15 | `strip()` is the identity on a string with no whitespace at its ends |
| Text.SplitOn | services/mcp_server/src/ssyk_mcp/auth.py:18 | `split(",")` yields at least one piece and no piece contains the separator |
| Text.JoinSplit | services/mcp_server/src/ssyk_mcp/auth.py:18 | joining the pieces of a split with the separator gives the original string back |
| Text.SplitJoin | services/mcp_server/src/ssyk_mcp/auth.py:18 | splitting a join of separator-free pieces gives the pieces back |
| Tokenizer.RunLength | services/mcp_server/src/ssyk_mcp/search.py:21 | a regex match is a maximal run: all word characters, followed by a non-word character or the end |
| Tokenizer.LowerAll | services/mcp_server/src/ssyk_mcp/search.py:25 | `lower()` on a match lowers each character in place and keeps the length |
| Tokenizer.Tokenize | services/mcp_server/src/ssyk_mcp/search.py:21-25 | every token is non-empty and made only of digits and lower-case a-z, å, ä, ö |
| Tokenizer.TokenizeText | services/mcp_server/src/ssyk_mcp/search.py:24-25 | a null text (`text or ""`) has no tokens |
| Tokenizer.TokenizeNoWord | services/mcp_server/src/ssyk_mcp/search.py:21-25 | a text without word characters has no tokens |
| Tokenizer.TokenizeWord | services/mcp_server/src/ssyk_mcp/search.py:21-25 | a run of word characters is exactly one token, lowercased |
| Tokenizer.TokenizeSeparator | services/mcp_server/src/ssyk_mcp/search.py:21-25 | a non-word character splits a text: the tokens on either side neither merge nor change |
| Tokenizer.TokenizeJoined | services/mcp_server/src/ssyk_mcp/search.py:21-25 | tokens written out with spaces tokenize back to the same tokens |
| Tokenizer.TokenizeIdempotent | services/mcp_server/src/ssyk_mcp/search.py:21-25 | re-tokenizing the tokenizer's own output changes nothing |
| Fusion.Max | services/mcp_server/src/ssyk_mcp/search.py:139 | `np.max` is an element that bounds every element |
| Fusion.Min | services/mcp_server/src/ssyk_mcp/search.py:139 | `np.min` is an element that is bounded by every element |
| Fusion.ConstantIffMaxMin | services/mcp_server/src/ssyk_mcp/search.py:139 | max equals min exactly when all scores are equal |
| Fusion.Normalize | services/mcp_server/src/ssyk_mcp/search.py:138-141 | same length, every score in [0, 1]; all zeros for a constant vector; otherwise `(x - min) / (max - min)` |
| Fusion.NormalizeEnds | services/mcp_server/src/ssyk_mcp/search.py:141 | for a varying vector, minimum entries map to 0 and maximum entries to 1 |
| Fusion.NormalizeKeepsOrder | services/mcp_server/src/ssyk_mcp/search.py:138-141 | normalising never reverses two scores, and keeps strict order when the vector varies |
| Fusion.Fuse | services/mcp_server/src/ssyk_mcp/search.py:143-151 | the final vector has one score per row, each in [0, 1] |
| Fusion.FuseParts | services/mcp_server/src/ssyk_mcp/search.py:145-151 | without vector scores the final scores are the normalised BM25 scores; with them, 0.3 · BM25 + 0.7 · vector per row |
| Fusion.FuseMonotone | services/mcp_server/src/ssyk_mcp/search.py:143-151 | a row at least as good on both signals is scored at least as high |
| Fusion.NoPositiveScoreIff | services/mcp_server/src/ssyk_mcp/search.py:153-155 | the "everything is zero" early return happens exactly when every signal in play is constant across the corpus |
| Fusion.InsertDesc | services/mcp_server/src/ssyk_mcp/search.py:158 | inserting an index into a descending index list keeps it descending, distinct and in range, adding only that index |
| Fusion.SortIndicesDesc | services/mcp_server/src/ssyk_mcp/search.py:158 | sorting indices by score yields a descending permutation of the input indices |
| Fusion.TopN | services/mcp_server/src/ssyk_mcp/search.py:158 | `argsort(scores)[::-1][:n]`, taken over the indices 0..N-1 (Fusion.Range), is min(n, N) distinct rows, scores non-increasing, and no row left out scores higher than a row taken |
| SearchEngine.TokenizedCorpus | services/mcp_server/src/ssyk_mcp/search.py:38-43 | the BM25 corpus has exactly one token list per table row |
| SearchEngine.Render | services/mcp_server/src/ssyk_mcp/search.py:160-168 | one result per chosen index, in order, carrying that row's code, title and description and its final score |
| SearchEngine.RenderTop | services/mcp_server/src/ssyk_mcp/search.py:158-168 | the answer has min(n, N) entries, best first, and no row left out beats a returned one |
| SearchEngine.ClassifyQueryNotBlank | services/mcp_server/src/ssyk_mcp/server.py:28 | the `"{title}: {description}"` query (SearchEngine.ClassifyQuery) is never blank after `strip()` (SearchEngine.CleanQuery), so `search` always scores it |
| SearchEngine.ClassifyQueryTokens | services/mcp_server/src/ssyk_mcp/server.py:28 | the tokens of the query (SearchEngine.ClassifyQuery) are the title's followed by the description's; the ": " adds none |
| SearchEngine.Engine.constructor | services/mcp_server/src/ssyk_mcp/search.py:13-19 | a new engine has no table, no index and no client, is not ready, and has raised no notice |
| SearchEngine.Engine.LoadData | services/mcp_server/src/ssyk_mcp/search.py:27-57 | a missing file changes nothing; otherwise the table and the index built from it are installed together, a client exists if the key is set, and the engine is ready |
| SearchEngine.Engine.Search | services/mcp_server/src/ssyk_mcp/search.py:81-170 | loads lazily and never reloads; `[]` when loading fails, for a blank query, or when no fused score is positive; otherwise the top-n rows of the fused scores rendered in order; each notice flag is raised by the first query that meets its cause |
| SearchEngine.Engine.SemanticScores | services/mcp_server/src/ssyk_mcp/search.py:95-133 | the vector scores when a client exists and the call succeeds, else none; the "disabled" and "failed" flags are set by their first occurrence |
| SearchEngine.Rank | services/mcp_server/src/ssyk_mcp/search.py:153-168 | no positive score gives `[]`; otherwise a top selection rendered in its order |
| SearchEngine.RenderRows | services/mcp_server/src/ssyk_mcp/search.py:160-170 | the result loop appends exactly the rendered rows of the chosen indices |
| SearchEngine.NoticesAtMostOnce | services/mcp_server/src/ssyk_mcp/search.py:98-112 | each notice (disabled, failure diagnostics) is emitted at most once per engine |
| Auth.KeepNonBlank | services/mcp_server/src/ssyk_mcp/auth.py:18 | the list comprehension keeps at most one part per piece, each stripped and non-empty |
| Auth.KeepNonBlankSingle | services/mcp_server/src/ssyk_mcp/auth.py:18 | a single piece is kept, as its strip, exactly when its strip is non-empty |
| Auth.KeepNonBlankAppend | services/mcp_server/src/ssyk_mcp/auth.py:18 | the pieces are filtered one at a time in order: the parts of a concatenation are the parts of each half, concatenated |
| Auth.KeepNonBlankNoComma | services/mcp_server/src/ssyk_mcp/auth.py:18 | kept parts of comma-free pieces are clean list items |
| Auth.SplitCsv | services/mcp_server/src/ssyk_mcp/auth.py:12-18 | `[]` for an absent or blank value; every part is non-empty, stripped and comma free |
| Auth.StripJoin | services/mcp_server/src/ssyk_mcp/auth.py:15 | stripping a comma separated string only trims its first and last pieces, which stay comma free and strip as before |
| Auth.SplitCsvPieces | services/mcp_server/src/ssyk_mcp/auth.py:12-18 | for comma-free pieces, `_split_csv` of their ","-join is exactly the stripped non-blank pieces, in order, however they are padded |
| Auth.SplitCsvValue | services/mcp_server/src/ssyk_mcp/auth.py:12-18 | for every string, `_split_csv(value)` is `[p.strip() for p in value.split(",") if p.strip()]`: the outer `strip()` changes nothing |
| Auth.SplitCsvJoin | services/mcp_server/src/ssyk_mcp/auth.py:12-18 | clean parts joined with "," split back to exactly those parts |
| Auth.TruthyPadded | services/mcp_server/src/ssyk_mcp/auth.py:21-22 | `_is_truthy` (Auth.IsTruthy) ignores surrounding whitespace |
| Auth.TruthyCaseless | services/mcp_server/src/ssyk_mcp/auth.py:21-22 | `_is_truthy` (Auth.IsTruthy) ignores letter case |
| Auth.MissingVars | services/mcp_server/src/ssyk_mcp/auth.py:49-53 | the list is empty exactly when all three required variables are set and non-empty |
| Auth.MissingVarsExact | services/mcp_server/src/ssyk_mcp/auth.py:49-53 | a name is listed exactly when it is required and unset or empty, and no name twice |
| Auth.BuildAuth | services/mcp_server/src/ssyk_mcp/auth.py:42-58 | disabled exactly when AUTH_ENABLED is not truthy; an error exactly when enabled with variables missing, the message naming them joined by ", "; a provider only with all three set |
| Auth.ProviderArguments | services/mcp_server/src/ssyk_mcp/auth.py:60-81 | an enabled, complete set-up builds a provider from exactly the three variables, the base URL, the authorization-server list and the redirect list |
| Auth.AuthorizationServersParts | services/mcp_server/src/ssyk_mcp/auth.py:60-61 | the authorization servers (Auth.AuthorizationServers) are the stripped non-blank comma parts of AUTHORIZATION_SERVERS when it is non-empty, else of AUTH_ISSUER, else none |
| Auth.AllowedRedirectsParts | services/mcp_server/src/ssyk_mcp/auth.py:63-68 | a set AUTH_ALLOWED_REDIRECT_URIS, even "", gives (Auth.AllowedRedirects) the list of its stripped non-blank comma parts |
| Auth.DefaultAuthorizationServers | services/mcp_server/src/ssyk_mcp/auth.py:60-61 | with AUTHORIZATION_SERVERS unset or empty, a clean issuer URL is the only authorization server |
| Auth.ListedAuthorizationServers | services/mcp_server/src/ssyk_mcp/auth.py:60-61 | a comma-separated AUTHORIZATION_SERVERS list of clean URLs is used exactly as listed, whatever the issuer |
| Auth.RedirectDefaults | services/mcp_server/src/ssyk_mcp/auth.py:63-68 | AUTH_ALLOWED_REDIRECT_URIS set to "" gives an empty list, unset gives no list |
| Batching.BatchSizes | pipelines/ingest_all.py:54-55 | every batch holds between 1 and k texts |
| Batching.BatchesCover | pipelines/ingest_all.py:54-55 | the batches of `texts[i:i + k]` slices (Batching.Batches), concatenated, are exactly the input in order |
| Batching.BatchesCount | pipelines/ingest_all.py:54-56 | there are ceil(len / k) batches |
| Batching.BatchAt | pipelines/ingest_all.py:54-55 | batch j is the slice starting at j · k: every batch but the last is full |
| Batching.BatchesStep | pipelines/ingest_all.py:54-55 | the batches from a position are the slice there followed by the batches of the rest |
| Batching.EmbedBatchesFails | pipelines/ingest_all.py:57-66 | the request loop over the batches (Batching.EmbedBatches) fails exactly when some batch request fails; no partial list is returned |
| Batching.EmbedBatchesAligned | pipelines/ingest_all.py:57-63 | when each request answers one vector per text, the run yields one vector per input text |
| Batching.GenerateEmbeddings | pipelines/ingest_all.py:49-68 | the loop returns the concatenated answers of the consecutive batches of 100, or fails as soon as one request fails |
| Taxonomy.Level4IsPreOrderFilter | pipelines/ingest_all.py:33-47 | extraction (Taxonomy.Level4) yields exactly the level-4 nodes of the whole tree, in pre-order, each as its record (Taxonomy.Record): code, label, definition and id under their new names |
| Taxonomy.Level4Append | pipelines/ingest_all.py:33-47 | extraction distributes over concatenated sibling lists |
| Taxonomy.ExtractLevel4 | pipelines/ingest_all.py:33-47 | the recursive loop computes exactly the pre-order level-4 extraction |
| Taxonomy.SearchTextIsClassifyQuery | services/mcp_server/src/ssyk_mcp/ingestion.py:90 | the embedded text of an occupation (Taxonomy.SearchText) is the query `classify_occupation` builds from the same title and description |
| Taxonomy.SearchTextTokens | services/mcp_server/src/ssyk_mcp/ingestion.py:90 | the stored text tokenizes to the title's tokens followed by the description's, each field rendered as an f-string renders it, a null as "None" (Taxonomy.Render) |
| Taxonomy.TableOf | services/mcp_server/src/ssyk_mcp/ingestion.py:101-104 | the saved table has one row per occupation with its fields, text and vector, and a `search_text` column |
| Taxonomy.RunIngestion | services/mcp_server/src/ssyk_mcp/ingestion.py:73-108 | the concepts are read as `data.get("data", {}).get("concepts", [])` (Taxonomy.Concepts); each outcome happens exactly in its own case: no API key stops before embedding; failure exactly when a batch request over the texts (Taxonomy.TextsToEmbed, one per occupation in order) fails; a length mismatch exactly when the vectors do not line up; with a key and one vector per occupation, the table of the extracted occupations and their vectors is written; a service that answers one vector per text always leads there |
| Taxonomy.IngestionSucceeds | services/mcp_server/src/ssyk_mcp/ingestion.py:93-104 | with a service that answers one vector per text, ingestion with a key produces one vector per occupation |
| Taxonomy.IngestedCorpus | services/mcp_server/src/ssyk_mcp/ingestion.py:104 | the engine's BM25 corpus text (SearchEngine.CorpusText) for row i is that occupation's "title: description", and its vector is the i-th vector |
| Taxonomy.PipelineCodes | pipelines/ingest_all.py:245 | only non-empty codes are passed on, no more than there are occupations |
| Taxonomy.PipelineCodesMembers | pipelines/ingest_all.py:245 | a code is passed on exactly when it is non-empty and some occupation carries it |
| Income.Convert | pipelines/ingest_all.py:196-199 | a cell is stored as an int exactly when `int()` accepts it, else as its raw text |
| Income.ParseShow | pipelines/ingest_all.py:197 | every number written by `str` (Income.Show) reads back as itself through `int()` (Income.ParseInt) when it has at most 4300 digits, and is refused otherwise |
| Income.DigitLimit | pipelines/ingest_all.py:197-199 | a digit group is read, as the number it spells, exactly when it has at most 4300 digits (underscores not counted); a longer one makes `int()` raise and the cell stays text |
| Income.ParsePadded | pipelines/ingest_all.py:197 | whitespace that `int()` skips (ASCII space, `\t`, `\n`, `\v`, `\f`, `\r` and non-ASCII whitespace) around a number does not stop it reading the number |
| Income.IntStripPadded | pipelines/ingest_all.py:197 | that whitespace around a text does not change what `int()` reads after skipping it (Income.IntStrip) |
| Income.SeparatorIsNotSpace | pipelines/ingest_all.py:197-199 | a leading U+001F, which `strip()` would remove, makes `int()` raise, so the cell is stored as text |
| Income.SpaceIsSkipped | pipelines/ingest_all.py:197 | a leading space is skipped: " 7" reads as 7 |
| Income.NoLeadingDigit | pipelines/ingest_all.py:197 | a text with no skippable whitespace at its ends that starts with neither digit nor sign is not a number |
| Income.PlaceholdersAreText | pipelines/ingest_all.py:195 | ".." and "" are not numbers |
| IncomePipeline.AddPairs | pipelines/ingest_all.py:96-98 | pairing appends the first k codes in order and leaves the year alone |
| IncomePipeline.ParseMetadata | pipelines/ingest_all.py:88-100 | the metadata loop computes the codes, texts and year of one IncomePipeline.ApplyVariable step per variable (IncomePipeline.ReadMetadata), or fails on an empty `Tid` list |
| IncomePipeline.ReadMetadataFails | pipelines/ingest_all.py:99-100 | the metadata loop raises exactly when some `Tid` variable has no values |
| IncomePipeline.LatestYearDefault | pipelines/ingest_all.py:89-100 | without a `Tid` variable the year stays "2023" |
| IncomePipeline.LatestYear | pipelines/ingest_all.py:89-100 | the year is the last value of the last `Tid` variable, which is never empty when the loop succeeds |
| IncomePipeline.MetadataKeys | pipelines/ingest_all.py:93-98 | a code has a text exactly when it is one of the content codes |
| IncomePipeline.AddPairsText | pipelines/ingest_all.py:96-97 | with distinct codes, each code is named by the text at its own position |
| IncomePipeline.IndexOf | pipelines/ingest_all.py:161 | `index` finds the first occurrence, and fails only when there is none |
| IncomePipeline.MeasuresUnwritten | pipelines/ingest_all.py:192-195 | a metric that no stored cell names keeps its old value, and is present afterwards exactly when it was before |
| IncomePipeline.MeasuresKept | pipelines/ingest_all.py:192-199 | after the measure loop (IncomePipeline.ApplyMeasures), a metric holds the value of the last stored cell that names it |
| IncomePipeline.Cells | pipelines/ingest_all.py:193-199 | a cell stores `int(val)` or its raw text exactly when it is neither "" nor "..", and nothing otherwise |
| IncomePipeline.MeasuresLastWriter | pipelines/ingest_all.py:192-199 | the last usable cell naming a metric decides its stored value, which is `int(val)` or the raw text |
| IncomePipeline.MeasureStep | pipelines/ingest_all.py:192-199 | one more measure writes its converted value exactly when the cell is usable and inside the row |
| IncomePipeline.MeasuresKeysGrow | pipelines/ingest_all.py:192-199 | storing measures never removes a key |
| IncomePipeline.RowKeepsYear | pipelines/ingest_all.py:186-189 | a row (IncomePipeline.ApplyRow) adds exactly its own code, leaves every other code's stats alone, and keeps "year" in every entry |
| IncomePipeline.FoldRowsKeepsYear | pipelines/ingest_all.py:179-199 | the row loop (IncomePipeline.FoldRows) never drops a code or a "year" entry |
| IncomePipeline.AnswerKeepsYear | pipelines/ingest_all.py:147-205 | one batch's answer (IncomePipeline.ApplyAnswer) never drops a code or a "year" entry |
| IncomePipeline.BatchesKeepYear | pipelines/ingest_all.py:114-207 | after the batch loop (IncomePipeline.ApplyBatches), every code in the saved dictionary has a "year" entry |
| IncomePipeline.UnusableAnswers | pipelines/ingest_all.py:157-164 | a failed request, an answer without `Yrke2012` among its column codes (IncomePipeline.ColumnCodes) or one without `data` leaves the stats unchanged |
| IncomePipeline.StoreMeasures | pipelines/ingest_all.py:192-199 | the measure loop stores exactly the specified values |
| IncomePipeline.FindMeasures | pipelines/ingest_all.py:168-177 | the column loop computes the metric names (IncomePipeline.MeasureNames): the k-th "c" column names the k-th value, by its metadata text or its code |
| IncomePipeline.StoreAnswer | pipelines/ingest_all.py:157-199 | the row loop applies the rows in order and stops at the first row too short for `Yrke2012`, keeping earlier updates |
| IncomePipeline.FetchAllIncomeStats | pipelines/ingest_all.py:70-212 | nothing is written when the metadata fails or has no metrics; otherwise the batches of 50 are applied in order, each posted as the query (IncomePipeline.Query) of the batch, all metrics and the latest year |
| Scb.Lookup | services/mcp_server/src/ssyk_mcp/scb_api.py:33-40 | an unknown or empty code gives the error map (Scb.NotFound); otherwise the stats plus "ssyk_code", the stats winning a collision |
| Scb.SCBClient.constructor | services/mcp_server/src/ssyk_mcp/scb_api.py:8-10 | a new client holds no data and is not loaded |
| Scb.SCBClient.LoadData | services/mcp_server/src/ssyk_mcp/scb_api.py:12-24 | a missing or unreadable file leaves the client unchanged; a readable one replaces the data and marks it loaded |
| Scb.SCBClient.GetIncomeStatistics | services/mcp_server/src/ssyk_mcp/scb_api.py:26-40 | loads only while not loaded and never reloads; answers from the data held afterwards |
| Scb.FoundIff | services/mcp_server/src/ssyk_mcp/scb_api.py:33-40 | the answer carries "ssyk_code" exactly when the code was found |
| Scb.EmptyLookup | services/mcp_server/src/ssyk_mcp/scb_api.py:33-35 | a client without data answers every code with the error message |
| Scb.SavedCodesFound | services/mcp_server/src/ssyk_mcp/scb_api.py:33-40 | every code the pipeline saved is found, with its "year" |

## Left out

- Fusion.TopN: the order among equal scores is not promised. `np.argsort` with the default sort is not stable, so the model promises only what NumPy does.
- SearchEngine.Engine.Search: the BM25 scores and the cosine similarities are parameters. The BM25 formula and the cosine computation belong to `rank_bm25` and NumPy. Scores are exact reals, not floats, so NaN and rounding are not modelled.
- SearchEngine.Engine.LoadData: requires a table with at least one row. On an empty table `BM25Okapi` divides by the corpus size and `np.max` raises.
- The printed messages, the DNS lookup and the HTTP probe after a failed embedding call are not modelled. Two ghost counters remain: `disabledNotices` counts the "Vector search disabled" notice (search.py:98-103), and `diagnosticRuns` counts runs of the DNS and HTTP diagnostic block (search.py:111-132). The "Vector search failed" line that search.py:110 prints on every failed call is not counted, nor are the individual DNS and HTTP result lines.
- The `id` column is not carried into the search engine's rows, because search never reads it.
- Auth.BuildAuth: the `AnyHttpUrl`, `JWTVerifier` and `RemoteAuthProvider` objects are not built. The model returns the arguments they receive. URL validation is not modelled.
- Auth.IsTruthy: `lower()` is modelled on ASCII letters only. No other character lowers to a character of "1", "true", "yes", "y" or "on", so the outcome is the same.
- Income.ParseInt: `int()` accepts non-ASCII decimal digits. The model accepts ASCII digits only, because SCB cells are ASCII. The digit limit is CPython's default of 4300; a limit changed through `PYTHONINTMAXSTRDIGITS` or `sys.set_int_max_str_digits` is not modelled. The whitespace it skips is modelled as CPython skips it: the six ASCII whitespace characters and the non-ASCII ones, not U+001C to U+001F.
- Income.Show: `str()` of a number with more than 4300 digits also raises in CPython. The model writes every number out; Income.ParseShow then states that `int()` refuses such a text.
- Parsing failures of the parquet and JSON files are not modelled separately. Neither are JSON values of an unexpected type: a non-dict file, a non-string cell, or a variable, column or data item missing a key it reads. A variable without `code`, or a `ContentsCode` or `Tid` variable without `values` or `valueTexts`, raises outside any `try` (pipelines/ingest_all.py:92-100). A data item without `key` or `values` raises inside the batch `try` and drops the rest of that batch (pipelines/ingest_all.py:180-181).
- Taxonomy.Level4: a `narrower` key holding null is not modelled; the Taxonomy.Concept datatype has no null for it. A missing `narrower` key is modelled as an empty list, which extraction treats the same way.
- `download_ssyk_taxonomy`, the file writes and `time.sleep` are I/O and are not modelled.
- `run_ingestion` in pipelines/ingest_all.py (lines 214-246) differs from the server's copy in two ways. It does not check the API key, and it does not write `search_text`. Its search then falls back to titles. Only the code filter at line 245 is modelled, as Taxonomy.PipelineCodes.
- Batching.GenerateEmbeddings: the vectors in an answer are not checked against the batch length, as in the source. Taxonomy.RunIngestion reports a length mismatch where pandas would raise.
- IncomePipeline.StoreAnswer: an answer whose rows put `Yrke2012` at a different key position than its column position is read as the source reads it. Whether SCB orders dimensions first is not modelled.

## Behaviour worth knowing

- The classification query is always `title + ": " + description`, even when the description is blank (`SearchEngine.ClassifyQuery`).
- Equal scores may come back in any order. `np.argsort` does not promise ascending row order among ties.
