# golang-faq-app in Dafny

This project models the answer-matching core of golang-faq-app, a Go web service that answers free-text questions from a set of FAQ sources. The model covers:

- **The FAQ service** (`FaqService`, services/faq_service.go). It loads its question sources in order, stopping at the first that reports an error, and after each clean load seeds a Redis-style cache with each question's JSON-encoded answer (a write that fails is skipped). To answer a query it first looks the query up in that cache. On a miss it scores the query against every question of every source: each word gets a process-wide numeric ID (`WordIds`), and the score is the Dice coefficient of the query's and the question's ID sets. Questions scoring above 0.55 are kept at a confidence rounded to two decimals. The kept answers are sorted by confidence, the best `maxAnswers` are returned, and "no matching answers found" is returned when none is left.
- **The older QA service** (`QaService`, services/qa_service.go). It has the same pipeline without the cache and without word IDs. Its score counts the question's words (with repeats) that also occur in the query. Its results carry only the answer, the confidence and the timestamp.
- **The question-source interface** (`QuestionSource`, interfaces/faq_source.go) and its five implementations:
  - a local CSV file (`LocalCsv`);
  - a local Excel file, first sheet (`LocalExcel`);
  - a CSV file over HTTP (`RemoteCsv`);
  - an Excel file over HTTP (`RemoteExcel`);
  - the older Excel handler under services/handlers, which reads sheet "Sheet1" (`LegacyExcel`).

  Each handler keeps a question-to-answer map that `LoadQuestions` fills from rows of at least two columns. The local handlers log every failure and report none. The remote and older handlers return their failures.

Supporting modules:

- `QuestionTable`: row ingestion, lookup by case-insensitive substring, and collecting a question map.
- `Text`: lower-casing, whitespace splitting, Thai detection, tokenizing.
- `Similarity`: Dice ratio, the 0.55 threshold, two-decimal rounding.
- `Ranking`: sorting by descending confidence, truncation, flattening.
- `ResultCache`: the key-value store.
- `Json`: the JSON values the cache holds.
- `World`: files, HTTP responses, workbooks.
- `Wrappers`: Option and Result.

In both services the threshold test `similarity > 0.55` on a float64 becomes the exact test `100 * num > 55 * den` on the ratio `Ratio(num, den)`. `math.Round(x * 100) / 100` becomes `Hundredths`, the integer nearest to `100 * num / den` with halves rounded up (what math.Round does on non-negative values), followed by a division by 100.

`containsThai` and `cutThaiWord` appear twice, at services/faq_service.go:222-239 and services/qa_service.go:148-165. `Text.ContainsThai` and the `Segmenter` parameter stand for both copies. `calculateSimilarityParallel` is declared twice as well, at services/faq_service.go:173 and services/qa_service.go:103, with different bodies; each copy has its own model (`FaqService.CalculateSimilarityParallel`, `QaService.CalculateSimilarityParallel`).

## Model

| member | source | states |
|---|---|---|
| QuestionSource.LoadQuestions | interfaces/faq_source.go:4 | Loading through the interface reports the handler's own error (none for the two local handlers), and the question map becomes the handler's rows ingested over what it held. |
| QuestionSource.Reported | interfaces/faq_source.go:4 | The local CSV and Excel handlers never report an error; the other three report one exactly when their read fails. |
| QuestionSource.LoadedIdempotent | interfaces/faq_source.go:4 | Loading a source a second time from the same environment leaves its map as one load does. |
| QuestionSource.FindAnswer | interfaces/faq_source.go:5 | Returns no error, the answer of some question that contains the query when one does, and "" when none does. |
| QuestionSource.Tables | interfaces/faq_source.go:6 | The list of the sources' question maps, one per source in source order. |
| QuestionSource.TablesPrefix | interfaces/faq_source.go:6 | The maps of the first i sources are the first i maps. |
| QuestionSource.QuestionsUnchanged | interfaces/faq_source.go:6 | A source's map is unchanged while none of the handler objects changes. |
| QuestionSource.TablesUnchanged | interfaces/faq_source.go:6 | The whole list of maps is unchanged while none of the handler objects changes. |
| QuestionSource.SameObjectSameSource | interfaces/faq_source.go:3-7 | Two sources behind the same handler object are the same source, so a handler added twice is one source. |
| QuestionSource.LoadedCount | services/faq_service.go:55-58 | The number of sources that load cleanly before the first one reporting an error; that one, if any, does report an error. |
| QuestionSource.LoadedCountClean | services/faq_service.go:55-58 | Every source before the first failing one loads without an error. |
| QuestionSource.CleanOneMore | services/faq_service.go:55-58 | A clean prefix followed by a clean source is a longer clean prefix. |
| QuestionSource.CountFromClean | services/faq_service.go:55-58 | A clean prefix of length i followed by a failing source, or covering every source, means the count is i. |
| QuestionSource.LoadTargets | services/faq_service.go:55-58 | The maps each source holds after one load from the environment, for every source. |
| QuestionSource.TargetAt | services/faq_service.go:55-58 | Target k is source k's map after one load. |
| QuestionSource.LoadOne | services/faq_service.go:56 | Loading source i reports that source's error, and after it the sources up to i hold their one-load maps while later ones are untouched. |
| QuestionSource.LoadedResult | services/faq_service.go:55-58 | After loading the first sources in order, a source's map is its one-load map if it is among them and its old map otherwise, which also covers duplicate handlers. |
| QuestionSource.LoadedPrefixIsTarget | services/faq_service.go:55-58 | The maps of the loaded prefix are their targets. |
| QuestionSource.LoadsFinished | services/faq_service.go:55-58 | When the loop stops at a failing source or at the end, the number loaded is the clean count and the error is that source's report, or none. |
| QuestionTable.IngestLastWriteWins | handlers/csv_handler.go:46-50 | After ingesting rows, a question is present iff it was before or some row of two or more cells names it; its answer is that of the last such row, otherwise its old answer. |
| QuestionTable.IngestInsertOnly | handlers/csv_handler.go:46-50 | Ingesting never removes a question and keeps every answer that no row overrides. |
| QuestionTable.IngestIdempotent | handlers/csv_handler.go:46-50 | Ingesting the same rows twice gives the map that ingesting them once gives. |
| QuestionTable.IngestRows | handlers/csv_handler.go:46-50 | The row loop computes the ingestion of the rows over the existing map. |
| QuestionTable.Put | handlers/csv_handler.go:46-50 | One row never removes a question and adds at most one. |
| QuestionTable.Ingest | handlers/csv_handler.go:46-50 | Ingesting rows never removes a question and adds at most one per row. |
| QuestionTable.IngestReadIdempotent | handlers/csv_handler.go:19-53 | Re-ingesting the outcome of the same read, failed or not, changes nothing more. |
| QuestionTable.Contains | handlers/csv_handler.go:57 | strings.Contains: true iff the pattern occurs at some position of the text. |
| QuestionTable.EmptyQueryMatches | handlers/csv_handler.go:57 | The empty query is contained in every question, so it matches any question. |
| QuestionTable.Lookup | handlers/csv_handler.go:55-62 | The map loop returns the answer of some question whose lower-cased text contains the lower-cased query, and "" when no question does. |
| QuestionTable.CollectQuestions | services/faq_service.go:120-126 | The question list holds exactly the map's questions, and the reverse map equals the source's map. |
| QuestionTable.DistinctWithin | services/faq_service.go:131-145 | A list without repeats drawn from a set is no longer than the set, so there are no more results than questions. |
| LocalCsv.Read | handlers/csv_handler.go:20-43 | The CSV records succeed iff the file exists, opens and parses; they are then the parsed records. |
| LocalCsv.CSVHandler.constructor | handlers/csv_handler.go:15-17 | A handler for the path with an empty map. |
| LocalCsv.CSVHandler.LoadQuestions | handlers/csv_handler.go:19-53 | No error is ever returned; on a failed read the map is unchanged, otherwise the records are ingested. |
| LocalCsv.CSVHandler.FindAnswer | handlers/csv_handler.go:55-62 | No error; some matching question's answer, or "" when no question matches. |
| LocalCsv.CSVHandler.GetQuestions | handlers/csv_handler.go:65-67 | The handler's own map. |
| LocalExcel.Read | handlers/excel_handler.go:21-42 | The rows succeed iff the file exists, opens as a workbook and its first sheet's rows can be read; they are then those rows. |
| LocalExcel.ExcelHandler.constructor | handlers/excel_handler.go:16-18 | A handler for the path with an empty map. |
| LocalExcel.ExcelHandler.LoadQuestions | handlers/excel_handler.go:20-52 | No error is ever returned; on a failed read the map is unchanged, otherwise the first sheet's rows are ingested. |
| LocalExcel.ExcelHandler.FindAnswer | handlers/excel_handler.go:54-61 | No error; some matching question's answer, or "" when no question matches. |
| LocalExcel.ExcelHandler.GetQuestions | handlers/excel_handler.go:64-66 | The handler's own map. |
| RemoteCsv.Fetch | handlers/remote_csv_handler.go:22-44 | The records succeed iff the URL answers with status 200 and a body that parses as CSV; a non-200 status is reported with its code. |
| RemoteCsv.RemoteCSVHandler.constructor | handlers/remote_csv_handler.go:17-19 | A handler for the URL with an empty map. |
| RemoteCsv.RemoteCSVHandler.LoadQuestions | handlers/remote_csv_handler.go:21-54 | Returns the fetch's error and leaves the map unchanged on failure; otherwise ingests the records and returns no error. |
| RemoteCsv.RemoteCSVHandler.FindAnswer | handlers/remote_csv_handler.go:56-63 | No error; some matching question's answer, or "" when no question matches. |
| RemoteCsv.RemoteCSVHandler.GetQuestions | handlers/remote_csv_handler.go:66-68 | The handler's own map. |
| RemoteExcel.Fetch | handlers/remote_excel_handler.go:22-49 | The rows succeed iff the URL answers with status 200, the body opens as a workbook and its first sheet reads; a non-200 status is reported with its code. |
| RemoteExcel.RemoteExcelHandler.constructor | handlers/remote_excel_handler.go:17-19 | A handler for the URL with an empty map. |
| RemoteExcel.RemoteExcelHandler.LoadQuestions | handlers/remote_excel_handler.go:21-59 | Returns the fetch's error and leaves the map unchanged on failure; otherwise ingests the rows and returns no error. |
| RemoteExcel.RemoteExcelHandler.FindAnswer | handlers/remote_excel_handler.go:61-68 | No error; some matching question's answer, or "" when no question matches. |
| RemoteExcel.RemoteExcelHandler.GetQuestions | handlers/remote_excel_handler.go:71-73 | The handler's own map. |
| LegacyExcel.Open | services/handlers/excel_handler.go:19-28 | The rows succeed iff the file opens as a workbook with a readable sheet named "Sheet1"; they are then that sheet's rows. |
| LegacyExcel.ExcelHandler.constructor | services/handlers/excel_handler.go:14-16 | A handler for the path with an empty map. |
| LegacyExcel.ExcelHandler.LoadQuestions | services/handlers/excel_handler.go:18-36 | Returns the open or read error and leaves the map unchanged on failure; otherwise ingests the rows. |
| LegacyExcel.ExcelHandler.FindAnswer | services/handlers/excel_handler.go:38-45 | No error; some matching question's answer, or "" when no question matches. |
| LegacyExcel.ExcelHandler.GetQuestions | services/handlers/excel_handler.go:48-50 | The handler's own map. |
| Text.Lower | services/faq_service.go:181 | Lower-casing keeps the length and maps every character through the same per-character lower-casing. |
| Text.ContainsThai | services/faq_service.go:232-239 | True iff some character of the text lies in the Thai block. |
| Text.WordLength | services/faq_service.go:184 | The length of the leading run of non-space characters; the character after it, if any, is a space. |
| Text.Fields | services/faq_service.go:184 | strings.Fields: every field is non-empty and space-free. |
| Text.NonSpaceOfWord | services/faq_service.go:184 | Dropping the spaces from a text that starts with a word keeps that word in front. |
| Text.FieldsKeepNonSpace | services/faq_service.go:184 | The fields, concatenated, are exactly the text's non-space characters in order. |
| Text.FieldsOfBlank | services/faq_service.go:184 | A text made only of spaces has no fields. |
| Text.Gaps | services/faq_service.go:184 | The whitespace around the fields: one run more than there are fields, every run blank, the inner runs non-empty, and the first non-empty when the text starts with a space. |
| Text.InterleavePrefix | services/faq_service.go:184 | Text in front of the first gap joins that gap. |
| Text.InterleaveCons | services/faq_service.go:184 | A leading gap and word come first in the rebuilt text. |
| Text.InterleaveWord | services/faq_service.go:184 | A leading word after an empty gap rebuilds the text from its first n characters and the rest. |
| Text.SplitAfterSpace | services/faq_service.go:184 | A leading space joins the first gap and the split still rebuilds the text. |
| Text.SplitAfterWord | services/faq_service.go:184 | A leading word becomes the first field and the split still rebuilds the text. |
| Text.FieldsSplit | services/faq_service.go:184 | The fields, with the gaps between them, give back the whole text. |
| Text.WordLengthOf | services/faq_service.go:184 | A run of non-space characters ended by a space or by the end of the text is the first field's length. |
| Text.FieldsUnique | services/faq_service.go:184 | Any reading of the text as words separated by non-empty whitespace runs has exactly the fields as its words; with FieldsSplit, the fields are the maximal runs of non-space characters. |
| Text.TokensOfText | services/faq_service.go:180-201 | Thai text is tokenized by the segmenter after lower-casing; any other text's tokens are the lower-cased text's fields, each one a word, together its non-space characters, and with the whitespace between them the whole text. |
| Similarity.Hundredths | services/faq_service.go:135 | math.Round(similarity * 100): the rounded value is within half a unit of 100 times the ratio, with halves rounded upward. |
| Similarity.IntersectionSmaller | services/faq_service.go:204-205 | The intersection is no larger than either set. |
| Similarity.DiceBounded | services/faq_service.go:209 | 2|A∩B| / (|A|+|B|) never exceeds 1. |
| Similarity.DiceSymmetric | services/faq_service.go:209 | The score does not depend on which side is the query. |
| Similarity.EmptySetsNeverPass | services/faq_service.go:208-209 | Two empty word sets give 0/0, which never passes the threshold, as the float NaN does not. |
| Similarity.CancelFactor | services/faq_service.go:133 | Cancelling a positive factor from a strict inequality. |
| Similarity.PassingConfidence | services/faq_service.go:133-135 | A ratio of at most 1 that passes the 0.55 threshold has a positive denominator and a rounded confidence between 0.55 and 1.00. |
| Similarity.PassingConfidenceFloor | services/qa_service.go:88-91 | Any passing ratio, even one above 1, rounds to a confidence of at least 0.55. |
| Similarity.SignOfProduct | services/faq_service.go:133 | Multiplying by a positive number keeps the sign. |
| Similarity.PassesAboveThreshold | services/faq_service.go:133 | With a positive denominator the integer test holds iff num/den > 0.55; a zero numerator, 0/0 included, never passes. |
| Similarity.CastProduct | services/faq_service.go:135 | Converting to real commutes with multiplication. |
| Similarity.QuotientBounds | services/faq_service.go:135 | Bounds on a quotient from bounds on the dividend. |
| Similarity.ConfidenceNearest | services/faq_service.go:135 | The confidence is the ratio rounded to the nearest hundredth: at most 0.005 above it and less than 0.005 below it. |
| Ranking.Insert | services/faq_service.go:100-102 | Inserting into the sorted list adds exactly that element. |
| Ranking.ConsSorted | services/faq_service.go:100-102 | An element at least as confident as every element of a sorted list can head it. |
| Ranking.HeadDominates | services/faq_service.go:100-102 | The head of a sorted list dominates the list after a smaller element is inserted behind it. |
| Ranking.InsertSorted | services/faq_service.go:100-102 | Insertion keeps a list sorted by descending confidence. |
| Ranking.SortDesc | services/faq_service.go:100-102 | sort.Slice by descending confidence: the result is sorted and a permutation of the pool. |
| Ranking.TopKeepsBest | services/faq_service.go:105-107 | The first n of a sorted list are sorted, come from the list, and none of the dropped elements is more confident than a kept one. |
| Ranking.SortThenCut | services/faq_service.go:100-107 | Sorting and then keeping min(n, size) elements gives n or all of the pool's best answers in descending order. |
| Ranking.FlattenOneMore | services/faq_service.go:95-97 | Appending one source's results to the accumulated slice extends the concatenation by exactly those results. |
| ResultCache.KeyValueStore.constructor | redis/redis_service.go:22-24 | An empty store, as for a fresh server; no contract depends on it, since every cache-changing method is stated against the store's prior entries. |
| ResultCache.KeyValueStore.Get | services/faq_service.go:84 | A returned value is the one stored under the key; a missing key always misses; any single call may also miss, as on a connection error, whatever other calls did. |
| ResultCache.KeyValueStore.Set | services/faq_service.go:69 | A successful call stores the value with its expiry under the key and changes nothing else; a failed call is taken as not applied and changes nothing; each call may fail on its own. |
| WordIds.ImageIntersection | services/faq_service.go:204 | Through an injective ID map, the IDs of the common words are the common IDs. |
| WordIds.ImageSize | services/faq_service.go:205 | Through an injective ID map, a word set and its ID set have the same size. |
| WordIds.IdSetsMirrorWordSets | services/faq_service.go:203-209 | With distinct IDs, the intersection and the cardinalities the bitmaps give are those of the word sets. |
| WordIds.IdSetStable | services/faq_service.go:164-171 | The ID set of known words does not change when the catalog only gains words. |
| WordIds.WordCatalog.constructor | services/faq_service.go:22-23 | The empty word map with the counter at 0. |
| WordIds.WordCatalog.GetWordID | services/faq_service.go:150-161 | A known word gets its stored ID and nothing changes; a new word gets the counter, is recorded, and the counter advances mod 2^32; the catalog invariant (distinct IDs below the counter until it wraps) is kept. |
| WordIds.NumberedInsert | services/faq_service.go:154-158 | Giving a new word the counter's value and advancing the counter mod 2^32 keeps the numbering invariant. |
| WordIds.IdSetSnoc | services/faq_service.go:166-169 | Adding a word's ID to the bitmap extends the ID set by that ID. |
| WordIds.IdSetSize | services/faq_service.go:164-171 | The bitmap of a word list has at most one ID per word. |
| WordIds.CreateBitmapFromWords | services/faq_service.go:164-171 | The bitmap is the ID set of the words; no entry changes, and the catalog's words become exactly the old ones plus the listed words. |
| FaqService.DecodeItems | services/faq_service.go:89 | Decoding an array yields one result per element, a zero-valued result where an element is not an object. |
| FaqService.Decode | services/faq_service.go:89 | json.Unmarshal into the nil slice: JSON null succeeds with no results; any other non-array value fails with no results; an array gives one result per element and succeeds iff every element decodes. |
| FaqService.EncodeResult | services/faq_service.go:26-32 | json.Marshal of an AnswerResult: an object whose keys are exactly the five JSON tags, with a number under "confidence" and strings under the others. |
| FaqService.EncodeItems | services/faq_service.go:26-32 | One encoded object per result, in order. |
| FaqService.EncodeResults | services/faq_service.go:84-91 | A result list as the cache would hold it: an array with one encoded object per result, in order. |
| FaqService.DecodeEncode | services/faq_service.go:84-91 | A cached result list decodes back to exactly the list it was encoded from. |
| FaqService.DecodeEncodeResult | services/faq_service.go:26-32 | The JSON object with the five tagged fields decodes back to the same result. |
| FaqService.DecodeEncodeItems | services/faq_service.go:89 | Element by element, encoded results decode to themselves. |
| FaqService.SeededValueFallsThrough | services/faq_service.go:62-89 | A seeded answer (a JSON string) does not decode as a result list, so a cache hit on a question text falls through to the search with nothing in the pool. |
| FaqService.IdScore | services/faq_service.go:203-209 | The bitmap score never exceeds 1 when the catalog's IDs are distinct. |
| FaqService.IdScoreIsWordScore | services/faq_service.go:203-209 | With distinct IDs, the bitmap score equals the Dice score of the tokenized word sets. |
| FaqService.ScoreSymmetric | services/faq_service.go:203-209 | Swapping query and question changes neither the bitmap score nor the word score. |
| FaqService.IdScoreStable | services/faq_service.go:149-161 | New words registered by other questions do not change an earlier score. |
| FaqService.IdScoreOrderFree | services/faq_service.go:190-200 | While fewer than 2^32 words have IDs, two catalogs built in any registration order give the question the same score. |
| FaqService.ScoredAgainstStable | services/faq_service.go:188-216 | Scores computed earlier in the loop stay correct as later questions grow the catalog. |
| FaqService.ScoreQuestion | services/faq_service.go:190-215 | One goroutine: no entry of the catalog changes, its words become exactly the old ones plus the question's tokens, and the similarity is the bitmap score against the query's bitmap. |
| FaqService.TokensOfOneMore | services/faq_service.go:188-201 | The words of one more question are the words of the others plus that question's tokens. |
| FaqService.TokensOfListed | services/faq_service.go:120-129 | The question list and the source's map give the same words. |
| FaqService.InPrefixOneMore | services/faq_service.go:188 | The first i+1 questions are the first i and question i. |
| FaqService.TokensOfPrefix | services/faq_service.go:188-201 | Once question i is scored, the catalog's words are the starting words plus those of the first i+1 questions. |
| FaqService.ScoreNext | services/faq_service.go:189-215 | One goroutine's contribution: the catalog gains exactly question i's tokens, the query's bitmap stays its ID set, and the results score exactly the first i+1 questions under the new catalog. |
| FaqService.ScoredOneMore | services/faq_service.go:188-216 | Scoring question i after the first i gives the loop state for i+1: scores for exactly those questions and the catalog grown by exactly their words. |
| FaqService.ScoredEvery | services/faq_service.go:188-219 | After the last question the results cover exactly the questions and the catalog has grown by exactly their words. |
| FaqService.CalculateSimilarityParallel | services/faq_service.go:173-220 | There is one score per question and no other key, and each score is the question's score under the final catalog; the catalog's words become exactly the old ones plus the query's and the questions' tokens. |
| FaqService.ScoresOf | services/faq_service.go:173-220 | The score map over exactly the given questions. |
| FaqService.ScoredAgainstIsScoresOf | services/faq_service.go:173-220 | The similarity map is the question set's score map, and every score is at most 1. |
| FaqService.FilterPassing | services/faq_service.go:131-145 | The results are exactly the passing questions, each with its answer, rounded confidence, the query and the timestamp. |
| FaqService.SearchTable | services/faq_service.go:116-147 | searchWithConfidence on a question map: the results are exactly the map's passing questions under the final catalog, and the catalog gains exactly the query's tokens and those of the map's questions. |
| FaqService.SearchResultsExactlyPassing | services/faq_service.go:131-145 | A question yields a result iff it is one of the source's questions and passes the threshold; there are no more results than questions. |
| FaqService.SearchResultsConfident | services/faq_service.go:133-143 | Every result has a confidence between 0.55 and 1.00, the query, the timestamp, and the answer the source gives its matched question. |
| FaqService.SearchResultsStable | services/faq_service.go:149-161 | A source's results stay correct after later sources add words to the catalog. |
| FaqService.SeedEntries | services/faq_service.go:60-73 | Seeding adds every question key with json.Marshal(answer) and a one-day expiry, and keeps every other entry. |
| FaqService.SeedEntriesUpdate | services/faq_service.go:60-73 | Seeding with one more question stores that question's answer over the seeding of the others. |
| FaqService.Stored | services/faq_service.go:60-73 | The questions whose Set succeeded, with their answers: the part of the source's map that reaches the cache. |
| FaqService.StoredAll | services/faq_service.go:55-74 | Stored, for each source in turn. |
| FaqService.SeedAll | services/faq_service.go:55-74 | Seeding several maps in order never removes an entry. |
| FaqService.SeedOneMore | services/faq_service.go:60-73 | Seeding one more question writes that question's entry over the previous seeding. |
| FaqService.SeedAllKeys | services/faq_service.go:55-74 | After seeding several sources, the keys are the old keys plus every question of every seeded source. |
| FaqService.SeedAllStrings | services/faq_service.go:55-74 | Every seeded question maps to a JSON string. |
| FaqService.SeedAllKeeps | services/faq_service.go:55-74 | An entry that no seeded source has as a question is kept as it was. |
| FaqService.SeedAllStoresAnswers | services/faq_service.go:55-74 | The three above together; also, no freshly seeded entry decodes as a result list. |
| FaqService.SeedAllOneMore | services/faq_service.go:55-74 | Seeding one more source seeds over the previous sources' seeding. |
| FaqService.SeedAllValues | services/faq_service.go:55-74 | Every entry after seeding holds its old value or the JSON answer its key has in one of the maps. |
| FaqService.SeedAllSnoc | services/faq_service.go:55-74 | Seeding one more map writes it over the seeding of the maps before. |
| FaqService.SeedingWithFailures | services/faq_service.go:55-74 | Seeding in which any Set may have failed: no entry is lost; every key is an old key or a question of some source; a key that no source has keeps its value; every value is the old one or the key's answer in one of the sources; no new entry decodes as a result list. |
| FaqService.SeedWithinKeys | services/faq_service.go:55-74 | Seeding with parts of the sources' maps: which keys there are afterwards, that a key no source has is kept, and that no new entry decodes as a result list. |
| FaqService.SeedWithinValues | services/faq_service.go:55-74 | Seeding with parts of the sources' maps: every value is the old one or the key's answer in one of the sources. |
| FaqService.SeedPrefixOneMore | services/faq_service.go:55-74 | Seeding one more source's successful writes goes over the seeding of the sources before it. |
| FaqService.SeedPrefixIsSeedAll | services/faq_service.go:55-74 | Seeding source by source equals seeding the list of their stored maps. |
| FaqService.FAQService.constructor | services/faq_service.go:40-46 | A service with no sources, the given maxAnswers, the given cache and the process word catalog. |
| FaqService.FAQService.AddSource | services/faq_service.go:48-50 | The source is appended to the source list. |
| FaqService.FAQService.SearchWithConfidence | services/faq_service.go:116-147 | The results are exactly the source's passing questions under the final catalog; the catalog's words become exactly the old ones plus the query's tokens and those of the source's questions; no source's map changes. |
| FaqService.FAQService.InitializeFAQCache | services/faq_service.go:241-259 | `written` is the set of the source's questions whose Set succeeded; the cache becomes the old entries with each of those questions set to json.Marshal(answer) and a one-day expiry, and nothing else changes. |
| FaqService.FAQService.SearchAll | services/faq_service.go:95-97 | The results of all sources are concatenated in source order, and each source's part is its search results under the final catalog; the catalog's words become exactly the old ones plus, when there is a source, the query's tokens and those of every source's questions. |
| FaqService.FAQService.SearchNext | services/faq_service.go:95-97 | One iteration: source i is searched, the catalog gains exactly the query's tokens and those of source i's questions, no source changes, and the per-source results now cover the first i+1 sources. |
| FaqService.SearchedOneMore | services/faq_service.go:95-97 | Searching source i after the first i gives the loop state for i+1. |
| FaqService.TokensOfUnion | services/faq_service.go:95-97 | The words of two question sets together are the words of each. |
| FaqService.VocabularyStep | services/faq_service.go:95-97 | After source i's search the catalog has gained the vocabulary of the first i+1 sources. |
| FaqService.SearchResultsAt | services/faq_service.go:95-97 | The k-th part of the accumulated results is source k's search results. |
| FaqService.SameSearch | services/faq_service.go:116-147 | The search-result relation carries over to equal arguments. |
| FaqService.ExtendResults | services/faq_service.go:95-97 | Adding one source's results extends the per-source relation by that source. |
| FaqService.NextResults | services/faq_service.go:95-97 | The relation for the earlier sources, carried into a grown catalog, extended by source i. |
| FaqService.TakeOneMore | services/faq_service.go:95-97 | The prefix of length i+1 is the prefix of length i plus element i. |
| FaqService.KeepEarlierResults | services/faq_service.go:95-97 | Results of earlier sources stay correct when later sources grow the catalog. |
| FaqService.FAQService.FindBestAnswer | services/faq_service.go:78-114 | `cached` is what Get returned: a value only for a key that is present, then its stored value. A hit that decodes is returned unchanged and the catalog is untouched. Otherwise the pool is the partly decoded hit followed by every source's passing results in order, the catalog gains exactly the vocabulary of the query and the sources, and the answer is the pool's best maxAnswers in descending confidence, or NotFound iff that is empty. |
| FaqService.FAQService.SearchAndRank | services/faq_service.go:94-113 | After a miss: every source's results appended to the given start, the catalog grown by exactly the vocabulary, and the pool's best maxAnswers in descending confidence, or NotFound iff the pool is empty or maxAnswers is 0. |
| FaqService.RankAnswers | services/faq_service.go:99-113 | Sort and cut: NotFound iff the answers are empty or maxAnswers is 0; otherwise the best maxAnswers (all when fewer) in descending confidence. |
| FaqService.FAQService.LoadAllSources | services/faq_service.go:52-76 | Loads the sources in order and stops at the first error, which it returns. Every source up to and including that one holds its one-load map. The cache ends as the old entries seeded, source by source, with those questions of the cleanly loaded sources whose Set succeeded (`written`, one set per such source); the failing source's questions are not cached. |
| FaqService.FAQService.LoadInOrder | services/faq_service.go:55-74 | The loop of LoadAllSources under the same promise. |
| FaqService.FAQService.LoadUntilError | services/faq_service.go:55-74 | The loop itself: i sources load cleanly, the error is source i's report (none when i is the number of sources), every source up to and including the failing one holds its one-load map, and the cache is seeded with the first i targets' successful writes. |
| FaqService.FAQService.LoadAndSeed | services/faq_service.go:56-73 | One iteration: source i is loaded and reports its error; on no error its successful writes are seeded over those of the sources before, and on an error the cache is not touched. |
| FaqService.FAQService.SeedSource | services/faq_service.go:60-73 | The seeding loop for one loaded source: its questions whose Set succeeded are written over the seeding before, and no source's map changes. |
| FaqService.FinishedOutcome | services/faq_service.go:55-75 | A pass that loaded every source cleanly ends without an error. |
| FaqService.ServiceIsNoSource | services/faq_service.go:34-38 | The service object is none of its handler objects. |
| FaqService.HandlerIsNotStore | services/faq_service.go:34-38 | A handler object is not the cache. |
| FaqService.CatalogIsNoSource | services/faq_service.go:21-24 | The word catalog is none of the handler objects. |
| QaService.CountIn | services/qa_service.go:130-134 | The number of question words (repeats counted) found in the query's word set, never more than the question's length. |
| QaService.ListScore | services/qa_service.go:136 | The score numerator is at most twice the question's length, and a 0 denominator comes with a 0 numerator. |
| QaService.TokenizeOfText | services/qa_service.go:116-122 | Without the Thai flag the tokens are the lower-cased text's fields: each one a word, together its non-space characters, and with the whitespace between them the whole text; with the flag, the segmenter's output. |
| QaService.QaScore | services/qa_service.go:113-136 | Tokenized by the query's own script, a 0 denominator comes with a 0 numerator. |
| QaService.ElemsSize | services/qa_service.go:124-128 | A word list has no more distinct words than entries. |
| QaService.LastIsNew | services/qa_service.go:124-134 | In a list without repeats, the last word is absent from the words before it. |
| QaService.NoRepeatsSize | services/qa_service.go:124-128 | A list without repeats has as many distinct words as entries. |
| QaService.CountInNoRepeats | services/qa_service.go:130-134 | Without repeats in the question, the count is the size of the common word set. |
| QaService.ListScoreIsDice | services/qa_service.go:124-136 | With no repeats in either list, the QA score is the Dice score of the two word sets. |
| QaService.ListScoreBounded | services/qa_service.go:136 | A question without repeated words scores at most 1. |
| QaService.RepeatsExceedOne | services/qa_service.go:130-136 | Query "a" against question "a a a" scores 6/4, passes, and rounds to a confidence of 1.50. |
| QaService.QaScoreIsDice | services/qa_service.go:113-136 | When query and question use the same script and have no repeats, the score is the Dice score of their token sets. |
| QaService.MatchCount | services/qa_service.go:124-134 | The word-map and count loops compute how many question words occur in the query. |
| QaService.ScoreQuestion | services/qa_service.go:113-141 | One goroutine's similarity equals the QA score of the query and the question. |
| QaService.ScoresOf | services/qa_service.go:103-146 | The score map over exactly the given questions. |
| QaService.CalculateSimilarityParallel | services/qa_service.go:103-146 | One entry per question, each its QA score. |
| QaService.FilterPassing | services/qa_service.go:88-99 | The results are exactly the passing questions, each with its answer, rounded confidence and the timestamp. |
| QaService.SearchResultsExactlyPassing | services/qa_service.go:88-99 | A question yields a result iff it is one of the source's questions and passes; there are no more results than questions. |
| QaService.SearchResultsConfident | services/qa_service.go:88-98 | Every result carries its question's answer, the timestamp and a confidence of at least 0.55, at most 1.00 when the question has no repeated words. |
| QaService.SearchResultsAt | services/qa_service.go:51-53 | The k-th part of the accumulated results is source k's search results. |
| QaService.SearchNext | services/qa_service.go:51-53 | One iteration: source i's search results extend the per-source relation to the first i+1 sources. |
| QaService.ExtendResults | services/qa_service.go:51-53 | Adding one source's results extends the per-source relation by that source. |
| QaService.NextResults | services/qa_service.go:51-53 | The relation extended by source i's search results. |
| QaService.PoolIsPassing | services/qa_service.go:51-53 | The pool holds one result per passing question of every source, each with confidence at least 0.55 and the timestamp. |
| QaService.QAService.constructor | services/qa_service.go:27-32 | A service with no sources and the given maxAnswers. |
| QaService.QAService.AddSource | services/qa_service.go:34-36 | The source is appended to the source list. |
| QaService.QAService.SearchWithConfidence | services/qa_service.go:72-101 | The results are exactly the source's passing questions. |
| QaService.QAService.SearchAll | services/qa_service.go:51-53 | All sources' results concatenated in source order, each part that source's search results. |
| QaService.SearchEach | services/qa_service.go:51-53 | The loop over the sources under the same promise. |
| QaService.QAService.FindBestAnswer | services/qa_service.go:47-70 | The pool is every source's passing results in order; the answer is the pool's best maxAnswers in descending confidence, or NotFound iff that is empty. |
| QaService.QAService.LoadAllSources | services/qa_service.go:38-45 | Loads the sources in order and stops at the first error, which it returns. Every source up to and including that one holds its one-load map, and later sources are untouched. |
| QaService.LoadInOrder | services/qa_service.go:38-45 | The loop of LoadAllSources under the same promise. |
| QaService.LoadUntilError | services/qa_service.go:39-44 | The loop itself: i sources load cleanly, the error is source i's report (none when all loaded), and every source up to and including the failing one holds its one-load map. |
| QaService.ServiceIsNoSource | services/qa_service.go:22-25 | The service object is none of its handler objects. |

## Left out

- FaqService.FAQService.FindBestAnswer and QaService.QAService.FindBestAnswer require `maxAnswers >= 0`. With a negative value `len(allAnswers) > s.maxAnswers` always holds, so `allAnswers[:s.maxAnswers]` panics on every call that reaches it, an empty pool included (services/faq_service.go:105-107, services/qa_service.go:61-63). In the FAQ service only a cache hit that decodes returns before that point. The model does not cover the panic. main.go and initializer.go clamp the configured value to at least 1.
- FaqService.FAQService.SearchAndRank and FaqService.RankAnswers require `maxAnswers >= 0` for the same reason.
- FaqService.Decode does not model every edge of encoding/json. It follows the Go behaviour in three cases: JSON null succeeds and leaves the slice nil (empty); any other non-array value leaves the slice empty and fails; and a type mismatch inside the array still fills the slice, with the mismatched fields left zero. Timestamps are kept as opaque strings, not parsed RFC 3339 times.
- The question-source interface is a datatype with one variant per handler, not an interface type, because dispatch over an open set of implementations is out of reach here. Only the five handlers of the repository are modelled.
- Files, HTTP requests, CSV parsing and workbook reading are the `World.Env` parameter. os.Stat, os.Open, resty and excelize are not modelled beyond what each handler does with their outcome.
- Goroutines, the WaitGroup and the mutexes are not modelled; each scoring loop runs its questions one after the other, so only question-by-question registration orders are covered.
- In the FAQ service, the goroutines of services/faq_service.go:190-200 can interleave their `getWordID` calls word by word. While fewer than 2^32 words have IDs, the IDs are injective (WordIds.NumberedInsert keeps this), and the score is then the Dice ratio of the word sets (FaqService.IdScoreIsWordScore), so any two registration orders give the same score (FaqService.IdScoreOrderFree). Once the uint32 counter wraps, which words share an ID depends on the schedule, so a score can differ between interleavings; the model does not capture that. The contracts state every score against the final catalog, and a score taken earlier stays equal to it as the catalog grows (FaqService.IdScoreStable).
- In the QA service, every goroutine writes `queryWords` and `questionWords`, which are declared once outside the goroutines (services/qa_service.go:105). That is a data race. The model gives each question its own copies, as if each goroutine had its own locals; `matchCount` and `wordMap` already are per-goroutine locals (services/qa_service.go:124-125), and the writes to `results` are guarded by the mutex (services/qa_service.go:138-140).
- float64 arithmetic is replaced by exact ratios. Confidence is an exact real in hundredths. Rounding error at the 0.55 boundary and in the division by 100 is therefore not modelled.
- time.Now() is the `now` parameter; in Go each result reads the clock separately.
- The Thai word segmenter (gothaiwordcut) is the `Segmenter` parameter; its dictionary and algorithm are not modelled.
- Text.Lower lower-cases ASCII letters only; the Unicode case mapping of strings.ToLower is not modelled.
- Go strings are byte sequences: strings.Contains (handlers/csv_handler.go:57) compares bytes, while strings.Fields, strings.ToLower and the range loop in containsThai decode UTF-8. The model's strings are sequences of characters, so invalid UTF-8 and any byte-level difference it makes are not modelled.
- ResultCache.KeyValueStore.Set: a call that returns an error is taken as not applied. go-redis can report an error after the server has already applied the write (for example on a read timeout), so in that case the model's `written` sets may omit a key the server holds; the seeding lemmas, which allow each value to be the old one or the key's answer, would hold either way.
- The model does not decide when a Redis call fails: each Get may miss and each Set may fail on its own, and the model only states what either outcome leaves behind. The cache has no clock. The one-day TTL is recorded with each entry but entries never expire, and json.Marshal of a string is assumed never to fail.
- The Redis connection, its singleton and the configuration loading are not modelled. The wiring in main.go, router.go and initializer.go is not modelled either. That includes the calls there that pass NewFAQService one argument where it takes two, and the answer HTTP handler.
- The Go package holding qa_service.go does not build: it imports golang-qa-app/interfaces next to faq_service.go and declares AnswerResult, calculateSimilarityParallel, cutThaiWord and containsThai a second time. It is modelled as its own module, as the code is written.
- QaService.SearchResultsConfident promises a confidence of at most 1.00 only for questions without repeated words. A question with repeats can score above 1 (QaService.RepeatsExceedOne), because the QA score counts question words with repetition. Both copies are named calculateSimilarityParallel (services/faq_service.go:173, services/qa_service.go:103), and the comment at services/faq_service.go:207 calls the FAQ copy's value a similarity ratio; the QA copy computes this count instead.
