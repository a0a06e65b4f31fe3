# Resume screening core, modelled in Dafny

The repository is a resume-screening service. A FastAPI backend turns uploaded PDF and DOCX resumes into text, cleans the text, embeds it with a sentence model, scores each resume against a job description by cosine similarity, and returns a stable ranking. A Streamlit frontend labels and summarises the scores.

This project models the pure logic of that pipeline:

- the text cleaner `clean_text`, including its `\b\d+\b` digit-run deletion, and the stopword filter;
- the filename dispatch of `extract_and_preprocess`;
- cosine similarity over reals and its batch form;
- `rank_by_similarity` and `similarity_percentile`;
- the upload validators and `get_file_info`, with `os.path.splitext` modelled exactly on POSIX paths;
- the body of the `screen_resumes` endpoint;
- the frontend's relevance label and its highest/average/lowest summary.

Modules, one per source file plus shared helpers:

| module | file | models |
|---|---|---|
| `Basics` | basics.dfy | `Option`, `Min`, `MapSeq` |
| `PythonStr` | python_str.dfy | the `str` methods used: `isspace`, ASCII `lower`, `split()`, `' '.join`, `strip`, `endswith`, `replace(pat, '')`, `rfind` |
| `ReplaceSpec` | replace_spec.dfy | an independent reading of `replace(pat, '')`: keep exactly the characters that lie inside no occurrence of `pat`; and the proof that the scanner `RemoveAll` does this for patterns that cannot overlap themselves |
| `StableSort` | stable_sort.dfy | `sorted(..., reverse=True)` / `list.sort(reverse=True)`: a stable descending insertion sort, and the fact that it is the only sorted arrangement that keeps ties in input order |
| `DocumentProcessor` | document_processor.dfy | backend/document_processor.py |
| `NumberRegex` | number_regex.dfy | an independent reading of the regular expression `\b\d+\b`, and the proof that the scanner `DropNumbers` deletes exactly its matches |
| `CleanTextExamples` | clean_text_examples.dfy | the worked examples from tests/test_backend.py, derived from the general lemmas |
| `SimilarityCalculator` | similarity_calculator.dfy | backend/similarity_calculator.py |
| `FileHandler` | file_handler.dfy | utils/file_handler.py |
| `Screening` | screening.dfy | `screen_resumes` in backend/main.py |
| `Display` | display.dfy | `get_relevance_label` and the summary in frontend/app.py |

Collaborators the model does not look inside are parameters:

- the PDF/DOCX parsers, as `parse: (Format, C) -> Option<string>`;
- the sentence embedder, as `embed`;
- the Euclidean norm, as `norm`, constrained by `IsEuclideanNorm`: non-negative, and its square is the dot product of the vector with itself;
- `round(·, 4)`, as `round`;
- the upload limits, as `UploadConfig`. The size limit is an `int`, because backend/config.py:34 reads it with `int(...)` from the environment, which accepts a negative number; with a negative limit every file is refused as too large.

Three behaviours of the code are easy to misread:

- **Cosine on vectors of different lengths.** `np.dot` raises, and the catch-all `except` at backend/similarity_calculator.py:51-53 returns 0.0, so `CosineSimilarity` returns 0.0.
- **Step 4 of `clean_text`.** The comment at backend/document_processor.py:103 says it removes numbers-only tokens. The regular expression on line 104 deletes every match of `\b\d+\b` inside the text instead. So `"3.5"` becomes `"."` and `"python3"` stays, as `DecimalNumber` and `Python3` show.
- **Stopwords.** `clean_text` does not remove stopwords. Only `extract_and_preprocess` calls `remove_stopwords` (backend/document_processor.py:145-147).

## Model

| member | source | states |
|---|---|---|
| DocumentProcessor.CleanTextIsCanonical | backend/document_processor.py:84-109 | the output of `clean_text` (`CleanText`: lower-case, sanitise, collapse, delete digit runs, collapse again) contains only `a-z`, `0-9`, `.` and single spaces, with no leading or trailing space |
| DocumentProcessor.CleanTextRemovesSpecialChars | backend/document_processor.py:97-98 | no character outside letters, digits, whitespace and `.` survives `clean_text` (so `@#$%` never appears in the output) |
| DocumentProcessor.CleanTextOfEmpty | backend/document_processor.py:94-109 | `clean_text("")` is `""` |
| DocumentProcessor.CleanTextIdempotent | backend/document_processor.py:94-109 | cleaning a cleaned text changes nothing |
| DocumentProcessor.CleanTextHasNoBoundedDigitRun | backend/document_processor.py:103-107 | the digit-run deletion has nothing left to delete in the output of `clean_text` |
| DocumentProcessor.CleanTextTokens | backend/document_processor.py:94-109 | the output of `clean_text` is the single-space join of clean tokens, none of which contains a deletable digit run |
| DocumentProcessor.CleanTokenFate | backend/document_processor.py:103-104 | after step 2, a token made only of digits is deleted whole, and a token of letters and digits, with at least one letter, loses none of its digit runs |
| DocumentProcessor.DropNumbers | backend/document_processor.py:103-104 | the deletion never lengthens the text and introduces no character; which characters it deletes is `DropNumbersDeletesMatches` |
| DocumentProcessor.DropNumbersIdempotent | backend/document_processor.py:103-104 | deleting bounded digit runs twice is the same as deleting them once |
| DocumentProcessor.DropNumbersSplit | backend/document_processor.py:103-104 | a non-word character is a barrier for `\b\d+\b`: the deletion acts on each side of it independently |
| DocumentProcessor.DropNumbersOfJoin | backend/document_processor.py:101-104 | on single-space-joined tokens the deletion acts token by token |
| DocumentProcessor.DropAllDigits | backend/document_processor.py:103-104 | a run of digits standing alone is deleted entirely |
| DocumentProcessor.DropKeepsAlphanumericWord | backend/document_processor.py:103-104 | an alphanumeric word with at least one letter is kept unchanged, digits included |
| NumberRegex.DropNumbersDeletesMatches | backend/document_processor.py:103-104 | the scanner deletes exactly the characters that lie inside some match of `\b\d+\b`, defined independently as a maximal digit run with a non-word neighbour (or the string end) on each side |
| NumberRegex.UnmatchedAll | backend/document_processor.py:103-104 | the substitution leaves a string unchanged exactly when no position of it lies in a match |
| NumberRegex.CleanTextHasNoMatch | backend/document_processor.py:94-109 | no position of a `clean_text` output lies in a match of `\b\d+\b` |
| CleanTextExamples.HelloWorld | tests/test_backend.py:20-26 | `clean_text("Hello World")` is `"hello world"` |
| CleanTextExamples.YearsOfExperience | tests/test_backend.py:47-53 | `clean_text("5 years of experience with 3+ projects")` is `"years of experience with projects"`, so neither `5` nor `3` is left |
| CleanTextExamples.Python3 | backend/document_processor.py:103-104 | a digit run touching a letter survives: `clean_text("python3")` is `"python3"` |
| CleanTextExamples.DecimalNumber | backend/document_processor.py:97-104 | `.` is kept by step 2 but is not a word character, so both digit runs of `"3.5"` are deleted, leaving `"."` |
| CleanTextExamples.QuickBrownFox | backend/document_processor.py:111-125 | `remove_stopwords("The quick brown fox")` is `"quick brown fox"`: the stopword test compares the lower-cased word |
| CleanTextExamples.JumpsOverTheLazyDog | tests/test_backend.py:33-39 | `remove_stopwords("the quick brown fox jumps over the lazy dog")` is `"quick brown fox jumps over lazy dog"`, so `the` is gone and `quick` and `brown` stay |
| CleanTextExamples.CleanTextOfLettersAndNumerals | backend/document_processor.py:94-109 | when the sanitised text splits into letter words, numerals and empty pieces, `clean_text` keeps exactly the letter words in order |
| DocumentProcessor.ContentWordsMembers | backend/document_processor.py:121-124 | a word survives the filter exactly when it was in the input and its lower-case form is not a stopword |
| DocumentProcessor.ContentWordsAppend | backend/document_processor.py:121-124 | the filter decides each word alone: filtering a concatenation is concatenating the filtered parts |
| DocumentProcessor.RemoveStopwordsTokens | backend/document_processor.py:111-125 | for `remove_stopwords` (`RemoveStopwords`: split, filter, join), the tokens of the output are the input tokens that are not stopwords, in their original order; no token is introduced |
| DocumentProcessor.RemoveStopwordsIdempotent | backend/document_processor.py:111-125 | filtering twice is the same as filtering once |
| DocumentProcessor.RemoveStopwordsKeepsCanonical | backend/document_processor.py:111-125 | filtering a cleaned text leaves it in the cleaned form |
| DocumentProcessor.Dispatch | backend/document_processor.py:138-143 | a name ending in `.pdf` goes to the PDF parser, otherwise one ending in `.docx` to the DOCX parser, otherwise nothing is read; the test is case-sensitive |
| DocumentProcessor.PdfAndDocxExclusive | backend/document_processor.py:138-143 | no name ends in both `.pdf` and `.docx`, so the order of the tests never matters |
| DocumentProcessor.Extract | backend/document_processor.py:33-82 | extraction yields text exactly when the parser does, and that text is `clean_text` of the parser's output, so it is in the cleaned form |
| DocumentProcessor.ExtractAndPreprocess | backend/document_processor.py:127-147 | a result exists exactly when the name dispatches, the parser succeeds and the cleaned text is not empty; the result is in the cleaned form, and its tokens are exactly the non-stopword tokens of the cleaned parser output, in order |
| StableSort.SortDesc | backend/similarity_calculator.py:135 | the sort is a permutation of its input, its keys are non-increasing, and equal keys keep their input order |
| StableSort.SortDescUnique | backend/similarity_calculator.py:135 | any arrangement that is sorted and keeps ties in input order is the sort's result |
| StableSort.MapSortDesc | backend/main.py:132 | sorting records and then dropping a field gives the same as dropping the field and then sorting, when the key is kept |
| SimilarityCalculator.NormZeroIffAllZero | backend/similarity_calculator.py:34-41 | a Euclidean norm is zero exactly on the all-zero vector |
| SimilarityCalculator.CosineSimilarity | backend/similarity_calculator.py:17-53 | the result always lies in [-1, 1], and vectors of different lengths score 0.0 |
| SimilarityCalculator.CosineOfZeroVector | backend/similarity_calculator.py:38-41 | if either vector is all zeros the score is 0.0 |
| SimilarityCalculator.CosineSymmetric | backend/similarity_calculator.py:17-53 | the score does not depend on the order of the two vectors |
| SimilarityCalculator.CosineSelf | backend/similarity_calculator.py:30-49 | a non-zero vector scores 1.0 against itself |
| SimilarityCalculator.CosineOpposite | backend/similarity_calculator.py:30-49 | a non-zero vector scores -1.0 against its negation |
| SimilarityCalculator.BatchSimilarity | backend/similarity_calculator.py:96-115 | one score per resume, in order, each the cosine against the job vector and each in [-1, 1] |
| SimilarityCalculator.Zip | backend/similarity_calculator.py:129-132 | pairs are taken up to the shorter list |
| SimilarityCalculator.RankBySimilarity | backend/similarity_calculator.py:117-140 | the output has the length of the shorter input, its (score, name) pairs are a permutation of the zipped pairs, scores are non-increasing, ties keep input order, and ranks are 1..n |
| SimilarityCalculator.RankSortedInput | backend/similarity_calculator.py:117-140 | input already in descending order is returned in the same order |
| SimilarityCalculator.RankExample | backend/similarity_calculator.py:117-140 | scores 0.9, 0.5, 0.2 for A, B, C rank as (1, A), (2, B), (3, C) |
| SimilarityCalculator.RankTieExample | backend/similarity_calculator.py:135 | two equal scores keep their input order |
| SimilarityCalculator.SimilarityPercentile | backend/similarity_calculator.py:142-164 | the percentage is score × 100, and the four buckets partition it at 80, 60 and 40, each closed at its lower bound |
| SimilarityCalculator.PercentileMonotone | backend/similarity_calculator.py:153-162 | a higher score never falls in a lower bucket |
| FileHandler.SplitExt | utils/file_handler.py:77 | the name and the extension concatenate back to the path, and a non-empty extension starts with a dot |
| FileHandler.SplitExtSpec | utils/file_handler.py:77 | `splitext` finds an extension exactly when the last dot lies in the final path component, after a non-dot character of that component, and then splits exactly there |
| FileHandler.SplitExtKeepsCase | utils/file_handler.py:77-80 | `resume.PDF` splits into `resume` and `.PDF` |
| FileHandler.SplitExtLastDot | utils/file_handler.py:77 | `archive.tar.gz` splits at its last dot |
| FileHandler.SplitExtLeadingDot | utils/file_handler.py:77 | `.bashrc` has no extension |
| FileHandler.SplitExtLeadingDots | utils/file_handler.py:77 | `..docx` has no extension |
| FileHandler.SplitExtDirectoryDot | utils/file_handler.py:77 | a dot in a directory name is not an extension |
| FileHandler.ValidateFile | utils/file_handler.py:18-42 | a disallowed lower-cased extension is refused; otherwise a size above the limit is refused; otherwise an empty file is refused; the file is valid exactly when the extension is allowed and 0 < size ≤ limit |
| FileHandler.TypeCheckFirst | utils/file_handler.py:29-32 | a type refusal does not depend on the content |
| FileHandler.ValidateJobDescription | utils/file_handler.py:45-64 | blank text is refused as empty before any length rule; otherwise fewer than 50 or more than 100000 characters of the untrimmed text are refused; valid exactly when non-blank and 50 ≤ length ≤ 100000 |
| FileHandler.PaddingCountsTowardsLength | utils/file_handler.py:58-59 | trailing spaces count towards the minimum length |
| FileHandler.GetFileInfo | utils/file_handler.py:67-84 | the name followed by the original-case extension is the filename; the reported extension is the lower-cased one; the PDF and DOCX flags hold exactly for `.pdf` and `.docx` and never both |
| FileHandler.ValidateAgreesWithFileInfo | utils/file_handler.py:18-84 | with the default configuration, the validator accepts the type of exactly the files `get_file_info` flags as PDF or DOCX |
| FileHandler.GetFileInfoExample | utils/file_handler.py:67-84 | `Jane.Doe.DOCX` has name `Jane.Doe` and extension `.docx`, flagged DOCX |
| Screening.ReadCandidate | backend/main.py:78-96 | an upload yields a candidate exactly when its name dispatches, extraction succeeds and the text is non-empty; the candidate keeps the upload's filename, its name is the filename with the suffix removed, and its text is the extracted text |
| Screening.Candidates | backend/main.py:77-96 | at most one candidate per upload, each with non-empty cleaned text |
| Screening.CandidatesAppend | backend/main.py:78-96 | uploads are read independently: the candidates of two lists joined are the candidates of each, joined |
| Screening.CandidatesFromUploads | backend/main.py:78-96 | every candidate comes from an upload that reads to it |
| Screening.UploadsToCandidates | backend/main.py:78-96 | every upload that reads to a candidate contributes it |
| Screening.CandidatesSplitAt | backend/main.py:78-96 | the loop keeps upload order: the candidates are those of the uploads before position i, then what upload i contributes, then those of the uploads after it |
| Screening.CandidatesOfUnsupported | backend/main.py:82-89 | uploads whose names end in neither suffix contribute nothing |
| Screening.CandidateName | backend/main.py:82-87 | the name is never longer than the filename; it equals the filename exactly when the suffix does not occur in it, and is strictly shorter when the filename ends with the suffix |
| Screening.CandidateNameDeletesSuffixes | backend/main.py:82-87 | the name is the filename with every character that lies inside an occurrence of `.pdf` (or `.docx`) deleted, and every other character kept in order |
| Screening.CandidateNameOfSuffix | backend/main.py:83 | a stem free of the suffix keeps its name when the suffix is removed |
| Screening.CandidateNameInnerOccurrence | backend/main.py:83 | every occurrence is removed, not only the final one: `cv.pdf.old.pdf` becomes `cv.old` |
| Screening.Rerank | backend/main.py:135-136 | ranks become 1..n in list order and nothing else in the records changes |
| Screening.RankCandidates | backend/main.py:105-136 | one record per candidate, ranks 1..n, and the records without their ranks are the stable descending sort of the scored candidates |
| Screening.RankingIsStableSort | backend/main.py:117-136 | the ranking is a permutation of the scored candidates, scores are non-increasing, ties keep upload order, and no other arrangement has these properties |
| Screening.RankedRecordsAligned | backend/main.py:108-128 | each record's name, filename and score come from the same candidate; the score (`Score`) is the rounded cosine of the embedded description against the embedded resume text |
| Screening.RankedScoresDescending | backend/main.py:132 | the rounded scores are non-increasing along the list |
| Screening.AllTiedKeepsUploadOrder | backend/main.py:132 | when all scores are equal the ranking is the upload order |
| Screening.ScreenResumes | backend/main.py:67-142 | a blank job description gives the 400 empty-description error; otherwise no usable resume gives the 400 no-resumes error; otherwise success, with the total equal to the number of candidates and the ranking of the stripped description |
| Screening.NoUsableResumes | backend/main.py:98-102 | uploads that are all of unsupported types give the 400 no-resumes error |
| Display.GetRelevanceLabel | frontend/app.py:215-232 | every score gets exactly one label: at least 0.8 Highly Relevant, [0.6, 0.8) Relevant, [0.4, 0.6) Moderately Relevant, below 0.4 (negatives included) Low Relevance |
| Display.LabelTexts | frontend/app.py:225-232 | the four labels are spelled with their coloured badges as the frontend shows them |
| Display.LabelAgreesWithPercentile | frontend/app.py:225-232 | the frontend label and `similarity_percentile` put every score in the same bucket |
| Display.LabelMonotone | frontend/app.py:225-232 | a higher score never gets a lower label |
| Display.Summary | frontend/app.py:174-178 | a summary exists exactly for a non-empty list; the highest is the first score, the lowest the last, and the average times the count is the sum |
| Display.SumBounds | frontend/app.py:175-176 | n numbers between lo and hi sum to between n·lo and n·hi |
| Display.SummaryOrdered | frontend/app.py:174-178 | on a non-increasing list, highest ≥ average ≥ lowest |
| Display.SummaryOfSuccess | frontend/app.py:174-178 | every successful response has a summary, and it is ordered |
| PythonStr.WordsJoinRoundTrip | backend/document_processor.py:101 | splitting the single-space join (`Join`) of tokens gives the tokens back |
| PythonStr.Lower | backend/document_processor.py:94-95 | lower-casing keeps the length, leaves no ASCII capital, maps each capital to its lower-case letter and keeps every other character |
| PythonStr.Words | backend/document_processor.py:101 | `split()` yields non-empty tokens without whitespace, built only from characters of the input |
| PythonStr.WordsOfInterleave | backend/document_processor.py:101 | tokens separated by whitespace gaps, with non-empty inner gaps and any outer gaps, split back into exactly those tokens |
| PythonStr.WordsCharacterized | backend/document_processor.py:101 | `split()` returns `ws` exactly when the tokens of `ws` are non-empty and whitespace-free and the input is `ws` interleaved with whitespace gaps, every inner gap non-empty |
| PythonStr.WordsOfTabAndNewline | backend/document_processor.py:70-101 | newlines, which the DOCX reader appends after each paragraph, and tabs separate tokens like spaces when step 3 of `clean_text` splits the text: `"a\n\tb"` splits into `a` and `b` |
| PythonStr.Strip | backend/main.py:69 | `strip()` returns a slice of the input with only whitespace before and after it; it is empty exactly when the input is blank, and otherwise starts and ends with a non-whitespace character |
| PythonStr.RemoveAllUnchanged | backend/main.py:83 | `replace(pat, '')` returns the string unchanged exactly when `pat` does not occur in it |
| PythonStr.RemoveAllShortens | backend/main.py:83 | `replace(pat, '')` keeps the length exactly when `pat` does not occur, so it deletes something whenever `pat` occurs |
| ReplaceSpec.RemoveAllDeletesOccurrences | backend/main.py:83 | for a pattern that cannot overlap itself, `replace(pat, '')` deletes exactly the characters inside occurrences of `pat` and keeps the rest in order |
| PythonStr.WordsOfJoin | backend/document_processor.py:101 | splitting a join of spaceless pieces drops exactly the empty pieces |

## Left out

- HTTP plumbing is not modelled: the FastAPI app, CORS, uvicorn, async upload reading, and the `/`, `/calculate-similarity` and `/health` endpoints.
- The catch-all 500 response of `screen_resumes` is not modelled. The model's collaborators are total functions, so nothing can raise.
- The Streamlit UI is not modelled: the HTTP client, tables, CSV export, and the `:.2f` / `:.4f` formatting. The same goes for the formatted string that `similarity_percentile` returns; `SimilarityPercentile` returns the percentage and the bucket instead.
- The PDF and DOCX parsers (PyPDF2, python-docx) are an opaque parameter returning an optional text. Their exception handling is the parameter returning nothing.
- The sentence embedder, `normalize_embedding`, `euclidean_distance` and `manhattan_distance` are external model code or float numerics that nothing modelled depends on.
- Floating point is modelled as real arithmetic. The norm is any function that behaves like the Euclidean norm, and `round(·, 4)` is a parameter, so NaN and rounding effects are outside the model.
- `CosineSimilarity` takes the norm as a parameter. Its contract holds for any norm thanks to the clamp; the zero, self and opposite properties assume `IsEuclideanNorm`.
- `str.lower` is modelled on ASCII letters only; every other character keeps its code. This is exact for the stopword test and for the extension test. It is also exact for `clean_text`, with one exception: step 2 removes every non-ASCII character that is not whitespace, so only the few characters whose full Unicode lower-case form contains an ASCII letter would differ (the Kelvin sign, for instance).
- Temp-file handling, logging and environment-driven configuration are not modelled. `UploadConfig` is a parameter, and `DefaultConfig` holds the fallback limits of backend/config.py.
- `validate_file` messages embed the printed form of a Python set, whose order depends on hashing. The model returns an error value (`FileError`) instead of the message text.
- The timing tests are not modelled.
- ReplaceSpec.RemoveAllDeletesOccurrences: proved only for patterns that cannot overlap themselves (no proper prefix equals a suffix). `.pdf` and `.docx` are such patterns, by `Screening.SuffixBorderFree`, so `CandidateNameDeletesSuffixes` holds in full; for a self-overlapping pattern `replace` deletes the leftmost non-overlapping occurrences, which the lemma does not describe.
