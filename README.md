# Spelling checker: correction and counting pass

A Dafny model of the logic that a small spelling-checker web application owns:

- `process_text`: tokenize a document, replace every alphabetic token by the spell checker's suggestion, count the words whose suggestion differs from them other than in letter case, detokenize, and count the alphabetic tokens.
- the error rate of a document, guarded so that a document without words gets 0 and no division takes place.
- the batch loop over the uploaded files, which appends one summary row per file and keeps the corrected texts in a dictionary keyed by file name.

The tokenizer, the alphabetic test, the spell checker's correction, lower-casing and the detokenizer are library code and are not part of this model. They are the fields of one `Library.Toolkit` value, a set of uninterpreted total functions passed explicitly to every operation. Every property below holds for every such toolkit.

Modules:

- `Library` (`library.dfy`): the toolkit of foreign functions.
- `SpellCheck` (`spellcheck.dfy`): `ProcessText`, the method with the source's loop. It is proved equal to the recursive specifications `CorrectAll`, `AlphaTokens` and `CountErrors`. The counters are also tied to independent index-set definitions (`WordPositions`, `ErrorPositions`). The module also holds the error rate.
- `Batch` (`batch.dfy`): `ProcessBatch`, the loop over the uploads. It is proved equal to `Rows` and `CorrectedFiles`. The module also holds the `corrected_` archive naming.

## Model

| member | source | states |
|---|---|---|
| SpellCheck.CorrectAll | app.py:29-39 | the corrected list has the tokenizer's length; at each position it holds the correction of a word token and the original token otherwise |
| SpellCheck.AlphaTokens | app.py:42 | the filtered list holds only alphabetic tokens and is no longer than the token list |
| SpellCheck.CountErrors | app.py:30-36 | the error counter never exceeds the number of alphabetic tokens |
| SpellCheck.WordCountIsWordPositions | app.py:42 | total_words equals the number of positions whose token is alphabetic |
| SpellCheck.ErrorCountIsErrorPositions | app.py:30-36 | error_count equals the number of positions holding an alphabetic token whose correction, lower-cased, differs from the token lower-cased |
| SpellCheck.ErrorsAreWords | app.py:32-36 | every counted position is a word position, so error_count is at most total_words |
| SpellCheck.NoErrorsIff | app.py:35-36 | error_count is 0 exactly when every word's correction equals the word up to case, so a case-only correction is never counted |
| SpellCheck.IdentityCorrectorChangesNothing | app.py:32-39 | a corrector returning every word unchanged leaves the token list unchanged and counts no error |
| SpellCheck.CorrectorConsultedOnlyOnWords | app.py:33-39 | the output list and both counters depend on the corrector only through its answers on word tokens; non-word tokens are never corrected |
| SpellCheck.ProcessText | app.py:27-44 | the loop returns the detokenized CorrectAll of the tokens, error_count equal to CountErrors, total_words equal to the number of alphabetic tokens, and error_count at most total_words |
| SpellCheck.ErrorRate | app.py:66 | the rate is 0 when there are no words; otherwise rate × total = 100 × errors; it lies in [0, 100] when errors ≤ total; it is 0 exactly when there are no errors or no words |
| Batch.Row | app.py:65-73 | a file's row carries its name, its word count and error count as position counts, error_count ≤ total_words, and a rate in [0, 100] that is 0 for a file without words |
| Batch.RowRate | app.py:65-66 | a row's rate is the error rate of its own counts: rate × total_words = 100 × error_count when the file has words |
| Batch.Rows | app.py:60-73 | one row per uploaded file, row i belonging to file i (upload order) |
| Batch.CorrectedFiles | app.py:61-75 | the dictionary's keys are exactly the names of the uploaded files |
| Batch.LastUploadWins | app.py:75 | the text stored under a name is the corrected text of the last upload with that name |
| Batch.SameNameKeepsBothRows | app.py:63-75 | two uploads with the same name give two rows but one dictionary entry, holding the later file's corrected text |
| Batch.ProcessBatch | app.py:60-75 | the loop produces exactly Rows and CorrectedFiles of the uploads |
| Batch.ArchiveNamesDistinct | app.py:92 | the `corrected_` prefix is injective: distinct file names give distinct archive entry names |
| Batch.Archive | app.py:89-92 | the archive's entry names are exactly the prefixed names of the corrected files, each holding that file's text, and nothing else |

## Left out

- Streamlit user interface (title, uploader, file-count message, table display, download buttons, info message; app.py:49-58, 77-102): presentation and I/O.
- CSV encoding of the summary table and ZIP byte encoding (app.py:77, 81, 89-99): foreign libraries. Only the entry naming and the name-to-text mapping of the archive are modelled (`Batch.Archive`), as an unordered map; the order of entries in the archive is not modelled.
- The internals of `word_tokenize`, `str.isalpha`, `SpellChecker.correction`, `str.lower` and `TreebankWordDetokenizer.detokenize` (app.py:4-6, 21-22, 28, 33-35, 41): foreign code, kept as uninterpreted functions. In particular the frequency-ranked, edit-distance candidate search is not modelled, and neither is any round trip between the tokenizer and the detokenizer.
- `correct` is assumed total and string-valued. The spell-checking library can return no suggestion for an unknown word, and `corrected.lower()` on app.py:35 would then fail. The model does not capture that failure.
- NLTK resource lookup and download (app.py:13-19): network and filesystem I/O.
- Lenient UTF-8 decoding of the uploaded bytes (app.py:64): a library codec. `Batch.Upload` carries the decoded text as given.
- Batch.Row: the rate is kept as an exact real number. The summary's rounding to two decimals (app.py:72) and floating-point division are not modelled.
