# HC4 document download, reorder and validation — a Dafny model

HC4 ships its document collections as id manifests: one JSON line per document,
giving its id, the Common Crawl archive (`cc_file`) holding it and the md5 of its
extracted content. The user rebuilds the collections with three scripts, and this
project models their core.

- `download_documents.py` builds `to_capture`, which maps each archive to its
  want-list. The want-list maps a record id to the languages that want it and the
  md5 each language expects.
- `process_cc_file` streams one archive at a time through `read_warc_gz` and does
  the following:
  - It extracts and fingerprints every wanted record.
  - It stops early once all wanted records are found.
  - It treats a fingerprint mismatch strictly (raise) or leniently (warn).
  - It retries the whole archive on failure.
  - After a successful attempt, it appends the collected documents to each
    language's `hc4_docs.jsonl`.
- `fix_document_order.py` rewrites a language's log into manifest order. It reads
  the id files, sorting them by the number in their name when there are several.
  It then scans the log once to record the offset of each document id, checks the
  document count, and copies one line per id.
- `validate_hc4_documents.py` reports the manifest ids that are missing from a log.
  It counts them and splits them by the qrels judgment: relevant, non-relevant or
  unjudged.

The model is pure and functional. Python's `strip`, `split` and `int` are defined
in `Text`. What the code hands to libraries is a parameter:

- the md5 digest;
- article extraction;
- decoding one JSON line;
- reading an id file;
- the archive delivered on each attempt.

Modules:

| module | file | models |
|---|---|---|
| `Wrappers` | wrappers.dfy | `Option` and `Result` |
| `Seqs` | seqs.dfy | flattening sequences, distinct elements, permutation by index |
| `Text` | text.dfy | `str.strip()`, `str.split(sep)`, `str.split()`, `int()`, `str()` |
| `Documents` | documents.dfy | languages, documents, `hash_doc` |
| `Warc` | warc.dfy | `read_warc_gz`: the content-type filter and record-id extraction |
| `Worker` | worker.dfy | `process_cc_file`: one attempt, the retry loop and the final write |
| `WorkIndex` | work_index.dfy | `main`'s flag checks, the resume set and `to_capture` |
| `LogLines` | log_lines.dfy | `readline`/`tell` over a text file |
| `IdFiles` | id_files.dfy | the sort of the id files by name |
| `Reorder` | reorder.dfy | `fix_document_order.main`: the offset index, the count assertion, the rewrite |
| `Audit` | audit.dfy | `validate_docs` |

`main` fills its language map (download_documents.py:151-154) and each record's
want-list (lines 197-203) in `LANGUAGES` order, so Python's dicts iterate a
record's languages in that order. The model keeps each want-list as a map and
has `process_cc_file` visit the languages it holds by walking `Languages`, which
gives the same order.

`saved_docs` is created once per archive, at `download_documents.py:78`, before
the retry loop that starts at line 81. The documents a failed attempt appended
therefore stay in it, and a later successful attempt writes them together with its
own. `Worker.ProcessCcFile` models this; "## Findings" shows the duplicates it
produces and a variant with a fresh buffer per attempt.

## Model

| member | source | states |
|---|---|---|
| Documents.HashDocIgnoresPadding | fix_document_order.py:9-10 | whitespace added around the title or the text never changes a document's fingerprint |
| Text.StripPadded | fix_document_order.py:10 | whitespace added at either end of a string does not change `strip()` |
| Text.Split | download_documents.py:52-53 | `split(sep)` has at least one piece, the pieces joined with `sep` give back the input, no piece contains `sep`, and when there are two or more the first cut is at the leftmost occurrence of `sep` |
| Text.SplitCons | download_documents.py:52-53 | a split with a cut is its first piece followed by the split of what follows the leftmost `sep`, so every cut is leftmost in what remains |
| Text.SplitHasSecond | download_documents.py:52-53 | `split(sep)[1]` exists exactly when `sep` occurs in the string |
| Text.FieldsOfSpaced | validate_hc4_documents.py:27 | `split()` of non-empty, whitespace-free fields joined by non-empty runs of whitespace gives the fields back |
| Text.StripSpaced | validate_hc4_documents.py:27 | `strip()` removes exactly the whitespace runs added before and after such fields |
| Text.ParseShowInt | fix_document_order.py:69 | `int(str(i)) == i` for every integer |
| Warc.RecordIdOf | download_documents.py:52-53 | an id is extracted exactly when the header is present and contains `uuid:`, and the id contains no `>` |
| Warc.RecordIdBetweenMarkers | download_documents.py:52-53 | an id is extracted exactly when the header contains `uuid:`; it then starts right after the first `uuid:`, contains neither `>` nor `uuid:`, and ends at `>`, at `uuid:` or at the end of the header |
| Warc.Responses | download_documents.py:48-51 | only records of type `application/http; msgtype=response` are kept, and every such record is kept |
| Warc.ReadRecords | download_documents.py:45-54 | the generator yields the responses in order, each with its extracted id; it raises at the first response with no extractable id, and otherwise ends as the stream ends |
| Worker.AppendLangs | download_documents.py:93-98 | the per-language loop fails exactly when checks are strict and some wanted language's md5 differs from the fingerprint; otherwise one document is appended per wanted language, in language order; a failure names a wanted language whose md5 differs; with strict checks every appended md5 matches |
| Worker.AppendLangsPrefix | download_documents.py:93-98 | the appends made are a prefix of the wanted languages' documents, and when the loop raises, the entry of the language it raised on comes right after that prefix |
| Worker.Finish | download_documents.py:107-111 | for found ids drawn from the want-list, an attempt that leaves the loop succeeds exactly when checks are lenient or every wanted id was found; the size comparison of the code is the set equality |
| Worker.Consume | download_documents.py:85-105 | the record loop never stops before every wanted id is found; a pass that succeeds found exactly the wanted ids it pulled and appended exactly their documents, and if it did not find them all, it read the whole stream and the stream completed |
| Worker.RunAttempt | download_documents.py:82-111 | one attempt finds only wanted ids and reads no further than the stream; a successful one found exactly the wanted ids it pulled, and if not all of them, it read the whole stream and the stream completed |
| Worker.AttemptFacts | download_documents.py:82-111 | about one attempt over one archive: the found set is the wanted ids pulled; the appends are the wanted records' documents; early stopping happens only after everything was found; with strict checks every append matches its md5; every failure is explained by a hash mismatch, a missing id, a broken stream or an interrupt at the point where it stopped; a failed attempt's appends are all documents of the records it consumed, and on a hash mismatch they stop right before the entry of the failing record and language |
| Worker.ProcessCcFile | download_documents.py:76-128 | the archive is written only after a successful attempt, the last one made, within the retry budget; an interrupt is never followed by a write; what is written is the appends of every attempt made, failed ones included; nothing is written otherwise |
| Worker.ConsumeValidated | download_documents.py:93-108 | with strict checks, a successful attempt found every wanted id and appended only documents whose fingerprint matches |
| Worker.CommitIffSuccess | download_documents.py:80-128 | the archive is written exactly when some attempt within the retry budget succeeds with no earlier interrupt; then the first success is the last attempt made and everything appended by all attempts up to it is written; otherwise nothing is written |
| Worker.WrittenPerLanguage | download_documents.py:122-126 | each language's output gets, in order, the documents all attempts up to the success appended for that language |
| Worker.FreshWritesSuccessfulPass | download_documents.py:76-128 | with a fresh buffer per attempt, the retry control flow is unchanged, and a success writes exactly the documents its own successful pass appended for the wanted records it pulled |
| Worker.RetryDuplicates | download_documents.py:78-98 | an attempt that breaks after one record, followed by a complete one, writes that record's document twice as written, and once with a fresh buffer |
| WorkIndex.PlanRun | download_documents.py:146-209 | `main` fails with the restart/resume error exactly when both flags are given; it reports an existing output exactly when, without restart or resume, some given language's output exists, and it names the first such language in `LANGUAGES` order; it reports no languages exactly when the flags pass and no language was given; when it starts, the outputs deleted are exactly the existing ones on restart, and `to_capture` is non-empty with no empty want-list |
| WorkIndex.FirstClash | download_documents.py:172-181 | the loop over the given languages meets an existing output exactly when one exists, and meets first the earliest in `LANGUAGES` order |
| WorkIndex.LanguagesGiven | download_documents.py:151-184 | the language list is empty exactly when no language flag was given |
| WorkIndex.CaptureAll | download_documents.py:196-203 | `to_capture` never holds an empty want-list or an id with no language |
| WorkIndex.CaptureIsLastMatch | download_documents.py:196-203 | the md5 recorded for (archive, id, language) is the one on the last id-file line naming them that was not already downloaded, and nothing is recorded when no such line exists |
| WorkIndex.LastMatchIsLast | download_documents.py:196-203 | that line exists, and no later line names the same triple |
| WorkIndex.CaptureKeys | download_documents.py:196-203 | an archive is in `to_capture` exactly when some line that is not skipped names it |
| WorkIndex.ResumeSkipsDownloaded | download_documents.py:186-203 | without restart, a document already present in a language's output is never wanted again for that language |
| WorkIndex.RestartCapturesAll | download_documents.py:160-203 | on restart every id-file line is wanted |
| WorkIndex.CapturedIffNotDownloaded | download_documents.py:186-203 | for every id-file line of a started run, `to_capture` holds an md5 for its archive, id and language exactly when the run is not a restart, or the id is not yet in that language's output; the md5 held is the one on the last such line naming them |
| WorkIndex.NothingCaptured | download_documents.py:196-209 | `to_capture` is empty exactly when every id-file line names a document already downloaded for its language |
| WorkIndex.NothingLeftIffAllDownloaded | download_documents.py:146-209 | `main` stops with "No documents need to be captured." exactly when the flag checks pass, some language was given, and every id-file line was already downloaded |
| LogLines.ReadLineAtOffset | fix_document_order.py:27-37 | the offset of line `i` (the total length of the lines before it) lies inside the text, and `readline` there returns exactly line `i` |
| LogLines.OffsetStep | fix_document_order.py:37 | after reading a line, `tell` has moved by that line's length |
| LogLines.LinesOfFlatten | fix_document_order.py:45-48 | complete lines written one after the other read back as the same lines |
| IdFiles.FileName | fix_document_order.py:69 | `Path.name` is the suffix after the last `/`: it contains no `/`, and what precedes it ends with `/` or is empty |
| IdFiles.FileNameInDirectory | fix_document_order.py:69 | the name of `dir/n` is `n`, whatever `dir` contains |
| IdFiles.SortKeyOfNumbered | fix_document_order.py:69 | a path `prefix.k.rest`, bare or under any directory, whose prefix has no dot and no `/` and whose rest has no `/`, has sort key `k`, dots in the directory notwithstanding |
| IdFiles.OrderByKey | fix_document_order.py:67-69 | sorting by a key: fewer than two items stay as given; several fail exactly when some item has no key; on success the result is a permutation of the items |
| IdFiles.OrderIdFiles | fix_document_order.py:67-69 | one id file is used as given; several fail exactly when some file name has no integer second component; on success the result is a permutation of the paths |
| IdFiles.OrderIdFilesSorted | fix_document_order.py:67-69 | on success the files come out ordered by their keys |
| IdFiles.OrderIdFilesStable | fix_document_order.py:67-69 | files with equal keys keep their command-line order |
| IdFiles.KeyAllFails | fix_document_order.py:69 | when the key raises, it raises on the first name that has no key |
| Reorder.HashesKeys | fix_document_order.py:13-21 | an id is in `hashs` exactly when some id-file line names it |
| Reorder.HashesLastWins | fix_document_order.py:21 | a repeated id keeps the md5 of its last line |
| Reorder.OrderedIdsConcatenate | fix_document_order.py:13-19 | `ordered_ids` is the id files' ids concatenated in reading order |
| Reorder.FixDocumentOrderMain | fix_document_order.py:67-71 | the script stops on the id file names exactly when there are several and one file name has no numeric second component, and then with the sort's own error |
| Reorder.MainOrdersFiles | fix_document_order.py:67-71 | a single id file is read as given; when the names can be ordered, the files read are a permutation of the paths given whose name keys never decrease when there are several, and the script's outcome is the reorder of exactly those files' ids, read in that order |
| Reorder.BuildOffsetIndex | fix_document_order.py:23-38 | the `readline`/`tell` loop computes the scan over the log's lines: the same offsets, the same mismatch reports, the same first error |
| Reorder.ScanOk | fix_document_order.py:29-36 | the scan completes exactly when every line decodes and, with hash checking, every id has an md5; a mismatch never stops it |
| Reorder.ScanFirstError | fix_document_order.py:32-33 | a failed scan raises for the first line that does not pass: a bad line, or an unknown id (`KeyError`) |
| Reorder.ScanKeys | fix_document_order.py:35-36 | `docs_pos` holds exactly the ids of the log lines |
| Reorder.ScanLast | fix_document_order.py:35-36 | the position recorded for an id is the offset of its last line |
| Reorder.ScanMismatchSound | fix_document_order.py:33-34 | every reported mismatch names a line whose fingerprint differs from its md5 |
| Reorder.ScanMismatchComplete | fix_document_order.py:33-34 | every such line is reported |
| Reorder.ScanMismatchesInOrder | fix_document_order.py:28-38 | the reports are exactly the ids of the mismatching lines, one per line in log order, so a repeated id is reported once per mismatching line |
| Reorder.ScanNoCheck | fix_document_order.py:33 | without hash checking nothing is reported |
| Reorder.Rewrite | fix_document_order.py:45-48 | the rewrite succeeds exactly when every id to write has a position; it then writes one line per id, the line read at that id's position; otherwise it raises `KeyError` for the first id to write that has none |
| Reorder.ReorderLog | fix_document_order.py:23-48 | a completed reorder writes one line per id to write, and its printed mismatches are the mismatching log lines' ids in log order |
| Reorder.ReorderErrors | fix_document_order.py:23-48 | a scan error stops the reorder with that error; otherwise the count assertion fails exactly when the number of ids (duplicates included) differs from the number of distinct log documents, and the model's error then carries those two numbers (the message as written does not, see "## Findings"); when they agree, the reorder succeeds exactly when every id names a document of the log |
| Reorder.ReorderLine | fix_document_order.py:35-48 | output line `k` is the last log line holding the `k`-th id |
| Reorder.MatchingSucceeds | fix_document_order.py:40-48 | with distinct ids naming exactly the log's distinct documents, the reorder succeeds |
| Reorder.ReorderPermutes | fix_document_order.py:40-48 | in that case the output is a permutation of the log's lines |
| Reorder.SortedShape | fix_document_order.py:40-48 | in that case, for a newline-terminated log, the output file holds one complete line per id, and its ids are the id list in order |
| Reorder.ReorderIdempotent | fix_document_order.py:23-48 | for a newline-terminated log and distinct ids naming exactly its documents, reordering the sorted output again gives the same lines |
| Audit.DownloadedIds | validate_hc4_documents.py:16-19 | `doc_ids` is built exactly when every log line decodes, and it holds exactly their ids |
| Audit.Judge | validate_hc4_documents.py:27-31 | a judged id is a non-empty field without whitespace |
| Audit.JudgeWritten | validate_hc4_documents.py:27-31 | a qrels line `query iteration docid … grade`, with any whitespace before, between and after the fields, judges `docid`, as non-relevant exactly when the grade is `0` |
| Audit.ReadQrelsOk | validate_hc4_documents.py:24-31 | reading the qrels fails exactly when some line has fewer than three fields, and then names such a line |
| Audit.ReadQrelsSets | validate_hc4_documents.py:24-31 | an id is in `rel_docs` (`nonrel_docs`) exactly when some qrels line judges it relevant (non-relevant) |
| Audit.KindOfQrels | validate_hc4_documents.py:24-50 | against the qrels read, a missing id is reported relevant exactly when some line judges it relevant, non-relevant exactly when none does but some line judges it non-relevant, and unjudged exactly when no line names it |
| Audit.ReportMissing | validate_hc4_documents.py:33-50 | the loop prints one line per listed id that is not downloaded, and its three counters are the totals of those lines, with `rel + nonrel <= miss` |
| Audit.ReportLines | validate_hc4_documents.py:39-50 | every printed line names a listed id that was not downloaded, with its judgment, and every listed id that was not downloaded is printed with its judgment |
| Audit.MissCountIsReportLength | validate_hc4_documents.py:37-42 | `miss_cnt` is the number of listed ids not downloaded, duplicates included |
| Audit.TallyBound | validate_hc4_documents.py:42-48 | the relevant and non-relevant counts together never exceed the missing count |
| Audit.TallyGrows | validate_hc4_documents.py:42-48 | all three counters only grow as the loop advances |
| Audit.ReportGrows | validate_hc4_documents.py:37-50 | the printed report only grows as the loop advances |
| Audit.NothingMissing | validate_hc4_documents.py:34-54 | all three totals are 0 exactly when every listed id was downloaded |
| Audit.RelevantFirst | validate_hc4_documents.py:43-48 | a missing id judged both ways counts as relevant only |
| Audit.ValidateDocs | validate_hc4_documents.py:33-54 | when the script reports, the missing total is the number of report lines and the two judged totals stay within it |
| Audit.ValidateDocsOk | validate_hc4_documents.py:14-31 | for id files given as decoded lines, the validation runs to the end exactly when every log line decodes and every qrels line has three fields |
| Audit.ValidateDocsTotals | validate_hc4_documents.py:33-54 | on success, `rel + nonrel <= miss == ` the number of report lines, and all totals are 0 exactly when every listed id was downloaded |
| Seqs.PermutationByIndex | fix_document_order.py:45-48 | a sequence whose element `k` is another's element `p[k]`, for distinct indexes `p`, is a permutation of it |

## Left out

- The HTTP transport, the WARC parser (warcio) and article extraction (newspaper) are not modelled. An archive is the record sequence it delivers plus how the stream ends. The article extracted from a record is the parameter `extract`.
- The md5 digest and JSON encoding and decoding are parameters (`md5`, `decode`, `read`). Their outputs are not interpreted. Decoding a log line may fail (`decode` returns an `Option`), but an id file is taken already decoded, as a sequence of `IdLine` values.
- Audit.ValidateDocsOk: id-file lines are assumed to decode to `id`, `cc_file` and `md5` in all three scripts. A line that is not JSON, or lacks a field, raises at validate_hc4_documents.py:40 (after some report lines are printed and before the totals), at fix_document_order.py:18-19 and at download_documents.py:201-203. None of these stops is modelled, so the "exactly when" of `Audit.ValidateDocsOk` is over decoded id files only; the same holds for `Reorder.FixDocumentOrderMain` (`read`) and `WorkIndex.PlanRun` (`Options.idFiles`).
- The process pool, the file lock in `write_lock`, tqdm progress bars, logging configuration and every logged or printed message are left out. Printed reports are modelled as data: the mismatch list, the report lines and the totals.
- File-system effects are not modelled: `mkdir`, `unlink`, the `.bak`/`.sorted` renames and gzip. A log, an id file and a qrels file are their contents. `WorkIndex.PlanRun` reports as deleted only the outputs of a run that starts. On restart, `main` unlinks the existing outputs (download_documents.py:176-179) before it checks that something is left to capture, so a run that then fails with "No documents need to be captured." has still deleted them; the model's error carries no deleted set.
- Concurrency is left out: output files are appended by one worker at a time. The model gives the per-language sequence one worker writes, not how workers interleave.
- argparse is left out. Options are datatype fields, and `retry` is an integer parameter.
- `int()` is modelled on ASCII decimal text with surrounding whitespace and one sign. Underscores and non-ASCII digits are left out.
- A keyboard interrupt is modelled only where the archive stream ends. An interrupt at any other point behaves the same way in the code: it ends the attempt and propagates.
- Positions in the log count characters, whereas Python's text-mode `tell` returns an opaque cookie. Seeking back to a `tell` value resumes at the same character, so the model's offsets stand for those cookies.
- `read_doc_file` during resume is the `existing` field of `WorkIndex.Options` (the ids already in each output), not a read of the file.
- The qrels files are read one after the other as a single list of lines, and the id files likewise. This matches the code, which accumulates across files.
- Reorder.CheckCount: the model's error carries the number of distinct documents and the number of ids, the numbers the check compares. The message as written prints the first number twice; `Reorder.CountMessageAsWritten` models that message, and "## Findings" records it.
- LogLines.LineEnd: a line ends at `\n` only. Python's text mode also translates `\r` and `\r\n` (universal newlines); logs written by the download script contain only `\n`, so such input is not modelled.
- IdFiles.FileName: takes the text after the last `/`. `pathlib` also drops trailing slashes and `.` components before taking the name; such paths are not modelled.
- Documents.HashDoc: the md5 digest is a parameter, so its only stated property is that the fingerprint sees only the stripped title and text (`Documents.HashDocIgnoresPadding`).
- Warc.Responses: states membership and content type, not that archive order is kept. `Warc.ReadRecords` relies on the definition for order.

## Findings

| source | as written | input that shows it | evidently intended | confidence | as-written member | corrected member |
|---|---|---|---|---|---|---|
| download_documents.py:78-98 | `saved_docs` is created before the retry loop, so documents appended by a failed attempt stay and are written again by the successful one | want-list {r1, r2}; attempt 1 yields record r1 and then the stream breaks; attempt 2 yields r1 and completes without r2 under lenient checks | each attempt starts with an empty buffer, and only the successful attempt's documents are written | not executed | Worker.RetryDuplicates | Worker.FreshWritesSuccessfulPass |
| fix_document_order.py:40-41 | the assertion message prints `len(docs_pos)` for both numbers, so it never shows the number of ids that failed the check | id list ["a", "a"] against a log holding only document "a": the message says 1 and 1 | the second number is `len(ordered_ids)` | not executed | Reorder.CountMessageHidesIds | Reorder.CheckCount |
