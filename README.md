# ArchiveTGBot in Dafny

ArchiveTGBot is a Telegram bot that archives files. A user uploads a document,
photo or video; the bot stores Telegram's file reference under a random 16-digit
"numerical file id" (the handle) in a record file with four columns
(`numerical_file_id, file_id, file_name, file_type`) and in an in-memory index
rebuilt from that file at start-up. `/get <handle>` and `/start <handle>` send
the stored file back and schedule the delivered copy's deletion after 1.5 hours.
Three maintenance scripts rewrite the record file: a normaliser (`csvFix.py`),
a third-column quoter (`archiveTG_data_rename.py`) and a prefix keeper
(`line_trimmer.py`).

This project models those four files and proves properties of the model:

- `Wrappers.dfy`: `Option` and `Result`.
- `CsvRows.dfy`: a record-file row (the list of fields the `csv` module yields)
  and the standard header.
- `PyText.dfy`: the Python string operations the code relies on, with their
  edge cases. These are clamped slicing, substring `in`, `strip` (over the full
  set of characters `str.isspace` accepts), ASCII `lower`, one-character `split`
  and `join`, and `writelines` as concatenation.
- `ArchiveBot.dfy` (bot.py): the bot as a pure state machine. The state
  (`ArchiveState`) is the index, the record file's rows and the scheduled
  deletion jobs. Each handler is a function from state to an `Effect` (new
  state and reply tag), and the lemmas are stated over these functions. The
  process itself is the class `Bot`, with the index, the file and the job
  list as fields. Its methods (`LoadData`, `SearchCsv`, `GetFileId`,
  `SendFileCommand`, `StartCommand`) follow the source's loops and branches.
  Each is proved to produce exactly the state and reply of the corresponding
  function.
- `CsvFix.dfy` (csvFix.py): row selection (the first row is data unless its
  first field names the header; later rows need four fields) and field
  cleaning, padding and truncation. The imperative conversion is proved equal
  to the specification `Converted`.
- `QuoteThirdColumn.dfy` (archiveTG_data_rename.py): the line written per row,
  with its third field quoted in the manner of rules 5-7 of section 2 of
  RFC 4180. It also models the default output name (POSIX
  `os.path.splitext`) and the read/write loops. It proves that a written line
  is read back by the model's own parser `ParseLine` when the fields written
  raw (all but the third) contain no comma, and that a comma in the first or
  second field breaks the row. A `csv` reader would further need those fields
  to contain no `"` and no line break; that reader is not modelled.
- `LineTrimmer.dfy` (line_trimmer.py): line splitting as Python's file
  iteration does it, the break loop that keeps the first 10000 lines, and
  the output target.

Environment facts are parameters:

- whether a file exists is an `Option` of its contents;
- whether an output file can be opened, or an append succeeds, is a `bool`;
- the random digits of a new handle are `picks`;
- the message Telegram returns for a delivered copy is a `MessageRef`.

Where the documentation and the code disagree, the model follows the code:

- the line trimmer keeps 10000 lines, not the 500 its docstring and function
  name say;
- the quoter quotes only the third field;
- a handle collision is not retried, so a new upload overwrites the index
  entry of an existing handle that happens to be drawn again;
- `/start` with no known handle does not send a welcome text. It calls the
  nested `welcome_message` before the `def` that binds it, which raises
  `UnboundLocalError`; the reply tag `WelcomeUnbound` stands for that.

## Model

| member | source | states |
|---|---|---|
| ArchiveBot.ReplayFailsIff | bot.py:38-45 | Loading fails exactly when some data row has more than four fields (unpacking it raises `ValueError`, which the loader's `FileNotFoundError` handler does not catch) |
| ArchiveBot.ReplayLastRowWins | bot.py:38-45 | After a successful load a handle is indexed exactly when some four-field row names it, and its entry is that of the last such row |
| ArchiveBot.ReplayAppend | bot.py:38-45 | Loading a file with one more four-field row gives the earlier index updated at that row's handle |
| ArchiveBot.ReplayDistinctCount | bot.py:31-50 | Rows with pairwise distinct handles load into an index with exactly as many entries |
| ArchiveBot.StickyFailure | bot.py:38-47 | Once a prefix of the data rows fails to load, the whole file fails with the same error: the loop is aborted, not resumed |
| ArchiveBot.Bot.LoadData | bot.py:31-50 | The loop over the rows after the header returns exactly the load specification: a missing or empty file gives an empty index, short rows are skipped, later rows overwrite earlier ones, a row of five or more fields fails the load |
| ArchiveBot.Bot.Reload | bot.py:52-53 | The global index becomes the loaded index; a failing load reports its error and installs nothing |
| ArchiveBot.Bot.InitializeCsv | bot.py:23-28 | A missing record file is created holding only the header row; an existing one is left untouched |
| ArchiveBot.FirstMatch | bot.py:55-68 | A found row is a row of the file with at least four fields whose file id matches the query |
| ArchiveBot.FirstMatchIsFirst | bot.py:55-68 | The scan finds nothing exactly when no row is a hit, and otherwise returns the first hit in file order (the header row included) |
| ArchiveBot.ShortQueryMatches | bot.py:63-64 | For a query of at most 44 characters the second slice test is vacuous: only the first 15 characters decide |
| ArchiveBot.LongReferencesMatch | bot.py:63-64 | For references of at least 68 characters a match is equality of characters 0-14 and 44-67, so distinct references can be taken for duplicates |
| ArchiveBot.ReuploadIsFound | bot.py:60-65 | Uploading a file id already stored in a four-field row is always detected as a duplicate |
| ArchiveBot.Bot.SearchCsv | bot.py:55-68 | The early-return loop returns exactly the first matching row in file order, or nothing |
| ArchiveBot.GenerateNumericalFileId | bot.py:70-72 | A handle has the requested length and each character is the decimal digit the random source picked for that position |
| ArchiveBot.HandlesDistinct | bot.py:70-72 | Different random picks give different handles |
| ArchiveBot.ExtractFile | bot.py:76-93 | A message has a file exactly when it has a document, photo or video. The document wins over the photo's largest size, which wins over the video. A document or video keeps its own non-empty name and otherwise is named after its type, a photo is always named "Photo". Without a file the defaults "Unknown file name" and "Unknown file type" remain |
| ArchiveBot.UploadSchedulesNotice | bot.py:97-148 | Without a non-empty file id nothing changes and the reply is "no valid file"; with one exactly one 60-second deletion of the user's message is scheduled, whatever follows |
| ArchiveBot.UploadDuplicate | bot.py:105-115 | A duplicate leaves the index and file unchanged and reports the found row's name and handle |
| ArchiveBot.UploadNew | bot.py:116-146 | A new upload puts the generated handle in the index, possibly overwriting an existing entry, and changes no other key. A successful append adds exactly one row `[handle, file id, name, type]` after the old rows; a failed append leaves the file unchanged and reports the error |
| ArchiveBot.UploadKeepsConsistent | bot.py:117-131 | Reloading a record file that has at least its header line rebuilds the index after every upload outcome except a failed append |
| ArchiveBot.HeaderlessFileLosesFirstUpload | bot.py:23-131 | The second exception: in an existing but empty record file (which start-up does not fill) the first upload's row becomes the skipped header line. The index loses the handle on a restart, `/get` then rejects it, yet a re-upload of the same file is answered as a duplicate with that handle |
| ArchiveBot.FailedAppendLostOnRestart | bot.py:120-146 | After a failed append the new handle is served from memory but absent from what a restart would load |
| ArchiveBot.Bot.GetFileId | bot.py:74-148 | The handler's new index, file, jobs and reply are exactly those of the upload specification, and the record file exists afterwards if a row was written |
| ArchiveBot.GetHandle | bot.py:156-159 | `/get` takes the first argument, or else the text after the last '/' (the whole text when it has none) |
| ArchiveBot.StartHandle | bot.py:212-216 | `/start` takes the first argument, or else the text after the last '/', and has no handle when the text contains no '/' |
| ArchiveBot.SendFileRetrieves | bot.py:150-204 | `/get` never changes the index or file. It sends the handle's record exactly when the handle is known, as a photo exactly when the type is "Photo", and schedules exactly one 5400-second deletion of the sent copy. Otherwise it answers "invalid handle" and schedules nothing |
| ArchiveBot.StartRetrieves | bot.py:206-265 | `/start` sends a known handle's record other than "" and "start", in the same way. Every other case ends in the unbound welcome message |
| ArchiveBot.UploadThenGet | bot.py:116-168 | A handle issued by a new upload is served back with the uploaded file id, name and type, whether or not the row reached the file |
| ArchiveBot.Bot.SendFileCommand | bot.py:150-204 | The handler's jobs and reply are exactly those of the `/get` specification |
| ArchiveBot.Bot.StartCommand | bot.py:206-265 | The handler's jobs and reply are exactly those of the `/start` specification |
| PyText.SplitLast | bot.py:159 | The last part of `split('/')` is the suffix after the last '/', or the whole text when there is none, and there is more than one part exactly when the text contains '/' |
| CsvFix.KeptRowsMembers | csvFix.py:20-22 | A later row is kept exactly when it has at least four fields |
| CsvFix.KeptRowsAppend | csvFix.py:20-22 | The filter keeps the rows' relative order |
| CsvFix.SelectRowsMembers | csvFix.py:14-22 | The first row survives exactly when it is non-empty and its first field does not name the header (whatever its length); a later row survives exactly when it has four fields |
| CsvFix.SelectData | csvFix.py:9-22 | The reading loop collects exactly the selected rows in file order |
| CsvFix.CleanFieldEnds | csvFix.py:42 | A cleaned field never starts or ends with a single quote, and a field whose ends are neither whitespace nor quotes is unchanged |
| CsvFix.CleanFieldKeepsMiddle | csvFix.py:42 | Cleaning keeps a contiguous piece of the field and removes only whitespace and quote characters, at the two ends |
| CsvFix.NormalizeRow | csvFix.py:39-49 | The written row has exactly four fields: the cleaned input fields first, "Unknown" after them |
| CsvFix.ConvertedShape | csvFix.py:29-49 | The output is the standard header followed by one four-field row per selected row, in the same order |
| CsvFix.CleanRow | csvFix.py:39-49 | The clean-and-pad loops produce exactly the normalised row |
| CsvFix.ConvertCsvForCloudflare | csvFix.py:3-56 | Success exactly when the input can be read and the output opened; then the output is the header plus the normalised selected rows, otherwise nothing is written |
| CsvFix.ValidateIgnoresHeader | csvFix.py:58-84 | Validation succeeds on every readable file with a row, whatever that first row holds, and fails on a missing or empty file: the header is never compared |
| CsvFix.ConvertedValidates | csvFix.py:58-84 | Every converted file validates |
| QuoteThirdColumn.EscapeUnquoted | archiveTG_data_rename.py:36 | Text without double quotes is written unchanged |
| QuoteThirdColumn.ReadQuotedOfQuote | archiveTG_data_rename.py:35-38 | Un-escaping the written third field (dropping the outer quotes and reading `""` as `"`) gives back the original content and stops exactly at the closing quote |
| QuoteThirdColumn.FormatLineEnds | archiveTG_data_rename.py:32-44 | Every row, whatever its length, gives one line ending in a newline |
| QuoteThirdColumn.FormatLineRoundTrip | archiveTG_data_rename.py:34-41 | A row of three or more fields is parsed back unchanged from its line when its raw fields (0, 1 and 3 onward) contain no comma: fields other than the third are written verbatim, with a separator before the fourth only when there is one |
| QuoteThirdColumn.CommaInRawFieldBreaksRow | archiveTG_data_rename.py:34-41 | A row whose first or second field contains a comma is never read back as itself: those fields are written unprotected |
| QuoteThirdColumn.ShortRowRoundTrip | archiveTG_data_rename.py:42-44 | A row of one or two comma-free fields is recovered by splitting its line at commas: it is written as a plain comma join |
| QuoteThirdColumn.SplitExtParts | archiveTG_data_rename.py:15 | Root and extension concatenate to the path; the extension is empty or a dot followed by no dot and no slash |
| QuoteThirdColumn.DefaultOutputIsNew | archiveTG_data_rename.py:13-16 | The default output name is the input's root, `_modified`, then the input's extension, and never names the input file |
| QuoteThirdColumn.WriteRow | archiveTG_data_rename.py:34-44 | The line built in the writing loop is the row's formatted line |
| QuoteThirdColumn.AddQuotesToThirdColumn | archiveTG_data_rename.py:4-53 | The output file is the given one or the default name. A missing input writes nothing; an unopenable output writes nothing; otherwise one formatted line per input row is written, in input order |
| LineTrimmer.ConcatSplitLines | line_trimmer.py:21 | Iterating over a file's lines and writing them back gives the text again |
| LineTrimmer.SplitLinesShape | line_trimmer.py:21 | Every line is non-empty, and every line but the last ends with its only newline |
| LineTrimmer.KeptLines | line_trimmer.py:21-24 | The kept lines are the first min(n, 10000) input lines, in order |
| LineTrimmer.KeptIsPrefix | line_trimmer.py:21-32 | The written text is a prefix of the input text |
| LineTrimmer.ShortFileUnchanged | line_trimmer.py:21-32 | A file of at most 10000 lines is written back unchanged |
| LineTrimmer.LongFileCut | line_trimmer.py:21-32 | A longer file keeps exactly 10000 lines and is cut just after a newline, strictly shortening it |
| LineTrimmer.KeepFirst500Lines | line_trimmer.py:9-43 | A missing input writes nothing. The target is the given output file, or the input file itself. The written text is the kept lines and the reported count is their number |

## Left out

- Telegram I/O: the calls to `send_message`, `send_photo` and `send_document`, the Markdown texts of the replies, and the deletion itself (`delete_message_safe`, `message.delete`). Replies are tags and deletions are scheduled jobs. The job queue's timing is not modelled.
- `error_handler`, `main`, logging, `print`, environment variables, webhook and polling set-up: these are process plumbing with no effect on the archive.
- The `csv` module's quoting, escaping and line endings (`QUOTE_MINIMAL`, `\r\n`): files are sequences of rows. The normaliser's output is therefore a list of rows, not its exact text.
- Text-mode newline translation and UTF-8 decoding: the line trimmer works on the text after decoding, with `\n` as the line terminator.
- `lower()` beyond ASCII: only `A`-`Z` are folded. This matters only for a header marker spelled with non-ASCII letters.
- Partial writes: a failing write is modelled as a failure to open the output (nothing written). An exception in the middle of writing, which would leave a truncated file, is not modelled.
- The `except (IndexError, ValueError)` branches of `send_file` and `start` are unreachable for string input and are not modelled. An absent message text (`None`) is not modelled either.
- Concurrency: handlers are modelled one at a time; the source updates the index and appends to the file without locking.
- Randomness: the digits of a new handle are the `picks` parameter, so the probability of a collision is not modelled. A collision with an existing handle overwrites its index entry, as in the code.
- Exceptions from opening or writing the record file during an upload are all represented by the one `appendOk` flag.
- The quoter's reading loop also tests each row for three fields and does nothing with the result; that no-op is not modelled, and neither are the success and error messages.
