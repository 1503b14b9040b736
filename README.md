# vision-text-ocr-service, modelled in Dafny

The service accepts uploaded images, runs OCR on them and stores the recognised
texts in PostgreSQL. This project models its core on values and small classes,
and proves properties of that model:

- **Temp-file store** (`Utils`, for utils.py). The upload's destination path is
  derived with POSIX `os.path.splitext`, Python's substring test `in` and POSIX
  `os.path.join`. The upload is then written into a scratch directory, modelled
  as the class `ScratchDir` that holds a map from path to bytes.
- **OCR call** (`Ocr`, for ocr/ocr.py). The engine is a function parameter with
  three outcomes:
  - it returns text;
  - it raises an `Exception`, which `read_image` turns into an error-marker
    string;
  - it raises something the handler does not catch, which propagates.
- **Text normalisation** (`Normalization`, for api/api.py:59).
  - Each line feed becomes one space.
  - Each carriage return is deleted.
  - Python's `strip()` then removes white space at both ends.
- **Records** (`Models`, for models/models.py).
- **Results table and pool handle** (`Database`, for database/database.py).
  - The table is a value: its rows plus the last value of its id sequence. The
    DDL's invariants are stated as `TableValid`.
  - The insert, the paged listing query and the lookup by id are functions on
    that value.
  - The class `Db` holds the module-level pool handle and the table. Its
    methods are `connect_to_db`, `close_db_connection`, `create_db_table` and
    one `fetchrow` of the insert statement.
- **Handlers** (`Api`, for api/api.py).
  - `extract_text` and `extract_text_async` are methods over `ScratchDir` and
    `Db`. Each is proved equal to a specification function: `SyncRun` for the
    first; for the second, `AsyncRun`, which composes `SaveAll`, `Gather` and
    `PersistAll`. Lemmas about those functions give the promised properties.
  - The two read handlers are functions of the `Db` state.
  - `save_text_to_db` is a method.

**Parameters.** Whatever the code cannot see is a parameter:

- the OCR engine;
- which paths can be opened for writing (`ScratchDir.writable`);
- which inserts the server discards without an error (`Db.drops`). A
  `BEFORE INSERT` trigger or a rule is the only way an
  `INSERT ... RETURNING` can return no row.
- whether `create_pool` succeeds;
- the time at which each insert runs.

**Errors.** Each handler returns `Result`. The error side says what a handler
raises: a failed save, an OCR exception, a database error, HTTP 404, or
HTTP 500 "Failed to save OCR result.".

## Model

| member | source | states |
|---|---|---|
| Utils.RFind | utils.py:9 | the last index holding the character, or -1; no later index holds it |
| Utils.Extension | utils.py:9 | the extension is a suffix of the name; it is empty, or it starts with '.' and holds no further '.' or '/' |
| Utils.ExtensionCharacterized | utils.py:9 | the extension is non-empty exactly when some '.' is the last '.', has no '/' after it, and has a character other than '.' or '/' before it in the base name; the extension then starts there |
| Utils.ContainsSuffix | utils.py:11 | every suffix, the empty string included, occurs in a string |
| Utils.Contains | utils.py:11 | Python's `t in s` on strings: `t` occurs at some index of `s`; `ContainsSuffix` gives the suffixes, the empty string among them |
| Utils.Join | utils.py:11 | POSIX `os.path.join` for two parts; `OwnNameLocation` states its result for the callers' arguments |
| Utils.TempPath | utils.py:9-11 | the destination path; `EmptyExtensionNotAppended`, `SameNameNotDoubleSuffixed` and `ExtensionAppendedIffAbsent` state when the extension is appended |
| Utils.EmptyExtensionNotAppended | utils.py:11 | an empty extension is never appended: the path is `join(path, save_as)` |
| Utils.SameNameNotDoubleSuffixed | utils.py:11 | with `save_as` equal to the uploaded name, as both callers pass, no second suffix is added |
| Utils.ExtensionAppendedIffAbsent | utils.py:11 | the extension is appended exactly when it occurs nowhere in `save_as`, and it is then non-empty |
| Utils.MidStringOccurrenceSuppresses | utils.py:11 | example: "x.png" saved as "a.png.bak" lands at "temp/a.png.bak", because ".png" occurs mid-string |
| Utils.PngExtension | utils.py:9 | example: the extension `splitext` gives for "x.png" is ".png" |
| Utils.OwnNameLocation | utils.py:11 | an upload saved under its own name lands under `temp/`, unless the name is absolute and the directory is discarded |
| Utils.ScratchDir.SaveFileToServer | utils.py:8-16 | afterwards the derived path holds exactly the uploaded bytes, whatever it held before, and no other path changed; when the path cannot be opened, nothing changes and the error surfaces |
| Utils.ScratchDir.Remove | api/api.py:78-79 | the given path is gone and nothing else changed |
| Ocr.ErrorMarkerNamesPath | ocr/ocr.py:10 | the error marker starts with "[ERROR] Unable to process file: " and contains both the path and the exception text |
| Ocr.ReadImage | ocr/ocr.py:4-12 | `read_image`; `ReadImageOutcome` states its three outcomes |
| Ocr.ReadImageOutcome | ocr/ocr.py:4-12 | `read_image` raises exactly when the engine's exception escapes `except Exception`; otherwise it returns the engine's text, or a marker naming the path |
| Normalization.ReplaceNewlines | api/api.py:59 | `replace('\n', ' ')`; specified by `ReplaceNewlinesSpec` |
| Normalization.DeleteCarriageReturns | api/api.py:59 | `replace('\r', '')`; specified by `DeleteCarriageReturnsSpec`, `DeleteCarriageReturnsAppend` and `DeleteCarriageReturnsKeepsOthers` |
| Normalization.StripLeading | api/api.py:59 | the leading half of `strip()`; specified by `StripLeadingSpec` |
| Normalization.StripTrailing | api/api.py:59 | the trailing half of `strip()`; specified by `StripTrailingSpec` |
| Normalization.Strip | api/api.py:59 | `strip()`; specified by `StripSpec` and `StripUnchanged` |
| Normalization.Normalize | api/api.py:59 | the whole normalisation; specified by `NormalizeClean`, `NormalizeIdempotent` and `NormalizeCrLf` |
| Normalization.ReplaceNewlinesSpec | api/api.py:59 | same length; each '\n' becomes ' ' and every other character stays |
| Normalization.DeleteCarriageReturnsSpec | api/api.py:59 | no '\r' remains; the text does not grow; any other character occurs in the result exactly when it occurs in the input |
| Normalization.DeleteCarriageReturnsAppend | api/api.py:59 | deleting carriage returns distributes over concatenation |
| Normalization.DeleteCarriageReturnsKeepsOthers | api/api.py:59 | a text without '\r' is left as it is |
| Normalization.StripLeadingSpec | api/api.py:59 | `lstrip` keeps the longest suffix that does not start with white space; only white space is cut |
| Normalization.StripTrailingSpec | api/api.py:59 | `rstrip` keeps the longest prefix that does not end with white space; only white space is cut |
| Normalization.StripSpec | api/api.py:59 | `strip` yields a contiguous slice with no white space at either end, and only white space lies outside it |
| Normalization.StripUnchanged | api/api.py:59 | a text with no white space at either end is its own `strip()` |
| Normalization.NormalizeClean | api/api.py:59 | a normalised text has no '\n', no '\r' and no white space at either end |
| Normalization.NormalizeIdempotent | api/api.py:59 | normalising twice is normalising once |
| Normalization.NormalizeCrLf | api/api.py:59 | example: "a\r\nb" becomes "a b"; the '\r' leaves no space behind |
| Normalization.NormalizeAll | api/api.py:56-59 | one normalised text per input text |
| Normalization.NormalizeAllAt | api/api.py:59 | the `i`-th normalised text is the normalisation of the `i`-th text |
| Database.EnsureSchema | database/database.py:60-66 | an existing table is kept as it is; otherwise the new table is empty and valid |
| Database.EnsureSchemaIdempotent | database/database.py:59-61 | ensuring the schema twice is ensuring it once, and an existing table keeps its rows |
| Database.StoredName | database/database.py:63 | assigning a filename to `VARCHAR(255)`: it is stored exactly when every character past the 255th is a space; the value stored is the name cut to at most 255 characters, a prefix of it, and only spaces are cut; a name that fits is stored unchanged |
| Database.StoredNameExamples | database/database.py:63 | example: 255 letters and a space are stored as the 255 letters; 255 letters and another letter are refused |
| Database.InsertInto | database/database.py:61-65 | one `INSERT ... RETURNING` (api/api.py:61-67); specified by `InsertSpec`, `SaveThenFetch` and `SaveThenFetchAny` |
| Database.InsertSpec | database/database.py:61-65 | an insert keeps `TableValid`; the stored row carries the filename as the `VARCHAR(255)` column stores it, the given text and time and an id above every earlier one, and is appended; the insert fails exactly when the sequence is exhausted or the filename does not fit, and such a filename is an error, never a missing row; no row comes back exactly when the server discards it; an error changes nothing |
| Database.AcquireError | api/api.py:55 | a connection can be acquired exactly when a pool exists and is not closed |
| Database.InsertByCreatedDesc | api/api.py:97 | inserting one row into a newest-first sequence keeps it newest-first and adds exactly that row |
| Database.SortByCreatedDesc | api/api.py:97 | `ORDER BY created_at DESC` gives a newest-first permutation of the rows |
| Database.Window | api/api.py:98 | `OFFSET` then `LIMIT`: the length is at most `limit` and 0 past the end; the `k`-th element is the `offset + k`-th |
| Database.SelectPage | api/api.py:94-100 | the listing query; specified by `SelectPageSpec` and `SelectPageErrors` |
| Database.SelectPageSpec | api/api.py:94-100 | with in-range arguments the listing succeeds; its page is the slice `offset .. offset + limit` of some newest-first permutation of the rows; an offset past the end gives an empty page |
| Database.SelectPageErrors | api/api.py:94-100 | which error the listing reports: a missing table first, whatever the arguments; then an argument outside 64 bits on either side; then a negative offset; then a negative limit. It succeeds exactly when the table exists and both arguments lie in 0 .. 2^63-1 |
| Database.FindById | api/api.py:115 | the row found has the id; none is found exactly when no row has it |
| Database.FindByIdUnique | database/database.py:62 | in a table with strictly increasing ids, the lookup returns exactly the row with the id |
| Database.SelectById | api/api.py:111-117 | the lookup query: a missing table first, then an id outside 32 bits, then `FindById`; `SaveThenFetch` and `LoadByIdFindsEveryRow` state what it finds |
| Database.SaveThenFetch | api/api.py:111-117 | a stored row is found again by the id it was given |
| Database.SaveThenFetchAny | api/api.py:132-139 | whichever way `drops` decides, a row that came back is found by its id |
| Database.Db.constructor | database/database.py:23 | at start no pool exists and none was created; the table is the one an earlier run of this service left, which satisfies `TableValid` |
| Database.Db.ConnectToDb | database/database.py:25-38 | on success the handle is a new open pool; on failure the error is re-raised and the handle keeps its previous value |
| Database.Db.CloseDbConnection | database/database.py:40-49 | nothing happens without a pool; otherwise the pool is closed but the handle is not reset |
| Database.Db.CreateDbTable | database/database.py:51-68 | fails without a usable pool; otherwise the table exists and an existing one keeps its rows; `TableValid` is kept |
| Database.Db.Insert | api/api.py:61-67 | one `fetchrow` of the insert is `InsertInto` on the current table; `TableValid` is kept |
| Api.TempFileOfIsSavePath | api/api.py:47 | the batch handlers' temp path is `temp` joined with the upload's own name |
| Api.SyncResponse | api/api.py:34-36 | a successful response maps "Time Taken" to the elapsed time, written last |
| Api.SyncStep | api/api.py:25-33 | one iteration of `extract_text`'s loop; `SyncStepCleans` and `SyncStepAnswers` state what it keeps |
| Api.SyncRun | api/api.py:24-33 | the loop of `extract_text`; specified by `SyncRunStops`, `SyncRunCleanup` and `SyncResponseLastWins` |
| Api.SyncRunStops | api/api.py:24-33 | once an image raises, later images change nothing |
| Api.SyncStepCleans | api/api.py:25-33 | one iteration keeps `SyncCleaned` |
| Api.SyncRunCleanup | api/api.py:31-33 | on every exit from `extract_text`, exactly the temp files written so far are gone and nothing else changed; it stops only at an image whose save or recognition raised |
| Api.TempFilesOfSnoc | api/api.py:27 | the temp paths of `images + [img]` are those of `images` plus that of `img` |
| Api.SyncStepAnswers | api/api.py:29-30 | one recognised image keeps `SyncAnswered` |
| Api.SyncResponseLastWins | api/api.py:29-30 | without an exception, the response keys are the uploaded filenames; each maps to the raw OCR text of the last image of that name |
| Api.ExtractOne | api/api.py:25-33 | one iteration of the loop does what `SyncStep` says |
| Api.ExtractText | api/api.py:20-36 | the directory and the response or exception are those of `SyncRun` and `SyncResponse` |
| Api.SaveStep | api/api.py:47-50 | one iteration of the save loop; `SaveStepWrites` states what it keeps |
| Api.SaveAll | api/api.py:46-50 | the save loop; specified by `SaveAllStops` and `SaveAllWrites` |
| Api.SaveAllStops | api/api.py:46-50 | a save that raises ends the save loop |
| Api.SaveStepWrites | api/api.py:47-48 | one save keeps `SavedAsWritten` |
| Api.SaveAllWrites | api/api.py:46-50 | after the save loop, the paths are the temp paths of a prefix of the images (all of them when nothing raised), each holding the last upload saved there; a failure names the next, unwritable path; no other path changed |
| Api.Gather | api/api.py:53 | either one text per path, each the recognition of that path's bytes in input order, or the exception of one task that raised |
| Api.PersistStep | api/api.py:57-74 | one iteration of the insert loop; `PersistStepKeeps` states what it keeps |
| Api.PersistAll | api/api.py:56-74 | the insert loop; specified by `PersistAllStops` and `PersistAllKeeps` |
| Api.PersistAllStops | api/api.py:56-74 | an insert that raises ends the insert loop |
| Api.PersistStepKeeps | api/api.py:57-74 | one iteration keeps `PersistedSoFar` |
| Api.PersistAllKeeps | api/api.py:56-74 | the insert loop keeps `TableValid` and appends exactly the rows that came back, at most one per image; without an exception the rows follow the input (`RowsFollowInput`); a filename the column cannot hold raises |
| Api.SaveUploads | api/api.py:46-50 | the save loop does what `SaveAll` says |
| Api.PersistText | api/api.py:57-67 | one iteration inserts the normalised `i`-th text under the image's own filename |
| Api.PersistTexts | api/api.py:55-74 | the insert loop does what `PersistAll` says on the normalised texts |
| Api.RemoveTempFiles | api/api.py:75-79 | afterwards no collected path remains, and nothing else changed |
| Api.ExtractTextAsync | api/api.py:38-84 | the result, directory and table are those of `AsyncRun`; `TableValid` is kept |
| Api.AsyncRun | api/api.py:38-84 | the whole of `extract_text_async`; specified by `AsyncRunFiles`, `AsyncCleansUp`, `AsyncSaveFailureLeavesTempFiles`, `AsyncStoresOnlyAfterAllRecognized`, `AsyncTableGrows`, `AsyncRowsFollowInput` and `AsyncRunOk` |
| Api.AsyncRunFiles | api/api.py:75-79 | the directory left is the saved one, less every collected path once the `try` was entered |
| Api.CleanedFiles | api/api.py:77-79 | removing the collected paths leaves no temp path of the batch and restores every other path |
| Api.AsyncCleansUp | api/api.py:75-79 | when every upload could be written, no temp file of the batch remains, whatever happened later, and no other file changed |
| Api.AsyncSaveFailureLeavesTempFiles | api/api.py:46-52 | a save that raises reports the first unwritable image and leaves the table untouched; the temp files written before it stay behind |
| Api.AsyncStoresOnlyAfterAllRecognized | api/api.py:52-55 | the table changes only when every upload was saved, every image was recognised without raising and a connection was acquired |
| Api.AsyncTableGrows | api/api.py:56-74 | against a valid table, the call only appends rows and keeps `TableValid`; a filename the column cannot hold makes it raise |
| Api.RecognizedTexts | api/api.py:46-53 | each recognised text comes from the last upload saved at that image's temp path; images that share a path share a text |
| Api.AsyncRowsFollowInput | api/api.py:53-74 | on success the rows returned are exactly the rows appended, at most one per image. They are in input order; each carries its image's filename as the column stores it and the normalised OCR text at the same index. An image is missing exactly when the server discarded its insert |
| Api.AsyncRunOk | api/api.py:38-84 | a successful response means every save succeeded, every recognition returned text, and the response and table are the insert loop's own outcome over those texts |
| Api.LoadSavedTextFromDb | api/api.py:87-103 | an unusable pool raises. Otherwise the listing succeeds exactly when the table exists and both arguments lie in 0 .. 2^63-1, and any other outcome is the query's own error. The page is newest-first and made of table rows; its length is `limit`, or what is left past `offset`; it is the slice from `offset` of some newest-first permutation of the rows |
| Api.LoadSavedTextFromDbById | api/api.py:106-122 | the row returned lies in the table and has the id. `NotFound` comes exactly when the pool is usable, the id fits 32 bits, the table exists and no row has the id |
| Api.LoadByIdFindsEveryRow | api/api.py:117-120 | every row of a valid table is returned by a lookup of its id |
| Api.SaveTextToDb | api/api.py:125-146 | with a usable pool, one insert of the submitted text as given. It returns the stored row, `NotSaved` (HTTP 500) when no row came back, or the database error. A returned row carries the filename as the column stores it, and is then found by its id |

## Left out

- OCR engine internals and the two-second `asyncio.sleep`. The engine is a
  function parameter.
- The `lang` parameter of `read_image`. Both handlers use its default, "eng",
  and the model passes it through unchanged.
- asyncio scheduling: `create_task`, interleavings, and tasks left running
  after `gather` raised. `gather` is an order-preserving map over the saved
  paths that yields all texts or fails as a whole.
- Api.Gather: when several tasks raise, the real `gather` propagates the first
  exception in completion order. The model reports the one with the lowest
  index, because completion order is not modelled.
- Wall-clock timing. The "Time Taken" value is a constant marker, `TimeTaken`,
  not a rounded float. `created_at` is a parameter of each insert.
- `print` logging throughout.
- asyncpg internals, SQL text and transactions. The `transaction()` block of
  `create_db_table` holds a single statement.
- Acquiring a connection from an open pool never fails in the model. Network
  and server failures are not modelled.
- Environment variables and URL construction (database/database.py:10-18).
- FastAPI routing, `UploadFile`, HTTP status codes, Pydantic validation and
  the `datetime.utcnow` default (models/models.py:12). 404 and 500 become the
  failures `NotFound` and `NotSaved`.
- main.py is not part of this model.
- An `UploadFile` without a filename. Names are always strings here.
- Utils.ScratchDir.SaveFileToServer: `shutil.copyfileobj` failing after the
  file was opened is not modelled. Such a failure would leave a partial file
  behind; in the model a write succeeds or changes nothing.
- Database.InsertInto: PostgreSQL's refusal of NUL characters in text columns
  is not modelled.
- Database.InsertInto: the sequence value consumed by a failed insert is not
  modelled. After an error the model's sequence stands where it stood.
- Database.SortByCreatedDesc: the server may order rows with equal timestamps
  either way. The model picks one order; `SelectPageSpec` states only what
  holds for every order.
- Database.Db.ConnectToDb: an earlier pool is replaced without being closed.
  The model records this, but no lemma is stated about leaked pools.
- Utils.ScratchDir: paths are compared as strings. Two strings that name one
  file (through ".", "..", repeated "/" or a symbolic link) are two files in the
  model, so "share a temp path" in `LastAtItsPath`, `SavedAsWritten` and
  `RecognizedTexts` means equal strings.
- Database.Db.drops: whether the server discards an insert is a fixed function
  of the submitted filename and text. A trigger whose decision depends on the
  table's contents or on the time is not modelled.
- Utils.ScratchDir.Remove: `os.remove` raising (a permission error, a busy
  file) is not modelled; every removal of an existing file succeeds. In the
  code such an exception would replace the handler's result and stop the
  cleanup loop, so `SyncRunCleanup`, `AsyncCleansUp`, `CleanedFiles` and
  `RemoveTempFiles` hold on the assumption that every removal succeeds.
