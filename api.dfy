/** The request handlers of api/api.py, against the scratch directory, the
    OCR engine and the database state. */
module Api {
  import opened Wrappers
  import opened Utils
  import Ocr
  import opened Normalization
  import opened Models
  import opened Database

  /** Default page of the listing endpoint (api/api.py:88). */
  const DEFAULT_LIMIT: int := 100
  const DEFAULT_OFFSET: int := 0

  /** The key `extract_text` writes the elapsed time under (api/api.py:34). */
  const TIME_TAKEN_KEY: string := "Time Taken"

  /** What a handler raises instead of returning. */
  datatype Failure =
    | SaveFailed(path: Path)    // writing a temp file raised
    | OcrRaised(reason: string) // `read_image` raised
    | DbFailed(error: DbError)  // the pool or a statement raised
    | NotFound(id: int)         // HTTP 404
    | NotSaved                  // HTTP 500 "Failed to save OCR result."

  /** A value of `extract_text`'s response: a recognised text, or the elapsed
      time, whose number is not modelled. */
  datatype Field = TextField(text: string) | TimeTaken

  /** Where both batch handlers save an upload: `temp` joined with the upload's
      own name (api/api.py:27, api/api.py:47). */
  function TempFileOf(img: Upload): (p: Path)
    ensures p != []
  {
    Join(TEMP_DIR, img.filename)
  }

  /** It is the path `_save_file_to_server` derives when `save_as` is the
      upload's own name. */
  lemma TempFileOfIsSavePath(img: Upload)
    ensures TempFileOf(img) == TempPath(img.filename, TEMP_DIR, img.filename)
  {
    SameNameNotDoubleSuffixed(img.filename, TEMP_DIR);
  }

  function TempFilesOf(images: seq<Upload>): set<Path> {
    set img | img in images :: TempFileOf(img)
  }

  // ---------------------------------------------------------------------------
  // extract_text (api/api.py:20-36)
  // ---------------------------------------------------------------------------

  /** Where `extract_text` stands after some images: the response so far, the
      scratch directory, how many images were saved, and the exception that
      stopped it, if any. */
  datatype SyncState = SyncState(response: map<string, Field>, files: map<Path, Bytes>, saved: nat, failure: Option<Failure>)

  /** What awaiting `read_image` on an image's temp file yields, the file
      holding the image's bytes. */
  function Recognize(engine: Ocr.Engine, img: Upload): Ocr.Recognition {
    Ocr.ReadImage(engine, TempFileOf(img), img.content)
  }

  /** One iteration of `extract_text`'s loop (api/api.py:25-33): save the image,
      recognise it and record the raw text under its filename; the `finally`
      removes the temp file once it was written. An exception stops the loop. */
  function SyncStep(st: SyncState, img: Upload, engine: Ocr.Engine, writable: Path -> bool): (r: SyncState) {
    var p := TempFileOf(img);
    if st.failure.Some? then st
    else if !writable(p) then st.(failure := Some(SaveFailed(p)))
    else match Recognize(engine, img)
      case Raised(reason) => SyncState(st.response, st.files - {p}, st.saved + 1, Some(OcrRaised(reason)))
      case Text(text) => SyncState(st.response[img.filename := TextField(text)], st.files - {p}, st.saved + 1, None)
  }

  /** The effect of `extract_text`'s loop on `images`. */
  function SyncRun(files0: map<Path, Bytes>, images: seq<Upload>, engine: Ocr.Engine, writable: Path -> bool): (r: SyncState)
    decreases |images|
  {
    if images == [] then SyncState(map[], files0, 0, None)
    else SyncStep(SyncRun(files0, images[..|images| - 1], engine, writable), images[|images| - 1], engine, writable)
  }

  /** What `extract_text` returns or raises after its loop: the response with
      the elapsed time written last. */
  function SyncResponse(st: SyncState): (r: Result<map<string, Field>, Failure>)
    ensures r.Ok? ==> TIME_TAKEN_KEY in r.value && r.value[TIME_TAKEN_KEY] == TimeTaken
  {
    if st.failure.None? then Ok(st.response[TIME_TAKEN_KEY := TimeTaken]) else Err(st.failure.value)
  }

  /** Once the loop has stopped, later images change nothing. */
  lemma {:induction false} SyncRunStops(files0: map<Path, Bytes>, images: seq<Upload>, k: nat, engine: Ocr.Engine, writable: Path -> bool)
    requires k <= |images|
    requires SyncRun(files0, images[..k], engine, writable).failure.Some?
    ensures SyncRun(files0, images, engine, writable) == SyncRun(files0, images[..k], engine, writable)
  {
    if k < |images| {
      assert images[..|images| - 1][..k] == images[..k];
      SyncRunStops(files0, images[..|images| - 1], k, engine, writable);
    } else {
      assert images[..k] == images;
    }
  }

  /** After `extract_text`'s loop has run over `images` and reached `st`: exactly
      the temp files of the images that were saved are gone and nothing else
      changed; the loop stops only at an image whose save or recognition
      raised, and when nothing raised every image was saved. */
  ghost predicate SyncCleaned(files0: map<Path, Bytes>, images: seq<Upload>, engine: Ocr.Engine, writable: Path -> bool, st: SyncState) {
    st.saved <= |images|
    && st.files == files0 - TempFilesOf(images[..st.saved])
    && (st.failure.None? ==> st.saved == |images|)
    && (st.failure.Some? ==> st.failure.value.SaveFailed? || st.failure.value.OcrRaised?)
    && (st.failure.Some? && st.failure.value.SaveFailed? ==>
          st.saved < |images| && st.failure.value.path == TempFileOf(images[st.saved])
          && !writable(TempFileOf(images[st.saved])))
    && (st.failure.Some? && st.failure.value.OcrRaised? ==>
          0 < st.saved && Recognize(engine, images[st.saved - 1]) == Ocr.Raised(st.failure.value.reason))
  }

  lemma SyncStepCleans(files0: map<Path, Bytes>, images: seq<Upload>, img: Upload, engine: Ocr.Engine, writable: Path -> bool, st: SyncState)
    requires SyncCleaned(files0, images, engine, writable, st)
    ensures SyncCleaned(files0, images + [img], engine, writable, SyncStep(st, img, engine, writable))
  {
    var all := images + [img];
    assert all[..st.saved] == images[..st.saved];
    if st.failure.None? && writable(TempFileOf(img)) {
      assert all[..st.saved + 1] == images + [img];
      assert images[..st.saved] == images;
      TempFilesOfSnoc(images, img);
    }
  }

  /** Temp files of `extract_text`: on every exit, exactly the temp files written
      so far are gone; in particular none remains when nothing raised. */
  lemma {:induction false} SyncRunCleanup(files0: map<Path, Bytes>, images: seq<Upload>, engine: Ocr.Engine, writable: Path -> bool)
    ensures SyncCleaned(files0, images, engine, writable, SyncRun(files0, images, engine, writable))
  {
    if images == [] {
      assert TempFilesOf(images[..0]) == {};
    } else {
      var n := |images| - 1;
      SyncRunCleanup(files0, images[..n], engine, writable);
      SyncStepCleans(files0, images[..n], images[n], engine, writable, SyncRun(files0, images[..n], engine, writable));
      assert images[..n] + [images[n]] == images;
    }
  }

  lemma TempFilesOfSnoc(images: seq<Upload>, img: Upload)
    ensures TempFilesOf(images + [img]) == TempFilesOf(images) + {TempFileOf(img)}
  {
    assert forall x :: x in images + [img] <==> x in images || x == img;
  }

  /** Filenames of a sequence of uploads. */
  function Filenames(images: seq<Upload>): set<string> {
    set img | img in images :: img.filename
  }

  /** No later upload in `images` carries the name of the one at `j`. */
  ghost predicate LastUnderItsName(images: seq<Upload>, j: int)
    requires 0 <= j < |images|
  {
    forall l :: j < l < |images| ==> images[l].filename != images[j].filename
  }

  /** The response after `images` were handled and nothing raised: every image
      was recognised, the keys are the uploaded filenames, and each maps to the
      raw (unnormalised) text of the last image uploaded under that name. */
  ghost predicate SyncAnswered(images: seq<Upload>, engine: Ocr.Engine, response: map<string, Field>) {
    response.Keys == Filenames(images)
    && (forall j :: 0 <= j < |images| ==> Recognize(engine, images[j]).Text?)
    && forall j :: 0 <= j < |images| && LastUnderItsName(images, j) ==>
         response[images[j].filename] == TextField(Recognize(engine, images[j]).text)
  }

  lemma SyncStepAnswers(images: seq<Upload>, img: Upload, engine: Ocr.Engine, response: map<string, Field>)
    requires SyncAnswered(images, engine, response)
    requires Recognize(engine, img).Text?
    ensures SyncAnswered(images + [img], engine, response[img.filename := TextField(Recognize(engine, img).text)])
  {
    var all := images + [img];
    assert Filenames(all) == Filenames(images) + {img.filename} by {
      assert forall x :: x in all <==> x in images || x == img;
    }
    forall j | 0 <= j < |images| && LastUnderItsName(all, j)
      ensures LastUnderItsName(images, j) && all[j].filename != img.filename
    {
      assert all[|images|] == img;
      forall l | j < l < |images| ensures images[l].filename != images[j].filename {
        assert all[l] == images[l];
      }
    }
  }

  /** When `extract_text`'s loop raised nothing, its response is as
      `SyncAnswered` says. */
  lemma {:induction false} SyncResponseLastWins(files0: map<Path, Bytes>, images: seq<Upload>, engine: Ocr.Engine, writable: Path -> bool)
    requires SyncRun(files0, images, engine, writable).failure.None?
    ensures SyncAnswered(images, engine, SyncRun(files0, images, engine, writable).response)
  {
    if images != [] {
      var n := |images| - 1;
      var st := SyncRun(files0, images[..n], engine, writable);
      SyncStepOk(st, images[n], engine, writable);
      SyncResponseLastWins(files0, images[..n], engine, writable);
      SyncStepAnswers(images[..n], images[n], engine, st.response);
      assert images[..n] + [images[n]] == images;
    }
  }

  /** An iteration that raised nothing followed one that raised nothing, and
      recorded the recognised text under the image's filename. */
  lemma SyncStepOk(st: SyncState, img: Upload, engine: Ocr.Engine, writable: Path -> bool)
    requires SyncStep(st, img, engine, writable).failure.None?
    ensures st.failure.None? && Recognize(engine, img).Text?
    ensures SyncStep(st, img, engine, writable).response == st.response[img.filename := TextField(Recognize(engine, img).text)]
  {
  }

  /** One iteration of `extract_text`'s loop (api/api.py:25-33), `saved`
      images having been handled before it. */
  method ExtractOne(dir: ScratchDir, img: Upload, engine: Ocr.Engine, response: map<string, Field>, ghost saved: nat)
    returns (response': map<string, Field>, failure: Option<Failure>)
    modifies dir
    ensures SyncStep(SyncState(response, old(dir.files), saved, None), img, engine, dir.writable)
            == SyncState(response', dir.files, if failure.Some? && failure.value.SaveFailed? then saved else saved + 1, failure)
  {
    response' := response;
    TempFileOfIsSavePath(img);
    var result := dir.SaveFileToServer(img, TEMP_DIR, img.filename);
    if result.Err? {
      return response', Some(SaveFailed(result.error.path));
    }
    var tempFile := result.value;
    var text := Ocr.ReadImage(engine, tempFile, dir.files[tempFile]);
    assert text == Recognize(engine, img);
    if text.Text? {
      response' := response'[img.filename := TextField(text.text)];
    }
    if tempFile != [] && dir.Exists(tempFile) {
      dir.Remove(tempFile);
    }
    assert dir.files == old(dir.files) - {tempFile};
    if text.Raised? {
      return response', Some(OcrRaised(text.reason));
    }
    return response', None;
  }

  /** `extract_text` (api/api.py:20-36). */
  method ExtractText(dir: ScratchDir, images: seq<Upload>, engine: Ocr.Engine) returns (r: Result<map<string, Field>, Failure>)
    modifies dir
    ensures var st := SyncRun(old(dir.files), images, engine, dir.writable);
            dir.files == st.files && r == SyncResponse(st)
  {
    var response: map<string, Field> := map[];
    var i := 0;
    while i < |images|
      invariant 0 <= i <= |images|
      invariant SyncRun(old(dir.files), images[..i], engine, dir.writable) == SyncState(response, dir.files, i, None)
    {
      var img := images[i];
      assert images[..i + 1] == images[..i] + [img];
      var failure;
      response, failure := ExtractOne(dir, img, engine, response, i);
      if failure.Some? {
        SyncRunStops(old(dir.files), images, i + 1, engine, dir.writable);
        return Err(failure.value);
      }
      i := i + 1;
    }
    assert images[..i] == images;
    response := response[TIME_TAKEN_KEY := TimeTaken];
    return Ok(response);
  }

  // ---------------------------------------------------------------------------
  // extract_text_async (api/api.py:38-84)
  // ---------------------------------------------------------------------------

  /** Where the save loop of `extract_text_async` stands: the scratch directory,
      the temp paths collected so far (the tasks hold nothing else), and the
      exception that stopped it, if any. */
  datatype Saved = Saved(files: map<Path, Bytes>, paths: seq<Path>, failure: Option<Failure>)

  /** One iteration of the save loop (api/api.py:46-50). */
  function SaveStep(st: Saved, img: Upload, writable: Path -> bool): (r: Saved) {
    var p := TempFileOf(img);
    if st.failure.Some? then st
    else if !writable(p) then st.(failure := Some(SaveFailed(p)))
    else Saved(st.files[p := img.content], st.paths + [p], None)
  }

  /** The save loop over `images`. */
  function SaveAll(files0: map<Path, Bytes>, images: seq<Upload>, writable: Path -> bool): (r: Saved)
    decreases |images|
  {
    if images == [] then Saved(files0, [], None)
    else SaveStep(SaveAll(files0, images[..|images| - 1], writable), images[|images| - 1], writable)
  }

  /** Once a save has raised, later images change nothing. */
  lemma {:induction false} SaveAllStops(files0: map<Path, Bytes>, images: seq<Upload>, k: nat, writable: Path -> bool)
    requires k <= |images|
    requires SaveAll(files0, images[..k], writable).failure.Some?
    ensures SaveAll(files0, images, writable) == SaveAll(files0, images[..k], writable)
  {
    if k < |images| {
      assert images[..|images| - 1][..k] == images[..k];
      SaveAllStops(files0, images[..|images| - 1], k, writable);
    } else {
      assert images[..k] == images;
    }
  }

  /** No later upload of `images` has the same temp path as the one at `j`. */
  ghost predicate LastAtItsPath(images: seq<Upload>, j: int)
    requires 0 <= j < |images|
  {
    forall l :: j < l < |images| ==> TempFileOf(images[l]) != TempFileOf(images[j])
  }

  /** After the save loop ran over `images` and reached `st`: the collected paths
      are the temp paths of a prefix of the images, all of them when nothing
      raised, and otherwise the next image's path was not writable; each path
      holds the bytes of the last image saved to it, so two images of the
      same name share one file; no other path changed. */
  ghost predicate SavedAsWritten(files0: map<Path, Bytes>, images: seq<Upload>, writable: Path -> bool, st: Saved) {
    |st.paths| <= |images|
    && (forall j :: 0 <= j < |st.paths| ==> st.paths[j] == TempFileOf(images[j]) && st.paths[j] in st.files && writable(st.paths[j]))
    && (st.failure.None? ==> |st.paths| == |images|)
    && (st.failure.Some? ==> |st.paths| < |images| && st.failure == Some(SaveFailed(TempFileOf(images[|st.paths|])))
                             && !writable(TempFileOf(images[|st.paths|])))
    && (forall j :: 0 <= j < |st.paths| && LastAtItsPath(images[..|st.paths|], j) ==> st.files[st.paths[j]] == images[j].content)
    && (forall p :: p !in st.paths ==> (p in st.files <==> p in files0) && (p in files0 ==> st.files[p] == files0[p]))
  }

  lemma SaveStepWrites(files0: map<Path, Bytes>, images: seq<Upload>, img: Upload, writable: Path -> bool, st: Saved)
    requires SavedAsWritten(files0, images, writable, st)
    ensures SavedAsWritten(files0, images + [img], writable, SaveStep(st, img, writable))
  {
    var all := images + [img];
    var n := |st.paths|;
    assert all[..n] == images[..n];
    if st.failure.None? && writable(TempFileOf(img)) {
      var st' := SaveStep(st, img, writable);
      assert n == |images|;
      assert all[..n + 1] == all;
      assert all[n] == img;
      forall j | 0 <= j < n + 1 && LastAtItsPath(all, j) ensures st'.files[st'.paths[j]] == all[j].content {
        if j < n {
          assert TempFileOf(all[n]) != TempFileOf(all[j]);
          forall l | j < l < n ensures TempFileOf(images[l]) != TempFileOf(images[j]) {
            assert all[l] == images[l];
          }
          assert images[..n] == images;
          assert LastAtItsPath(images[..n], j);
        }
      }
    }
  }

  /** The save loop leaves the directory and the collected paths as
      `SavedAsWritten` says. */
  lemma {:induction false} SaveAllWrites(files0: map<Path, Bytes>, images: seq<Upload>, writable: Path -> bool)
    ensures SavedAsWritten(files0, images, writable, SaveAll(files0, images, writable))
  {
    if images != [] {
      var n := |images| - 1;
      SaveAllWrites(files0, images[..n], writable);
      SaveStepWrites(files0, images[..n], images[n], writable, SaveAll(files0, images[..n], writable));
      assert images[..n] + [images[n]] == images;
    }
  }

  /** `asyncio.gather` over the OCR tasks (api/api.py:53): the texts in the
      order of the paths, whatever order the tasks finish in, or the exception
      of a task that raised, in which case no text is returned at all. Of
      several raising tasks the model reports the first in input order. */
  function Gather(engine: Ocr.Engine, paths: seq<Path>, files: map<Path, Bytes>): (r: Result<seq<string>, string>)
    requires forall k :: 0 <= k < |paths| ==> paths[k] in files
    ensures r.Ok? ==> |r.value| == |paths|
                      && forall k :: 0 <= k < |paths| ==> Ocr.ReadImage(engine, paths[k], files[paths[k]]) == Ocr.Text(r.value[k])
    ensures r.Err? ==> exists k :: 0 <= k < |paths| && Ocr.ReadImage(engine, paths[k], files[paths[k]]) == Ocr.Raised(r.error)
    decreases |paths|
  {
    if paths == [] then Ok([])
    else
      var n := |paths| - 1;
      match Gather(engine, paths[..n], files)
      case Err(reason) => Err(reason)
      case Ok(texts) =>
        match Ocr.ReadImage(engine, paths[n], files[paths[n]])
        case Raised(reason) => Err(reason)
        case Text(text) => Ok(texts + [text])
  }

  /** Where the insert loop of `extract_text_async` stands: the rows that came
      back, the table, and the exception that stopped it, if any. */
  datatype Persisted = Persisted(rows: seq<OcrResultInDb>, table: Option<Table>, error: Option<DbError>)

  /** One iteration of the insert loop (api/api.py:56-74), given the normalised
      text: insert it under the image's original filename, keep the row if one
      came back; an exception stops the loop. */
  function PersistStep(st: Persisted, img: Upload, text: string, now: Timestamp, drops: (string, string) -> bool): (r: Persisted) {
    if st.error.Some? then st
    else
      var (o, t) := InsertInto(st.table, img.filename, text, now, drops(img.filename, text));
      match o
      case Inserted(row) => Persisted(st.rows + [row], t, None)
      case NoRow => Persisted(st.rows, t, None)
      case InsertFailed(e) => Persisted(st.rows, t, Some(e))
  }

  /** The insert loop over the normalised texts `stored`; `clock(i)` is the time
      at which the `i`-th insert runs. */
  function PersistAll(t0: Option<Table>, images: seq<Upload>, stored: seq<string>, drops: (string, string) -> bool, clock: nat -> Timestamp): (r: Persisted)
    requires |stored| == |images|
    decreases |images|
  {
    if images == [] then Persisted([], t0, None)
    else
      var n := |images| - 1;
      PersistStep(PersistAll(t0, images[..n], stored[..n], drops, clock), images[n], stored[n], clock(n), drops)
  }

  lemma PersistAllSnoc(t0: Option<Table>, images: seq<Upload>, stored: seq<string>, i: nat, drops: (string, string) -> bool, clock: nat -> Timestamp)
    requires |stored| == |images| && i < |images|
    ensures PersistAll(t0, images[..i + 1], stored[..i + 1], drops, clock)
            == PersistStep(PersistAll(t0, images[..i], stored[..i], drops, clock), images[i], stored[i], clock(i), drops)
  {
    assert images[..i + 1][..i] == images[..i] && stored[..i + 1][..i] == stored[..i];
  }

  lemma {:induction false} PersistAllStops(t0: Option<Table>, images: seq<Upload>, stored: seq<string>, k: nat, drops: (string, string) -> bool, clock: nat -> Timestamp)
    requires |stored| == |images| && k <= |images|
    requires PersistAll(t0, images[..k], stored[..k], drops, clock).error.Some?
    ensures PersistAll(t0, images, stored, drops, clock) == PersistAll(t0, images[..k], stored[..k], drops, clock)
  {
    var n := |images| - 1;
    if k < |images| {
      assert images[..n][..k] == images[..k];
      assert stored[..n][..k] == stored[..k];
      PersistAllStops(t0, images[..n], stored[..n], k, drops, clock);
    } else {
      assert images[..k] == images && stored[..k] == stored;
    }
  }

  /** `rows` follow the input: `kept` lists, in increasing order, the input
      positions a row came back for; each row carries its position's filename as
      the `VARCHAR(255)` column stores it and the stored text of its position;
      a position is missing exactly when the server discarded its insert. */
  ghost predicate RowsFollowInput(images: seq<Upload>, stored: seq<string>, drops: (string, string) -> bool,
                                  rows: seq<OcrResultInDb>, kept: seq<nat>)
    requires |stored| == |images|
  {
    |kept| == |rows|
    && (forall m :: 0 <= m < |kept| ==>
          kept[m] < |images| && StoredName(images[kept[m]].filename) == Some(rows[m].filename)
          && rows[m].extractedText == stored[kept[m]])
    && (forall m, m' :: 0 <= m < m' < |kept| ==> kept[m] < kept[m'])
    && (forall j :: 0 <= j < |images| ==> (j in kept <==> !drops(images[j].filename, stored[j])))
  }

  /** What the insert loop keeps true, with `kept` as in `RowsFollowInput`. */
  ghost predicate PersistedSoFar(t0: Table, images: seq<Upload>, stored: seq<string>, drops: (string, string) -> bool,
                                 st: Persisted, kept: seq<nat>)
    requires |stored| == |images|
  {
    st.table.Some? && TableValid(st.table.value)
    && st.table.value.rows == t0.rows + st.rows
    && |st.rows| <= |images|
    && (st.error.None? ==> RowsFollowInput(images, stored, drops, st.rows, kept))
    && ((exists j :: 0 <= j < |images| && !FitsColumn(images[j].filename)) ==> st.error.Some?)
  }

  lemma PersistStepKeeps(t0: Table, images: seq<Upload>, stored: seq<string>, img: Upload, text: string, now: Timestamp,
                         drops: (string, string) -> bool, st: Persisted, kept: seq<nat>)
    returns (kept': seq<nat>)
    requires |stored| == |images|
    requires PersistedSoFar(t0, images, stored, drops, st, kept)
    ensures PersistedSoFar(t0, images + [img], stored + [text], drops, PersistStep(st, img, text, now, drops), kept')
  {
    var all, allStored := images + [img], stored + [text];
    var n := |images|;
    var st' := PersistStep(st, img, text, now, drops);
    kept' := kept;
    if st.error.None? {
      InsertSpec(st.table.value, img.filename, text, now, drops(img.filename, text));
      var (o, t) := InsertInto(st.table, img.filename, text, now, drops(img.filename, text));
      if o.Inserted? {
        kept' := kept + [n];
      }
      if !o.InsertFailed? {
        forall j | 0 <= j < |all| ensures FitsColumn(all[j].filename) {
          if j < n { assert all[j] == images[j]; }
        }
        forall j | 0 <= j < |all| ensures j in kept' <==> !drops(all[j].filename, allStored[j]) {
          if j < n {
            assert all[j] == images[j] && allStored[j] == stored[j];
            assert j in kept' <==> j in kept;
          }
        }
        forall m | 0 <= m < |kept'|
          ensures kept'[m] < |all| && StoredName(all[kept'[m]].filename) == Some(st'.rows[m].filename)
                  && st'.rows[m].extractedText == allStored[kept'[m]]
        {
          if m < |kept| {
            assert all[kept[m]] == images[kept[m]] && allStored[kept[m]] == stored[kept[m]];
          }
        }
      }
    } else {
      forall j | 0 <= j < n && !FitsColumn(all[j].filename) ensures !FitsColumn(images[j].filename) {
        assert all[j] == images[j];
      }
    }
  }

  lemma {:induction false} PersistAllKeepsAux(t0: Table, images: seq<Upload>, stored: seq<string>,
                                               drops: (string, string) -> bool, clock: nat -> Timestamp)
    returns (kept: seq<nat>)
    requires |stored| == |images| && TableValid(t0)
    ensures PersistedSoFar(t0, images, stored, drops, PersistAll(Some(t0), images, stored, drops, clock), kept)
  {
    if images == [] {
      kept := [];
    } else {
      var n := |images| - 1;
      var k := PersistAllKeepsAux(t0, images[..n], stored[..n], drops, clock);
      kept := PersistStepKeeps(t0, images[..n], stored[..n], images[n], stored[n], clock(n), drops,
                               PersistAll(Some(t0), images[..n], stored[..n], drops, clock), k);
      assert images[..n] + [images[n]] == images && stored[..n] + [stored[n]] == stored;
    }
  }

  /** The insert loop of `extract_text_async`: the table keeps its invariant and
      gains exactly the rows that came back, appended in input order; there are
      at most as many as images; when nothing raised they follow the input as
      `RowsFollowInput` says; a filename the column cannot hold raises rather
      than being skipped. */
  lemma PersistAllKeeps(t0: Table, images: seq<Upload>, stored: seq<string>,
                        drops: (string, string) -> bool, clock: nat -> Timestamp)
    requires |stored| == |images| && TableValid(t0)
    ensures var st := PersistAll(Some(t0), images, stored, drops, clock);
            st.table.Some? && TableValid(st.table.value)
            && st.table.value.rows == t0.rows + st.rows
            && |st.rows| <= |images|
            && (st.error.None? ==> exists kept :: RowsFollowInput(images, stored, drops, st.rows, kept))
            && ((exists j :: 0 <= j < |images| && !FitsColumn(images[j].filename)) ==> st.error.Some?)
  {
    var kept := PersistAllKeepsAux(t0, images, stored, drops, clock);
  }

  /** What `extract_text_async` returns or raises, and the directory and table
      it leaves. */
  datatype AsyncOutcome = AsyncOutcome(result: Result<seq<OcrResultInDb>, Failure>, files: map<Path, Bytes>, table: Option<Table>)

  /** The phases of `extract_text_async`: the save loop, outside the `try`; then
      gather, connection acquisition and the insert loop inside it; the
      `finally` removes every collected temp path still present. */
  function AsyncRun(files0: map<Path, Bytes>, t0: Option<Table>, pool: Option<Pool>, images: seq<Upload>, engine: Ocr.Engine,
                    writable: Path -> bool, drops: (string, string) -> bool, clock: nat -> Timestamp): (r: AsyncOutcome)
  {
    var saved := SaveAll(files0, images, writable);
    SaveAllWrites(files0, images, writable);
    if saved.failure.Some? then AsyncOutcome(Err(saved.failure.value), saved.files, t0)
    else
      var cleaned := saved.files - (set p | p in saved.paths);
      match Gather(engine, saved.paths, saved.files)
      case Err(reason) => AsyncOutcome(Err(OcrRaised(reason)), cleaned, t0)
      case Ok(texts) =>
        if AcquireError(pool).Some? then AsyncOutcome(Err(DbFailed(AcquireError(pool).value)), cleaned, t0)
        else
          var persisted := PersistAll(t0, images, NormalizeAll(texts), drops, clock);
          var result := if persisted.error.None? then Ok(persisted.rows) else Err(DbFailed(persisted.error.value));
          AsyncOutcome(result, cleaned, persisted.table)
  }

  /** The save loop of `extract_text_async`, before its `try` (api/api.py:46-50). */
  method SaveUploads(dir: ScratchDir, images: seq<Upload>) returns (tempFiles: seq<Path>, failure: Option<Failure>)
    modifies dir
    ensures SaveAll(old(dir.files), images, dir.writable) == Saved(dir.files, tempFiles, failure)
  {
    tempFiles, failure := [], None;
    var i := 0;
    while i < |images|
      invariant 0 <= i <= |images|
      invariant SaveAll(old(dir.files), images[..i], dir.writable) == Saved(dir.files, tempFiles, None)
    {
      var img := images[i];
      assert images[..i + 1] == images[..i] + [img];
      TempFileOfIsSavePath(img);
      var result := dir.SaveFileToServer(img, TEMP_DIR, img.filename);
      if result.Err? {
        SaveAllStops(old(dir.files), images, i + 1, dir.writable);
        return tempFiles, Some(SaveFailed(result.error.path));
      }
      tempFiles := tempFiles + [result.value];
      i := i + 1;
    }
    assert images[..i] == images;
  }

  /** The body of the insert loop (api/api.py:57-67): normalise the `i`-th text
      and insert it under the image's original filename. */
  method PersistText(db: Db, img: Upload, texts: seq<string>, i: nat, now: Timestamp) returns (o: InsertOutcome)
    requires db.Valid() && i < |texts|
    modifies db`table
    ensures db.Valid()
    ensures var text := NormalizeAll(texts)[i];
            (o, db.table) == InsertInto(old(db.table), img.filename, text, now, db.drops(img.filename, text))
  {
    NormalizeAllAt(texts, i);
    var originalFilename := img.filename;
    var processedText := Normalize(texts[i]);
    o := db.Insert(originalFilename, processedText, now);
  }

  /** The insert loop inside `async with ... acquire()` (api/api.py:55-74). */
  method PersistTexts(db: Db, images: seq<Upload>, texts: seq<string>, clock: nat -> Timestamp)
    returns (rows: seq<OcrResultInDb>, error: Option<DbError>)
    requires db.Valid() && |texts| == |images|
    modifies db`table
    ensures db.Valid()
    ensures PersistAll(old(db.table), images, NormalizeAll(texts), db.drops, clock) == Persisted(rows, db.table, error)
  {
    rows, error := [], None;
    ghost var stored := NormalizeAll(texts);
    var i := 0;
    while i < |texts|
      invariant 0 <= i <= |texts|
      invariant db.Valid()
      invariant PersistAll(old(db.table), images[..i], stored[..i], db.drops, clock) == Persisted(rows, db.table, None)
    {
      PersistAllSnoc(old(db.table), images, stored, i, db.drops, clock);
      var savedRecord := PersistText(db, images[i], texts, i, clock(i));
      if savedRecord.InsertFailed? {
        PersistAllStops(old(db.table), images, stored, i + 1, db.drops, clock);
        return rows, Some(savedRecord.error);
      }
      if savedRecord.Inserted? {
        rows := rows + [savedRecord.row];
      }
      i := i + 1;
    }
    assert images[..i] == images && stored[..i] == stored;
  }

  /** The `finally` of `extract_text_async` (api/api.py:75-79): every collected
      path that still exists is removed; a path collected twice is removed once
      and then skipped. */
  method RemoveTempFiles(dir: ScratchDir, tempFiles: seq<Path>)
    modifies dir
    ensures dir.files == old(dir.files) - (set p | p in tempFiles)
  {
    var i := 0;
    while i < |tempFiles|
      invariant 0 <= i <= |tempFiles|
      invariant dir.files == old(dir.files) - (set p | p in tempFiles[..i])
    {
      assert tempFiles[..i + 1] == tempFiles[..i] + [tempFiles[i]];
      if dir.Exists(tempFiles[i]) {
        dir.Remove(tempFiles[i]);
      }
      i := i + 1;
    }
    assert tempFiles[..i] == tempFiles;
  }

  /** `extract_text_async` (api/api.py:38-84). */
  method ExtractTextAsync(dir: ScratchDir, db: Db, images: seq<Upload>, engine: Ocr.Engine, clock: nat -> Timestamp)
    returns (r: Result<seq<OcrResultInDb>, Failure>)
    requires db.Valid()
    modifies dir, db`table
    ensures db.Valid()
    ensures AsyncRun(old(dir.files), old(db.table), db.pool, images, engine, dir.writable, db.drops, clock)
            == AsyncOutcome(r, dir.files, db.table)
  {
    var tempFiles, saveFailure := SaveUploads(dir, images);
    SaveAllWrites(old(dir.files), images, dir.writable);
    if saveFailure.Some? {
      return Err(saveFailure.value);
    }
    var outcome: Result<seq<OcrResultInDb>, Failure>;
    var texts := Gather(engine, tempFiles, dir.files);
    if texts.Err? {
      outcome := Err(OcrRaised(texts.error));
    } else {
      var acquireError := AcquireError(db.pool);
      if acquireError.Some? {
        outcome := Err(DbFailed(acquireError.value));
      } else {
        var rows, error := PersistTexts(db, images, texts.value, clock);
        outcome := if error.None? then Ok(rows) else Err(DbFailed(error.value));
      }
    }
    RemoveTempFiles(dir, tempFiles);
    return outcome;
  }

  /** The directory `extract_text_async` leaves: the saved one, less every
      collected temp path once the `try` was entered. */
  lemma AsyncRunFiles(files0: map<Path, Bytes>, t0: Option<Table>, pool: Option<Pool>, images: seq<Upload>, engine: Ocr.Engine,
                      writable: Path -> bool, drops: (string, string) -> bool, clock: nat -> Timestamp)
    ensures var saved := SaveAll(files0, images, writable);
            AsyncRun(files0, t0, pool, images, engine, writable, drops, clock).files
            == if saved.failure.Some? then saved.files else saved.files - (set p | p in saved.paths)
  {
  }

  /** When every upload can be written, no temp file of the batch survives
      `extract_text_async`, whatever happened after the saves, and no other
      file changed. */
  lemma AsyncCleansUp(files0: map<Path, Bytes>, t0: Option<Table>, pool: Option<Pool>, images: seq<Upload>, engine: Ocr.Engine,
                      writable: Path -> bool, drops: (string, string) -> bool, clock: nat -> Timestamp)
    requires forall j :: 0 <= j < |images| ==> writable(TempFileOf(images[j]))
    ensures var files := AsyncRun(files0, t0, pool, images, engine, writable, drops, clock).files;
            (forall j :: 0 <= j < |images| ==> TempFileOf(images[j]) !in files)
            && (forall p :: p !in TempFilesOf(images) ==> (p in files <==> p in files0) && (p in files0 ==> files[p] == files0[p]))
  {
    SaveAllWrites(files0, images, writable);
    AsyncRunFiles(files0, t0, pool, images, engine, writable, drops, clock);
    var saved := SaveAll(files0, images, writable);
    assert saved.failure.None?;
    CleanedFiles(files0, images, saved.files, saved.paths);
  }

  lemma CleanedFiles(files0: map<Path, Bytes>, images: seq<Upload>, files: map<Path, Bytes>, paths: seq<Path>)
    requires |paths| == |images| && forall j :: 0 <= j < |paths| ==> paths[j] == TempFileOf(images[j])
    requires forall p :: p !in paths ==> (p in files <==> p in files0) && (p in files0 ==> files[p] == files0[p])
    ensures var cleaned := files - (set p | p in paths);
            (forall j :: 0 <= j < |images| ==> TempFileOf(images[j]) !in cleaned)
            && (forall p :: p !in TempFilesOf(images) ==> (p in cleaned <==> p in files0) && (p in files0 ==> cleaned[p] == files0[p]))
  {
    forall p | p !in TempFilesOf(images) ensures p !in paths {
      if p in paths {
        assert false;
      }
    }
  }

  /** A save that raises ends `extract_text_async` before its `try`: the first
      image whose temp path cannot be written is reported, the table is
      untouched, and the temp files written before it are left behind. */
  lemma AsyncSaveFailureLeavesTempFiles(files0: map<Path, Bytes>, t0: Option<Table>, pool: Option<Pool>, images: seq<Upload>,
                                        engine: Ocr.Engine, writable: Path -> bool, drops: (string, string) -> bool,
                                        clock: nat -> Timestamp, k: nat)
    requires k < |images| && !writable(TempFileOf(images[k]))
    requires forall j :: 0 <= j < k ==> writable(TempFileOf(images[j]))
    ensures var o := AsyncRun(files0, t0, pool, images, engine, writable, drops, clock);
            o.result == Err(SaveFailed(TempFileOf(images[k]))) && o.table == t0
            && forall j :: 0 <= j < k ==> TempFileOf(images[j]) in o.files
  {
    SaveAllWrites(files0, images, writable);
    var saved := SaveAll(files0, images, writable);
    if saved.failure.None? {
      assert false;
    }
    var n := |saved.paths|;
    if n < k {
      assert false;
    }
    if n > k {
      assert false;
    }
  }

  /** The table changes only when every upload was saved, every image was
      recognised without raising and a connection was acquired: OCR is
      all-or-nothing. A temp path written twice holds the later upload, so the
      condition is on the last image saved under each path. */
  lemma AsyncStoresOnlyAfterAllRecognized(files0: map<Path, Bytes>, t0: Option<Table>, pool: Option<Pool>, images: seq<Upload>,
                                          engine: Ocr.Engine, writable: Path -> bool, drops: (string, string) -> bool,
                                          clock: nat -> Timestamp)
    ensures var o := AsyncRun(files0, t0, pool, images, engine, writable, drops, clock);
            o.table != t0 ==>
              AcquireError(pool).None?
              && forall j :: 0 <= j < |images| ==>
                   writable(TempFileOf(images[j]))
                   && (LastAtItsPath(images, j) ==> Ocr.ReadImage(engine, TempFileOf(images[j]), images[j].content).Text?)
  {
    SaveAllWrites(files0, images, writable);
    var saved := SaveAll(files0, images, writable);
    var o := AsyncRun(files0, t0, pool, images, engine, writable, drops, clock);
    if o.table != t0 {
      assert saved.failure.None?;
      assert images[..|saved.paths|] == images;
      var g := Gather(engine, saved.paths, saved.files);
      assert g.Ok?;
      forall j | 0 <= j < |images| && LastAtItsPath(images, j)
        ensures Ocr.ReadImage(engine, TempFileOf(images[j]), images[j].content).Text?
      {
        assert saved.files[saved.paths[j]] == images[j].content;
        assert Ocr.ReadImage(engine, saved.paths[j], saved.files[saved.paths[j]]) == Ocr.Text(g.value[j]);
      }
    }
  }

  /** Against an existing table, `extract_text_async` only ever appends rows and
      keeps the table's invariant, and a filename the column cannot hold makes it
      raise. */
  lemma AsyncTableGrows(files0: map<Path, Bytes>, t0: Table, pool: Option<Pool>, images: seq<Upload>,
                        engine: Ocr.Engine, writable: Path -> bool, drops: (string, string) -> bool,
                        clock: nat -> Timestamp)
    requires TableValid(t0)
    ensures var o := AsyncRun(files0, Some(t0), pool, images, engine, writable, drops, clock);
            o.table.Some? && TableValid(o.table.value)
            && |t0.rows| <= |o.table.value.rows| && o.table.value.rows[..|t0.rows|] == t0.rows
            && ((exists j :: 0 <= j < |images| && !FitsColumn(images[j].filename)) ==> o.result.Err?)
  {
    SaveAllWrites(files0, images, writable);
    var saved := SaveAll(files0, images, writable);
    if saved.failure.None? {
      var g := Gather(engine, saved.paths, saved.files);
      if g.Ok? && AcquireError(pool).None? {
        PersistAllKeeps(t0, images, NormalizeAll(g.value), drops, clock);
        var st := PersistAll(Some(t0), images, NormalizeAll(g.value), drops, clock);
        assert st.table.value.rows[..|t0.rows|] == t0.rows;
      }
    }
  }

  /** A successful `extract_text_async` returns exactly the rows it appended, at
      most one per image, and they follow the input as `RowsFollowInput` says,
      where the `j`-th text is what the engine read from the `j`-th temp path:
      the last upload saved there, so images sharing a temp path share one
      text. */
  lemma AsyncRowsFollowInput(files0: map<Path, Bytes>, t0: Table, pool: Option<Pool>, images: seq<Upload>,
                             engine: Ocr.Engine, writable: Path -> bool, drops: (string, string) -> bool,
                             clock: nat -> Timestamp)
    requires TableValid(t0)
    ensures var o := AsyncRun(files0, Some(t0), pool, images, engine, writable, drops, clock);
            o.result.Ok? ==>
              o.table.Some? && o.table.value.rows == t0.rows + o.result.value && |o.result.value| <= |images|
              && exists texts :: |texts| == |images|
                   && (forall j :: 0 <= j < |images| && LastAtItsPath(images, j) ==>
                         Ocr.ReadImage(engine, TempFileOf(images[j]), images[j].content) == Ocr.Text(texts[j]))
                   && (forall j, l :: 0 <= j < l < |images| && TempFileOf(images[j]) == TempFileOf(images[l]) ==>
                         texts[j] == texts[l])
                   && exists kept :: RowsFollowInput(images, NormalizeAll(texts), drops, o.result.value, kept)
  {
    var o := AsyncRun(files0, Some(t0), pool, images, engine, writable, drops, clock);
    if o.result.Ok? {
      var saved, texts := AsyncRunOk(files0, Some(t0), pool, images, engine, writable, drops, clock);
      PersistAllKeeps(t0, images, NormalizeAll(texts), drops, clock);
      RecognizedTexts(engine, images, saved.files, saved.paths, texts);
    }
  }

  /** A response of `extract_text_async` is the insert loop's own outcome over
      texts that every save and every recognition produced. */
  lemma AsyncRunOk(files0: map<Path, Bytes>, t0: Option<Table>, pool: Option<Pool>, images: seq<Upload>,
                   engine: Ocr.Engine, writable: Path -> bool, drops: (string, string) -> bool,
                   clock: nat -> Timestamp)
    returns (saved: Saved, texts: seq<string>)
    requires AsyncRun(files0, t0, pool, images, engine, writable, drops, clock).result.Ok?
    ensures saved == SaveAll(files0, images, writable) && saved.failure.None?
    ensures SavedAsWritten(files0, images, writable, saved)
    ensures Gather(engine, saved.paths, saved.files) == Ok(texts) && |texts| == |images|
    ensures var o := AsyncRun(files0, t0, pool, images, engine, writable, drops, clock);
            var persisted := PersistAll(t0, images, NormalizeAll(texts), drops, clock);
            persisted.error.None? && o.result.value == persisted.rows && o.table == persisted.table
  {
    SaveAllWrites(files0, images, writable);
    saved := SaveAll(files0, images, writable);
    texts := Gather(engine, saved.paths, saved.files).value;
  }

  lemma RecognizedTexts(engine: Ocr.Engine, images: seq<Upload>, files: map<Path, Bytes>, paths: seq<Path>, texts: seq<string>)
    requires |paths| == |images| == |texts|
    requires forall j :: 0 <= j < |paths| ==> paths[j] == TempFileOf(images[j]) && paths[j] in files
    requires forall j :: 0 <= j < |paths| && LastAtItsPath(images[..|paths|], j) ==> files[paths[j]] == images[j].content
    requires forall k :: 0 <= k < |paths| ==> Ocr.ReadImage(engine, paths[k], files[paths[k]]) == Ocr.Text(texts[k])
    ensures forall j :: 0 <= j < |images| && LastAtItsPath(images, j) ==>
              Ocr.ReadImage(engine, TempFileOf(images[j]), images[j].content) == Ocr.Text(texts[j])
    ensures forall j, l :: 0 <= j < l < |images| && TempFileOf(images[j]) == TempFileOf(images[l]) ==> texts[j] == texts[l]
  {
    assert images[..|paths|] == images;
    forall j, l | 0 <= j < l < |images| && TempFileOf(images[j]) == TempFileOf(images[l])
      ensures texts[j] == texts[l]
    {
      assert paths[j] == paths[l];
    }
  }

  // ---------------------------------------------------------------------------
  // The database handlers (api/api.py:87-146)
  // ---------------------------------------------------------------------------

  /** `load_saved_text_from_db` (api/api.py:87-103). */
  function LoadSavedTextFromDb(db: Db, limit: int := DEFAULT_LIMIT, offset: int := DEFAULT_OFFSET): (r: Result<seq<OcrResultInDb>, Failure>)
    requires db.Valid()
    reads db
    ensures AcquireError(db.pool).Some? ==> r == Err(DbFailed(AcquireError(db.pool).value))
    ensures r.Ok? <==> AcquireError(db.pool).None? && db.table.Some? && 0 <= limit <= INT64_MAX && 0 <= offset <= INT64_MAX
    ensures r.Ok? ==> |r.value| <= limit && SortedByCreatedDesc(r.value)
                      && (forall k :: 0 <= k < |r.value| ==> r.value[k] in db.table.value.rows)
                      && |r.value| == (if offset >= |db.table.value.rows| then 0 else Min(limit, |db.table.value.rows| - offset))
                      && exists ranked :: |ranked| == |db.table.value.rows| && SortedByCreatedDesc(ranked)
                                          && multiset(ranked) == multiset(db.table.value.rows)
                                          && forall k :: 0 <= k < |r.value| ==> r.value[k] == ranked[offset + k]
    ensures AcquireError(db.pool).None? && r.Err? ==> exists e :: r == Err(DbFailed(e)) && SelectPage(db.table, limit, offset) == Err(e)
  {
    match AcquireError(db.pool)
    case Some(e) => Err(DbFailed(e))
    case None =>
      match SelectPage(db.table, limit, offset)
      case Err(e) => Err(DbFailed(e))
      case Ok(records) =>
        SelectPageSpec(db.table.value, limit, offset);
        Ok(records)
  }

  /** `load_saved_text_from_db_by_id` (api/api.py:106-122): exactly the row with
      the id, or `NotFound` when the table has none. */
  function LoadSavedTextFromDbById(db: Db, ocrId: int): (r: Result<OcrResultInDb, Failure>)
    requires db.Valid()
    reads db
    ensures AcquireError(db.pool).Some? ==> r == Err(DbFailed(AcquireError(db.pool).value))
    ensures r.Ok? ==> db.table.Some? && r.value in db.table.value.rows && r.value.id == ocrId
    ensures r == Err(NotFound(ocrId)) <==>
              AcquireError(db.pool).None? && INT32_MIN <= ocrId <= INT32_MAX && db.table.Some?
              && forall k :: 0 <= k < |db.table.value.rows| ==> db.table.value.rows[k].id != ocrId
  {
    match AcquireError(db.pool)
    case Some(e) => Err(DbFailed(e))
    case None =>
      match SelectById(db.table, ocrId)
      case Err(e) => Err(DbFailed(e))
      case Ok(record) => if record.Some? then Ok(record.value) else Err(NotFound(ocrId))
  }

  /** The rows of a valid table are found by their ids. */
  lemma LoadByIdFindsEveryRow(db: Db, k: nat)
    requires db.Valid() && AcquireError(db.pool).None? && db.table.Some?
    requires k < |db.table.value.rows|
    ensures LoadSavedTextFromDbById(db, db.table.value.rows[k].id) == Ok(db.table.value.rows[k])
  {
    FindByIdUnique(db.table.value.rows, k);
  }

  /** `save_text_to_db` (api/api.py:125-146): the submitted text is stored as
      given, without normalisation, under the filename as the column stores it; a
      missing row is reported as HTTP 500. */
  method SaveTextToDb(db: Db, ocrResult: OcrResultBase, now: Timestamp) returns (r: Result<OcrResultInDb, Failure>)
    requires db.Valid()
    modifies db`table
    ensures db.Valid()
    ensures AcquireError(db.pool).Some? ==> r == Err(DbFailed(AcquireError(db.pool).value)) && db.table == old(db.table)
    ensures AcquireError(db.pool).None? ==>
              var (o, t) := InsertInto(old(db.table), ocrResult.filename, ocrResult.extractedText, now,
                                       db.drops(ocrResult.filename, ocrResult.extractedText));
              db.table == t
              && r == match o
                      case Inserted(row) => Ok(row)
                      case NoRow => Err(NotSaved)
                      case InsertFailed(e) => Err(DbFailed(e))
    ensures r.Ok? ==> StoredName(ocrResult.filename) == Some(r.value.filename) && r.value.extractedText == ocrResult.extractedText
                      && r.value.createdAt == now
                      && LoadSavedTextFromDbById(db, r.value.id) == Ok(r.value)
  {
    var acquireError := AcquireError(db.pool);
    if acquireError.Some? {
      return Err(DbFailed(acquireError.value));
    }
    ghost var before := db.table;
    var savedRecord := db.Insert(ocrResult.filename, ocrResult.extractedText, now);
    match savedRecord
    case Inserted(row) =>
      SaveThenFetchAny(before.value, ocrResult.filename, ocrResult.extractedText, now,
                       db.drops(ocrResult.filename, ocrResult.extractedText));
      r := Ok(row);
    case NoRow =>
      r := Err(NotSaved);
    case InsertFailed(e) =>
      r := Err(DbFailed(e));
  }
}
