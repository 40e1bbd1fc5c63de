/** The archive bot (bot.py): an in-memory index from numerical handle to file
    record, rebuilt from the record file at start-up; the upload path that
    deduplicates, assigns a handle, writes the index and appends a row; and the
    retrieval commands that look a handle up and schedule the delivered copy's
    deletion. Telegram calls are reduced to reply tags, scheduled deletions to
    `(delay, target)` entries of a job list. */
module ArchiveBot {
  import opened Wrappers
  import opened PyText
  import opened CsvRows

  /** `generate_numerical_file_id`'s default length. */
  const HandleLength: nat := 16
  /** Delay before the uploader's message is deleted. */
  const NoticeDelay: nat := 60
  /** Delay before a delivered copy is deleted (1.5 hours). */
  const DeliveryDelay: nat := 5400

  /** The value `numerical_file_ids` holds for a handle. */
  datatype Record = Record(fileId: string, fileName: string, fileType: string)

  type Index = map<string, Record>

  /** Unpacking a row of more than four fields into four names raises ValueError,
      which `load_data` does not catch. */
  datatype LoadError = TooManyValuesToUnpack(row: Row)

  /** A Telegram message, identified by chat and message id. */
  datatype MessageRef = MessageRef(chatId: int, messageId: int)

  /** A one-shot deletion of message `target`, scheduled `delay` seconds ahead. */
  datatype Job = Job(delay: nat, target: MessageRef)

  datatype SendKind = AsPhoto | AsDocument

  /** What the bot answers; the Markdown text of each answer is not modelled. */
  datatype Reply =
    | AlreadyExists(fileName: string, handle: string)
    | Received(fileType: string, fileName: string, handle: string)
    | SaveFailed
    | NoValidFile
    | Sent(kind: SendKind, handle: string, record: Record)
    | InvalidHandle
      /** `start` calls its nested `welcome_message` before defining it, which
          raises UnboundLocalError instead of answering. */
    | WelcomeUnbound

  /** A document or video attachment: its file id and optional file name. */
  datatype Media = Media(fileId: string, fileName: Option<string>)

  /** An incoming message; `photoSizes` lists the file ids of the photo's sizes,
      smallest first, and is empty when there is no photo. */
  datatype Incoming = Incoming(
    chatId: int, messageId: int,
    document: Option<Media>, photoSizes: seq<string>, video: Option<Media>)

  /** The bot's state: the index, the record file's rows, the scheduled jobs. */
  datatype ArchiveState = ArchiveState(index: Index, store: seq<Row>, jobs: seq<Job>)

  /** The state after a handler, and its reply. */
  datatype Effect = Effect(state: ArchiveState, reply: Reply)

  // ===========================================================================
  // load_data: replaying the record file
  // ===========================================================================

  function RowRecord(row: Row): Record
    requires |row| >= 4
  {
    Record(row[1], row[2], row[3])
  }

  /** `row` is a four-field row whose handle is `h`. */
  predicate Defines(row: Row, h: string)
  {
    |row| == 4 && row[0] == h
  }

  /** The index built by replaying data rows in file order: short rows are
      skipped, a four-field row overwrites its handle's entry, and the first
      longer row aborts the load. */
  function Replay(rows: seq<Row>): Result<Index, LoadError>
    decreases |rows|
  {
    if rows == [] then Success(map[])
    else
      var row := rows[|rows| - 1];
      match Replay(rows[..|rows| - 1])
      case Failure(e) => Failure(e)
      case Success(m) =>
        if |row| < 4 then Success(m)
        else if |row| > 4 then Failure(TooManyValuesToUnpack(row))
        else Success(m[row[0] := RowRecord(row)])
  }

  /** Every row but the first, which `load_data` skips as the header. */
  function DataRows(store: seq<Row>): seq<Row>
  {
    if |store| == 0 then [] else store[1..]
  }

  /** The result of `load_data` on a record file. */
  function LoadSpec(store: seq<Row>): Result<Index, LoadError>
  {
    Replay(DataRows(store))
  }

  /** The load fails exactly when some data row has more than four fields. */
  lemma {:induction false} ReplayFailsIff(rows: seq<Row>)
    ensures Replay(rows).Failure? <==> exists i :: 0 <= i < |rows| && |rows[i]| > 4
  {
    if rows != [] {
      var p := rows[..|rows| - 1];
      ReplayFailsIff(p);
      assert forall i :: 0 <= i < |p| ==> p[i] == rows[i];
    }
  }

  /** Last row wins: a handle is in the rebuilt index exactly when some
      four-field row defines it, and its entry is that of the last such row. */
  lemma {:induction false} ReplayLastRowWins(rows: seq<Row>, h: string)
    requires Replay(rows).Success?
    ensures var m := Replay(rows).value;
      h in m <==> exists i :: 0 <= i < |rows| && Defines(rows[i], h)
    ensures var m := Replay(rows).value;
      h in m ==> exists i :: 0 <= i < |rows| && Defines(rows[i], h) && m[h] == RowRecord(rows[i])
                   && forall j :: i < j < |rows| ==> !Defines(rows[j], h)
  {
    if rows != [] {
      var n := |rows| - 1;
      var p := rows[..n];
      var row := rows[n];
      assert forall i :: 0 <= i < n ==> p[i] == rows[i];
      ReplayLastRowWins(p, h);
      var m := Replay(rows).value;
      if Defines(row, h) {
        assert m[h] == RowRecord(rows[n]);
      }
    }
  }

  /** Appending a four-field row to the data rows updates the rebuilt index at
      that row's handle. */
  lemma ReplayAppend(rows: seq<Row>, row: Row)
    requires |row| == 4
    ensures Replay(rows + [row]) ==
      match Replay(rows)
      case Failure(e) => Failure(e)
      case Success(m) => Success(m[row[0] := RowRecord(row)])
  {
    assert (rows + [row])[..|rows|] == rows;
  }

  /** Records with pairwise distinct handles rebuild an index of exactly as many
      entries. */
  lemma {:induction false} ReplayDistinctCount(rows: seq<Row>)
    requires forall i :: 0 <= i < |rows| ==> |rows[i]| == 4
    requires forall i, j :: 0 <= i < j < |rows| ==> rows[i][0] != rows[j][0]
    ensures Replay(rows).Success? && |Replay(rows).value| == |rows|
  {
    if rows != [] {
      var n := |rows| - 1;
      var p := rows[..n];
      ReplayDistinctCount(p);
      var h := rows[n][0];
      ReplayLastRowWins(p, h);
      assert h !in Replay(p).value;
    }
  }

  // ===========================================================================
  // search_csv: the partial-match deduplication scan
  // ===========================================================================

  /** A query matches a stored file id when the query's first 15 characters occur
      in the id's first 15, and the query's characters 44 to 67 occur in the id's
      characters 44 to 67 (slices clamped as Python clamps them). */
  predicate Matches(query: string, fileId: string)
  {
    && Contains(Slice(fileId, 0, 15), Slice(query, 0, 15))
    && Contains(Slice(fileId, 44, 68), Slice(query, 44, 68))
  }

  predicate IsHit(row: Row, query: string)
  {
    |row| >= 4 && Matches(query, row[1])
  }

  /** The first row, in file order, with at least four fields whose file id
      matches the query (the header row is not skipped). */
  function FirstMatch(rows: seq<Row>, query: string): (r: Option<Row>)
    ensures r.Some? ==> r.value in rows && IsHit(r.value, query)
    decreases |rows|
  {
    if rows == [] then None
    else if IsHit(rows[0], query) then Some(rows[0])
    else FirstMatch(rows[1..], query)
  }

  /** `search_csv` finds nothing exactly when no row is a hit, and otherwise the
      hit that comes first. */
  lemma {:induction false} FirstMatchIsFirst(rows: seq<Row>, query: string)
    ensures FirstMatch(rows, query).None? <==> forall i :: 0 <= i < |rows| ==> !IsHit(rows[i], query)
    ensures FirstMatch(rows, query).Some? ==>
      exists i :: 0 <= i < |rows| && rows[i] == FirstMatch(rows, query).value && IsHit(rows[i], query)
        && forall j :: 0 <= j < i ==> !IsHit(rows[j], query)
  {
    if rows != [] && !IsHit(rows[0], query) {
      FirstMatchIsFirst(rows[1..], query);
      assert forall i :: 1 <= i < |rows| ==> rows[i] == rows[1..][i - 1];
      if FirstMatch(rows, query).Some? {
        var i :| 0 <= i < |rows[1..]| && rows[1..][i] == FirstMatch(rows, query).value
          && IsHit(rows[1..][i], query) && forall j :: 0 <= j < i ==> !IsHit(rows[1..][j], query);
        assert rows[i + 1] == FirstMatch(rows, query).value;
      }
    }
  }

  /** A query of at most 44 characters has an empty second segment, which is
      contained in anything: only the first 15 characters decide. */
  lemma ShortQueryMatches(query: string, fileId: string)
    requires |query| <= 44
    ensures Matches(query, fileId) <==> Contains(Slice(fileId, 0, 15), Slice(query, 0, 15))
  {
    assert Slice(query, 44, 68) == "";
    assert StartsWith(Slice(fileId, 44, 68), "");
  }

  /** For references of at least 68 characters the match is equality of
      characters 0-14 and of characters 44-67. */
  lemma LongReferencesMatch(query: string, fileId: string)
    requires |query| >= 68 && |fileId| >= 68
    ensures Matches(query, fileId) <==> query[..15] == fileId[..15] && query[44..68] == fileId[44..68]
  {
    assert Slice(query, 0, 15) == query[..15];
    assert Slice(fileId, 0, 15) == fileId[..15];
    assert Slice(query, 44, 68) == query[44..68];
    assert Slice(fileId, 44, 68) == fileId[44..68];
    ContainsSameLength(fileId[..15], query[..15]);
    ContainsSameLength(fileId[44..68], query[44..68]);
  }

  /** Re-uploading a file id that is stored in some row of at least four fields
      is always found by the scan. */
  lemma ReuploadIsFound(rows: seq<Row>, fileId: string, i: nat)
    requires i < |rows| && |rows[i]| >= 4 && rows[i][1] == fileId
    ensures FirstMatch(rows, fileId).Some?
  {
    var a := Slice(fileId, 0, 15);
    var b := Slice(fileId, 44, 68);
    assert StartsWith(a, a) && StartsWith(b, b);
    assert IsHit(rows[i], fileId);
    FirstMatchIsFirst(rows, fileId);
  }

  // ===========================================================================
  // generate_numerical_file_id
  // ===========================================================================

  predicate IsDigit(c: char)
  {
    '0' <= c <= '9'
  }

  /** A handle of `length` decimal digits drawn independently; `picks` are the
      digit values the random source chose, one per position. */
  function GenerateNumericalFileId(length: nat, picks: seq<nat>): (h: string)
    requires |picks| == length && forall k :: 0 <= k < |picks| ==> picks[k] < 10
    ensures |h| == length
    ensures forall k :: 0 <= k < |h| ==> IsDigit(h[k]) && h[k] as int - '0' as int == picks[k]
  {
    seq(length, k requires 0 <= k < length => ('0' as int + picks[k]) as char)
  }

  /** Different random picks give different handles. */
  lemma HandlesDistinct(length: nat, picks1: seq<nat>, picks2: seq<nat>)
    requires |picks1| == length && forall k :: 0 <= k < length ==> picks1[k] < 10
    requires |picks2| == length && forall k :: 0 <= k < length ==> picks2[k] < 10
    requires picks1 != picks2
    ensures GenerateNumericalFileId(length, picks1) != GenerateNumericalFileId(length, picks2)
  {
    var k :| 0 <= k < length && picks1[k] != picks2[k];
    assert GenerateNumericalFileId(length, picks1)[k] != GenerateNumericalFileId(length, picks2)[k];
  }

  predicate ValidPicks(picks: seq<nat>)
  {
    |picks| == HandleLength && forall k :: 0 <= k < |picks| ==> picks[k] < 10
  }

  // ===========================================================================
  // get_file_id: the upload path
  // ===========================================================================

  /** A missing or empty name gives the default. */
  function NameOr(name: Option<string>, default: string): string
  {
    if name.Some? && name.value != "" then name.value else default
  }

  /** The file id, name and type `get_file_id` takes from a message. */
  datatype Extracted = Extracted(fileId: Option<string>, fileName: string, fileType: string)

  /** A document wins over a photo (its largest, last size), which wins over a
      video; names default to the type and are never empty when there is a file. */
  function ExtractFile(m: Incoming): (e: Extracted)
    ensures e.fileId.Some? <==> m.document.Some? || |m.photoSizes| > 0 || m.video.Some?
    ensures e.fileId.None? ==> e.fileName == "Unknown file name" && e.fileType == "Unknown file type"
    ensures e.fileId.Some? ==> e.fileName != "" && e.fileType in {"Document", "Photo", "Video"}
    ensures m.document.Some? ==>
      e == Extracted(Some(m.document.value.fileId), NameOr(m.document.value.fileName, "Document"), "Document")
    ensures m.document.None? && |m.photoSizes| > 0 ==>
      e == Extracted(Some(Last(m.photoSizes)), "Photo", "Photo")
    ensures e.fileType == "Video" <==> m.document.None? && |m.photoSizes| == 0 && m.video.Some?
    ensures m.document.None? && |m.photoSizes| == 0 && m.video.Some? ==>
      e == Extracted(Some(m.video.value.fileId), NameOr(m.video.value.fileName, "Video"), "Video")
  {
    if m.document.Some? then
      Extracted(Some(m.document.value.fileId), NameOr(m.document.value.fileName, "Document"), "Document")
    else if |m.photoSizes| > 0 then
      Extracted(Some(Last(m.photoSizes)), "Photo", "Photo")
    else if m.video.Some? then
      Extracted(Some(m.video.value.fileId), NameOr(m.video.value.fileName, "Video"), "Video")
    else
      Extracted(None, "Unknown file name", "Unknown file type")
  }

  /** A file id counts as found when it is present and not empty. */
  predicate HasFile(e: Extracted)
  {
    e.fileId.Some? && e.fileId.value != ""
  }

  /** The effect of `get_file_id`. The deletion of the user's message is
      scheduled before the duplicate check; on a miss the index entry is written
      before the row is appended, so it stays when the append fails. */
  function Upload(s: ArchiveState, m: Incoming, picks: seq<nat>, appendOk: bool): Effect
    requires ValidPicks(picks)
  {
    var e := ExtractFile(m);
    if !HasFile(e) then Effect(s, NoValidFile)
    else
      var fid := e.fileId.value;
      var jobs := s.jobs + [Job(NoticeDelay, MessageRef(m.chatId, m.messageId))];
      match FirstMatch(s.store, fid)
      case Some(row) => Effect(s.(jobs := jobs), AlreadyExists(row[2], row[0]))
      case None =>
        var h := GenerateNumericalFileId(HandleLength, picks);
        var index := s.index[h := Record(fid, e.fileName, e.fileType)];
        if appendOk then
          Effect(ArchiveState(index, s.store + [[h, fid, e.fileName, e.fileType]], jobs),
                 Received(e.fileType, e.fileName, h))
        else
          Effect(ArchiveState(index, s.store, jobs), SaveFailed)
  }

  /** Without a usable file nothing changes and the reply is "No valid file
      found."; with one, exactly one 60 s deletion of the user's message is
      scheduled, whatever happens next. */
  lemma UploadSchedulesNotice(s: ArchiveState, m: Incoming, picks: seq<nat>, appendOk: bool)
    requires ValidPicks(picks)
    ensures var eff := Upload(s, m, picks, appendOk);
      if HasFile(ExtractFile(m)) then
        eff.state.jobs == s.jobs + [Job(NoticeDelay, MessageRef(m.chatId, m.messageId))]
      else
        eff == Effect(s, NoValidFile)
  {
  }

  /** A duplicate leaves index and file alone and reports the found row's handle
      and name. */
  lemma UploadDuplicate(s: ArchiveState, m: Incoming, picks: seq<nat>, appendOk: bool)
    requires ValidPicks(picks)
    requires HasFile(ExtractFile(m))
    requires FirstMatch(s.store, ExtractFile(m).fileId.value).Some?
    ensures var eff := Upload(s, m, picks, appendOk);
      var row := FirstMatch(s.store, ExtractFile(m).fileId.value).value;
      && eff.state.index == s.index && eff.state.store == s.store
      && eff.reply == AlreadyExists(row[2], row[0])
      && row in s.store && IsHit(row, ExtractFile(m).fileId.value)
  {
  }

  /** A new upload sets the generated handle's entry, overwriting any entry the
      handle already had, and appends exactly one row after the earlier ones. */
  lemma UploadNew(s: ArchiveState, m: Incoming, picks: seq<nat>, appendOk: bool)
    requires ValidPicks(picks)
    requires HasFile(ExtractFile(m))
    requires FirstMatch(s.store, ExtractFile(m).fileId.value).None?
    ensures var eff := Upload(s, m, picks, appendOk);
      var e := ExtractFile(m);
      var h := GenerateNumericalFileId(HandleLength, picks);
      && |h| == HandleLength
      && eff.state.index.Keys == s.index.Keys + {h}
      && eff.state.index[h] == Record(e.fileId.value, e.fileName, e.fileType)
      && (forall k :: k in s.index && k != h ==> eff.state.index[k] == s.index[k])
      && (appendOk ==> |eff.state.store| == |s.store| + 1
                       && eff.state.store[..|s.store|] == s.store
                       && eff.state.store[|s.store|] == [h, e.fileId.value, e.fileName, e.fileType]
                       && eff.reply == Received(e.fileType, e.fileName, h))
      && (!appendOk ==> eff.state.store == s.store && eff.reply == SaveFailed)
  {
  }

  /** The index mirrors the record file: reloading the file rebuilds it. */
  predicate Consistent(s: ArchiveState)
  {
    LoadSpec(s.store) == Success(s.index)
  }

  /** Every handler outcome keeps index and file in step, except a failed append
      of a new upload. */
  lemma UploadKeepsConsistent(s: ArchiveState, m: Incoming, picks: seq<nat>, appendOk: bool)
    requires ValidPicks(picks)
    requires Consistent(s) && |s.store| >= 1
    requires appendOk || !HasFile(ExtractFile(m)) || FirstMatch(s.store, ExtractFile(m).fileId.value).Some?
    ensures Consistent(Upload(s, m, picks, appendOk).state)
  {
    var e := ExtractFile(m);
    if HasFile(e) && FirstMatch(s.store, e.fileId.value).None? {
      var h := GenerateNumericalFileId(HandleLength, picks);
      var row := [h, e.fileId.value, e.fileName, e.fileType];
      assert DataRows(s.store + [row]) == DataRows(s.store) + [row];
      ReplayAppend(DataRows(s.store), row);
    }
  }

  /** After a failed append of a new upload with a fresh handle, the handle is
      served from memory but a restart would lose it. */
  lemma FailedAppendLostOnRestart(s: ArchiveState, m: Incoming, picks: seq<nat>)
    requires ValidPicks(picks)
    requires Consistent(s)
    requires HasFile(ExtractFile(m)) && FirstMatch(s.store, ExtractFile(m).fileId.value).None?
    requires GenerateNumericalFileId(HandleLength, picks) !in s.index
    ensures var s' := Upload(s, m, picks, false).state;
      GenerateNumericalFileId(HandleLength, picks) in s'.index
      && LoadSpec(s'.store) == Success(s.index) && !Consistent(s')
  {
  }

  /** A record file that exists but is empty keeps no header: `initialize_csv`
      only creates a missing file. The first upload then appends its row as the
      file's first line, which a reload skips as the header while the
      duplicate scan still finds it. After a restart the handle is unknown to
      `/get`, yet re-uploading the same file is answered as a duplicate with
      that handle. */
  lemma HeaderlessFileLosesFirstUpload(s: ArchiveState, m: Incoming, picks: seq<nat>,
                                       picks2: seq<nat>, ok2: bool, sent: MessageRef)
    requires ValidPicks(picks) && ValidPicks(picks2)
    requires s.store == [] && Consistent(s)
    requires HasFile(ExtractFile(m))
    ensures var e := ExtractFile(m);
      var h := GenerateNumericalFileId(HandleLength, picks);
      var s1 := Upload(s, m, picks, true).state;
      var restarted := s1.(index := LoadSpec(s1.store).value);
      && Upload(s, m, picks, true).reply == Received(e.fileType, e.fileName, h)
      && h in s1.index && !Consistent(s1)
      && LoadSpec(s1.store) == Success(map[])
      && SendFile(restarted, [h], "", sent).reply == InvalidHandle
      && Upload(restarted, m, picks2, ok2).reply == AlreadyExists(e.fileName, h)
  {
    var e := ExtractFile(m);
    var fid := e.fileId.value;
    var h := GenerateNumericalFileId(HandleLength, picks);
    var row := [h, fid, e.fileName, e.fileType];
    var s1 := Upload(s, m, picks, true).state;
    assert s1.store == [row];
    assert DataRows(s1.store) == [];
    ReuploadIsFound(s1.store, fid, 0);
    assert FirstMatch(s1.store, fid) == Some(row);
  }

  // ===========================================================================
  // send_file and start: the retrieval path
  // ===========================================================================

  /** `/get`: `args[0]`, or else the text after the last '/'. */
  function GetHandle(args: seq<string>, text: string): (h: string)
    ensures |args| > 0 ==> h == args[0]
    ensures |args| == 0 ==> '/' !in h && |h| <= |text| && text[|text| - |h|..] == h
    ensures |args| == 0 && '/' in text ==> text[|text| - |h| - 1] == '/'
    ensures |args| == 0 && '/' !in text ==> h == text
  {
    SplitLast(text, '/');
    if |args| > 0 then args[0] else Last(Split(text, '/'))
  }

  /** `/start`: `args[0]`, or else the text after the last '/' when there is a '/'. */
  function StartHandle(args: seq<string>, text: string): (h: Option<string>)
    ensures |args| > 0 ==> h == Some(args[0])
    ensures |args| == 0 ==> (h.Some? <==> '/' in text)
    ensures |args| == 0 && h.Some? ==>
      '/' !in h.value && |h.value| < |text| && text[|text| - |h.value| - 1..] == ['/'] + h.value
  {
    SplitLast(text, '/');
    if |args| > 0 then Some(args[0])
    else
      var parts := Split(text, '/');
      if |parts| > 1 then Some(Last(parts)) else None
  }

  /** Sends the record of a known handle, as a photo when its type is "Photo",
      and schedules the sent copy's deletion. */
  function Deliver(s: ArchiveState, h: string, sent: MessageRef): Effect
    requires h in s.index
  {
    var rec := s.index[h];
    Effect(s.(jobs := s.jobs + [Job(DeliveryDelay, sent)]),
           Sent(if rec.fileType == "Photo" then AsPhoto else AsDocument, h, rec))
  }

  /** The effect of `send_file`; `sent` is the message Telegram returns for the
      delivered copy. */
  function SendFile(s: ArchiveState, args: seq<string>, text: string, sent: MessageRef): Effect
  {
    var h := GetHandle(args, text);
    if h in s.index then Deliver(s, h, sent) else Effect(s, InvalidHandle)
  }

  /** The effect of `start`: an empty handle, the literal "start" or an unknown
      handle reach the undefined `welcome_message`. */
  function Start(s: ArchiveState, args: seq<string>, text: string, sent: MessageRef): Effect
  {
    match StartHandle(args, text)
    case Some(h) =>
      if h != "" && h != "start" && h in s.index then Deliver(s, h, sent) else Effect(s, WelcomeUnbound)
    case None => Effect(s, WelcomeUnbound)
  }

  /** Retrieval never touches the index or the file; it schedules exactly one
      5400 s deletion when it sends, and nothing otherwise. */
  predicate RetrievalEffect(s: ArchiveState, eff: Effect, sent: MessageRef)
  {
    && eff.state.index == s.index && eff.state.store == s.store
    && (eff.reply.Sent? ==> eff.state.jobs == s.jobs + [Job(DeliveryDelay, sent)]
                            && eff.reply.handle in s.index
                            && eff.reply.record == s.index[eff.reply.handle]
                            && (eff.reply.kind == AsPhoto <==> eff.reply.record.fileType == "Photo"))
    && (!eff.reply.Sent? ==> eff.state.jobs == s.jobs)
  }

  /** `/get` sends exactly the record of the extracted handle when it is known
      and answers "Invalid numerical file ID." otherwise. */
  lemma SendFileRetrieves(s: ArchiveState, args: seq<string>, text: string, sent: MessageRef)
    ensures var eff := SendFile(s, args, text, sent);
      && RetrievalEffect(s, eff, sent)
      && (eff.reply.Sent? <==> GetHandle(args, text) in s.index)
      && (eff.reply.Sent? ==> eff.reply.handle == GetHandle(args, text))
      && (!eff.reply.Sent? ==> eff.reply == InvalidHandle)
  {
  }

  /** `/start` sends a known handle's record and otherwise fails in the
      undefined welcome message. */
  lemma StartRetrieves(s: ArchiveState, args: seq<string>, text: string, sent: MessageRef)
    ensures var eff := Start(s, args, text, sent);
      && RetrievalEffect(s, eff, sent)
      && (eff.reply.Sent? <==> StartHandle(args, text).Some? && StartHandle(args, text).value in s.index
                               && StartHandle(args, text).value !in {"", "start"})
      && (!eff.reply.Sent? ==> eff.reply == WelcomeUnbound)
  {
  }

  /** A handle issued by a new upload is served back with the uploaded file id,
      name and type, whether or not the row reached the file. */
  lemma UploadThenGet(s: ArchiveState, m: Incoming, picks: seq<nat>, appendOk: bool, sent: MessageRef)
    requires ValidPicks(picks)
    requires HasFile(ExtractFile(m)) && FirstMatch(s.store, ExtractFile(m).fileId.value).None?
    ensures var e := ExtractFile(m);
      var h := GenerateNumericalFileId(HandleLength, picks);
      SendFile(Upload(s, m, picks, appendOk).state, [h], "", sent).reply
        == Sent(if e.fileType == "Photo" then AsPhoto else AsDocument, h,
                Record(e.fileId.value, e.fileName, e.fileType))
  {
  }

  // ===========================================================================
  // The bot process: the global index and the record file
  // ===========================================================================

  class Bot {
    /** The global `numerical_file_ids`. */
    var index: Index
    /** Whether the record file exists. */
    var present: bool
    /** The record file's rows, header first. */
    var store: seq<Row>
    /** The scheduled deletions, in order of scheduling. */
    var jobs: seq<Job>

    ghost predicate Valid()
      reads this
    {
      !present ==> store == []
    }

    function State(): ArchiveState
      reads this
    {
      ArchiveState(index, store, jobs)
    }

    /** The process before `load_data` has run. */
    constructor (present: bool, store: seq<Row>)
      requires present || store == []
      ensures Valid()
      ensures this.present == present && this.store == store && index == map[] && jobs == []
    {
      this.present := present;
      this.store := store;
      index := map[];
      jobs := [];
    }

    /** `initialize_csv`: creates the file with its header row if it is missing. */
    method InitializeCsv()
      requires Valid()
      modifies this`present, this`store
      ensures Valid() && present
      ensures store == if old(present) then old(store) else [Header]
    {
      if !present {
        store := [Header];
        present := true;
      }
    }

    /** `load_data`: replays the file's rows after the first into a fresh map. */
    method LoadData() returns (r: Result<Index, LoadError>)
      ensures r == LoadSpec(store)
    {
      var m: Index := map[];
      if |store| == 0 {
        return Success(m);
      }
      var rows := store[1..];
      var i := 0;
      while i < |rows|
        invariant 0 <= i <= |rows|
        invariant Replay(rows[..i]) == Success(m)
      {
        var row := rows[i];
        assert rows[..i + 1][..i] == rows[..i];
        if |row| >= 4 {
          if |row| != 4 {
            ReplayFailsIff(rows);
            assert |rows[i]| > 4;
            StickyFailure(rows, i + 1);
            return Failure(TooManyValuesToUnpack(row));
          }
          m := m[row[0] := Record(row[1], row[2], row[3])];
        }
        i := i + 1;
      }
      assert rows[..i] == rows;
      r := Success(m);
    }

    /** Replaces the global index by a fresh load; a load that raises leaves no index. */
    method Reload() returns (err: Option<LoadError>)
      modifies this`index
      ensures LoadSpec(store).Success? ==> err == None && index == LoadSpec(store).value
      ensures LoadSpec(store).Failure? ==> err == Some(LoadSpec(store).error) && index == old(index)
    {
      var r := LoadData();
      if r.Success? {
        index := r.value;
        err := None;
      } else {
        err := Some(r.error);
      }
    }

    /** `search_csv` on the record file: scans the rows in file order and returns
        the first hit. */
    method SearchCsv(query: string) returns (r: Option<Row>)
      ensures r == FirstMatch(store, query)
    {
      var i := 0;
      while i < |store|
        invariant 0 <= i <= |store|
        invariant FirstMatch(store[i..], query) == FirstMatch(store, query)
      {
        var row := store[i];
        if |row| >= 4 {
          var fid := row[1];
          if Contains(Slice(fid, 0, 15), Slice(query, 0, 15))
             && Contains(Slice(fid, 44, 68), Slice(query, 44, 68))
          {
            return Some(row);
          }
        }
        assert store[i..][1..] == store[i + 1..];
        i := i + 1;
      }
      return None;
    }

    /** `get_file_id`: the upload handler. `picks` is the random source's
        choice for the new handle, `appendOk` whether the row could be written. */
    method GetFileId(m: Incoming, picks: seq<nat>, appendOk: bool) returns (reply: Reply)
      requires Valid() && ValidPicks(picks)
      modifies this
      ensures Valid()
      ensures State() == Upload(old(State()), m, picks, appendOk).state
      ensures reply == Upload(old(State()), m, picks, appendOk).reply
      ensures present == (old(present) || store != old(store))
    {
      var e := ExtractFile(m);
      if e.fileId.Some? && e.fileId.value != "" {
        var fid := e.fileId.value;
        jobs := jobs + [Job(NoticeDelay, MessageRef(m.chatId, m.messageId))];
        var found := SearchCsv(fid);
        if found.Some? {
          var row := found.value;
          reply := AlreadyExists(row[2], row[0]);
        } else {
          var h := GenerateNumericalFileId(HandleLength, picks);
          index := index[h := Record(fid, e.fileName, e.fileType)];
          if appendOk {
            store := store + [[h, fid, e.fileName, e.fileType]];
            present := true;
            reply := Received(e.fileType, e.fileName, h);
          } else {
            reply := SaveFailed;
          }
        }
      } else {
        reply := NoValidFile;
      }
    }

    /** `send_file`: the `/get` handler. */
    method SendFileCommand(args: seq<string>, text: string, sent: MessageRef) returns (reply: Reply)
      modifies this`jobs
      ensures State() == SendFile(old(State()), args, text, sent).state
      ensures reply == SendFile(old(State()), args, text, sent).reply
    {
      var h := if |args| > 0 then args[0] else Last(Split(text, '/'));
      if h in index {
        reply := Deliver(State(), h, sent).reply;
        jobs := jobs + [Job(DeliveryDelay, sent)];
      } else {
        reply := InvalidHandle;
      }
    }

    /** `start`: the `/start` handler. */
    method StartCommand(args: seq<string>, text: string, sent: MessageRef) returns (reply: Reply)
      modifies this`jobs
      ensures State() == Start(old(State()), args, text, sent).state
      ensures reply == Start(old(State()), args, text, sent).reply
    {
      var h: Option<string>;
      if |args| > 0 {
        h := Some(args[0]);
      } else {
        var parts := Split(text, '/');
        h := if |parts| > 1 then Some(Last(parts)) else None;
      }
      if h.Some? && h.value != "" && h.value != "start" && h.value in index {
        reply := Deliver(State(), h.value, sent).reply;
        jobs := jobs + [Job(DeliveryDelay, sent)];
      } else {
        reply := WelcomeUnbound;
      }
    }
  }

  /** Once a prefix of the data rows fails to load, the whole file does, with
      the same error. */
  lemma {:induction false} StickyFailure(rows: seq<Row>, n: nat)
    requires n <= |rows| && Replay(rows[..n]).Failure?
    ensures Replay(rows) == Replay(rows[..n])
    decreases |rows| - n
  {
    if n < |rows| {
      assert rows[..n + 1][..n] == rows[..n];
      StickyFailure(rows, n + 1);
    } else {
      assert rows[..n] == rows;
    }
  }
}
