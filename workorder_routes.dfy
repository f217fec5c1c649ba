/**
 * The work-order routes of the server: create from a form (Monday.com
 * first, then the table), create from an uploaded PDF, list the caller's
 * work orders newest first, and read one of them. The `workorders` table
 * is a class whose rows the handlers insert.
 */
module WorkOrderRoutes {
  import opened Wrappers
  import opened Js
  import opened World
  import opened Extraction
  import opened MondayService
  import PdfService

  /** The columns a work-order row stores besides its id, owner and time;
      SQL NULL is `Undefined`. */
  datatype Record = Record(project: Value, wo: Value, po: Value, state: Value, status: Value,
                           date: Value, pm: Value, notes: Value)

  datatype Row = Row(id: nat, record: Record, userId: nat, createdAt: int)

  /** The table's contents and its AUTOINCREMENT counter. */
  datatype Store = Store(rows: seq<Row>, nextId: nat)

  datatype Body =
    | ErrorBody(error: string)
    | CreatedBody(message: string, id: nat, workorder: Object)
    | ListBody(workorders: seq<Row>)
    | RowBody(row: Row)  // { workorder: row }

  datatype Response = Response(status: nat, body: Body)

  /** Ids are positive, below the counter, and increase in insertion order. */
  predicate ValidStore(s: Store) {
    && s.nextId > 0
    && (forall i :: 0 <= i < |s.rows| ==> 0 < s.rows[i].id < s.nextId)
    && (forall i, j :: 0 <= i < j < |s.rows| ==> s.rows[i].id < s.rows[j].id)
  }

  /** Newest first, by creation time. */
  predicate NewestFirst(rows: seq<Row>) {
    forall i, j :: 0 <= i < j < |rows| ==> rows[i].createdAt >= rows[j].createdAt
  }

  /** The rows of one user, in table order. */
  function OwnedBy(rows: seq<Row>, userId: nat): seq<Row>
    decreases |rows|
  {
    if rows == [] then []
    else
      var last := rows[|rows| - 1];
      OwnedBy(rows[..|rows| - 1], userId) + (if last.userId == userId then [last] else [])
  }

  /** `WHERE user_id = ?` keeps exactly the caller's rows. */
  lemma {:induction false} OwnedByExactly(rows: seq<Row>, userId: nat)
    ensures forall r :: r in OwnedBy(rows, userId) <==> r in rows && r.userId == userId
    decreases |rows|
  {
    if rows != [] {
      var init := rows[..|rows| - 1];
      OwnedByExactly(init, userId);
      assert rows == init + [rows[|rows| - 1]];
    }
  }

  class WorkOrderTable {
    var rows: seq<Row>
    var nextId: nat

    function State(): Store
      reads this
    {
      Store(rows, nextId)
    }

    ghost predicate Valid()
      reads this
    {
      ValidStore(State())
    }

    constructor ()
      ensures Valid() && rows == [] && nextId == 1
    {
      rows, nextId := [], 1;
    }

    /** INSERT: the new row gets the next id. */
    method Insert(record: Record, userId: nat, now: int) returns (id: nat)
      requires Valid()
      modifies this
      ensures Valid()
      ensures id == old(nextId) && nextId == id + 1
      ensures rows == old(rows) + [Row(id, record, userId, now)]
    {
      id := nextId;
      rows := rows + [Row(id, record, userId, now)];
      nextId := nextId + 1;
    }

    /** `SELECT * FROM workorders WHERE user_id = ? ORDER BY created_at DESC`:
        the caller's rows, newest first; rows created in the same second
        may come in any order. */
    method ListByOwner(userId: nat) returns (result: seq<Row>)
      ensures NewestFirst(result)
      ensures multiset(result) == multiset(OwnedBy(rows, userId))
    {
      result := [];
      for i := 0 to |rows|
        invariant NewestFirst(result)
        invariant multiset(result) == multiset(OwnedBy(rows[..i], userId))
      {
        assert rows[..i + 1][..i] == rows[..i];
        if rows[i].userId == userId {
          result := InsertByTime(result, rows[i]);
        }
      }
      assert rows[..|rows|] == rows;
    }

    /** `SELECT * FROM workorders WHERE id = ? AND user_id = ?` */
    method GetById(id: nat, userId: nat) returns (row: Option<Row>)
      ensures row.Some? ==> row.value in rows && row.value.id == id && row.value.userId == userId
      ensures row.None? ==> forall r :: r in rows ==> r.id != id || r.userId != userId
    {
      var i := 0;
      while i < |rows|
        invariant 0 <= i <= |rows|
        invariant forall k :: 0 <= k < i ==> rows[k].id != id || rows[k].userId != userId
      {
        if rows[i].id == id && rows[i].userId == userId {
          return Some(rows[i]);
        }
        i := i + 1;
      }
      return None;
    }
  }

  /** Places `r` after every row at least as new. */
  method InsertByTime(s: seq<Row>, r: Row) returns (t: seq<Row>)
    requires NewestFirst(s)
    ensures NewestFirst(t)
    ensures multiset(t) == multiset(s) + multiset{r}
  {
    var j := 0;
    while j < |s| && s[j].createdAt >= r.createdAt
      invariant 0 <= j <= |s|
      invariant forall k :: 0 <= k < j ==> s[k].createdAt >= r.createdAt
    {
      j := j + 1;
    }
    t := s[..j] + [r] + s[j..];
    assert s == s[..j] + s[j..];
  }

  /** A valid table holds at most one row per id, so a row read by id is
      the one inserted under it. */
  lemma IdsUnique(s: Store, a: Row, b: Row)
    requires ValidStore(s) && a in s.rows && b in s.rows && a.id == b.id
    ensures a == b
  {
    var i :| 0 <= i < |s.rows| && s.rows[i] == a;
    var j :| 0 <= j < |s.rows| && s.rows[j] == b;
    assert !(i < j) && !(j < i);
  }

  // ---------------------------------------------------------------------
  // POST /

  const MissingFields := "Project and WO# are required"
  const MondayFailure := "Failed to send to Monday.com: "
  const UnknownError := "Unknown error"
  const FormCreated := "Work order created successfully"

  /** `{ project, wo, po, state, status, date, pm, notes }` from the body. */
  const FormKeys := ["project", "wo", "po", "state", "status", "date", "pm", "notes"]

  function Submitted(body: Object): (data: Object)
    ensures data.Keys == set k | k in FormKeys
    ensures forall k :: k in data ==> data[k] == Get(body, k)
  {
    map k | k in FormKeys :: Get(body, k)
  }

  function RecordOf(data: Object): Record {
    Record(Get(data, "project"), Get(data, "wo"), Get(data, "po"), Get(data, "state"),
           Get(data, "status"), Get(data, "date"), Get(data, "pm"), Get(data, "notes"))
  }

  /** The create handler: required fields, then Monday.com, then the
      insert; `dbError` is the error the INSERT reports, if any. */
  function Create(store: Store, body: Object, userId: nat, reply: Reply, now: int, dbError: Option<string>)
    : (Response, seq<Effect>, Store)
  {
    if !Truthy(Get(body, "project")) || !Truthy(Get(body, "wo")) then
      (Response(400, ErrorBody(MissingFields)), [], store)
    else
      SaveForm(store, Submitted(body), userId, reply, now, dbError)
  }

  /** A form that has project and wo: Monday.com first, the table only
      after an accepted call. */
  function SaveForm(store: Store, data: Object, userId: nat, reply: Reply, now: int, dbError: Option<string>)
    : (Response, seq<Effect>, Store)
  {
    var post := Post(Request(ItemName(data), ColumnValues(data)));
    match CheckReply(reply)
    case Err(m) => (Response(500, ErrorBody(MondayFailure + (if m != "" then m else UnknownError))), [post], store)
    case Ok(_) =>
      match dbError
      case Some(e) => (Response(500, ErrorBody(e)), [post], store)
      case None =>
        var id := store.nextId;
        (Response(201, CreatedBody(FormCreated, id, data)), [post, Insert(id)], Appended(store, RecordOf(data), userId, now))
  }

  /** The table after one INSERT. */
  function Appended(store: Store, record: Record, userId: nat, now: int): (after: Store)
    ensures ValidStore(store) ==> ValidStore(after)
  {
    Store(store.rows + [Row(store.nextId, record, userId, now)], store.nextId + 1)
  }

  method CreateWorkOrder(table: WorkOrderTable, body: Object, userId: nat, reply: Reply, now: int, dbError: Option<string>)
    returns (response: Response, effects: seq<Effect>)
    requires table.Valid()
    modifies table
    ensures table.Valid()
    ensures (response, effects, table.State()) == Create(old(table.State()), body, userId, reply, now, dbError)
  {
    var project, wo := Get(body, "project"), Get(body, "wo");
    if !Truthy(project) || !Truthy(wo) {
      return Response(400, ErrorBody(MissingFields)), [];
    }
    response, effects := SubmitForm(table, Submitted(body), userId, reply, now, dbError);
  }

  method SubmitForm(table: WorkOrderTable, data: Object, userId: nat, reply: Reply, now: int, dbError: Option<string>)
    returns (response: Response, effects: seq<Effect>)
    requires table.Valid()
    modifies table
    ensures table.Valid()
    ensures (response, effects, table.State()) == SaveForm(old(table.State()), data, userId, reply, now, dbError)
  {
    var request, result := SendToMonday(data, reply);
    effects := [Post(request)];
    if result.Err? {
      var m := result.error;
      return Response(500, ErrorBody(MondayFailure + (if m != "" then m else UnknownError))), effects;
    }
    if dbError.Some? {
      return Response(500, ErrorBody(dbError.value)), effects;
    }
    var id := table.Insert(RecordOf(data), userId, now);
    effects := [Post(request), Insert(id)];
    response := Response(201, CreatedBody(FormCreated, id, data));
  }

  /** A form without project or wo is refused before anything else
      happens. */
  lemma CreateValidatesFirst(store: Store, body: Object, userId: nat, reply: Reply, now: int, dbError: Option<string>)
    ensures var (response, effects, after) := Create(store, body, userId, reply, now, dbError);
            (response.status == 400 <==> !Truthy(Get(body, "project")) || !Truthy(Get(body, "wo")))
            && (response.status == 400 ==> effects == [] && after == store && response.body == ErrorBody(MissingFields))
  {
  }

  /** Monday.com is called before the table is touched: when the call
      fails the answer is 500 and the table is unchanged; a row is added
      only after an accepted call, and it is exactly the submitted form
      owned by the caller, under the next id. */
  lemma CreateSyncsBeforeSaving(store: Store, body: Object, userId: nat, reply: Reply, now: int, dbError: Option<string>)
    ensures var (response, effects, after) := Create(store, body, userId, reply, now, dbError);
            && (effects != [] ==> effects[0] == Post(Request(ItemName(Submitted(body)), ColumnValues(Submitted(body)))))
            && (effects != [] && CheckReply(reply).Err? ==> response.status == 500 && after == store && |effects| == 1)
            && (after != store <==> response.status == 201)
            && (response.status == 201 ==>
                  && CheckReply(reply).Ok? && dbError.None?
                  && effects == [effects[0], Insert(store.nextId)]
                  && after.rows == store.rows + [Row(store.nextId, RecordOf(Submitted(body)), userId, now)]
                  && after.nextId == store.nextId + 1
                  && response.body == CreatedBody(FormCreated, store.nextId, Submitted(body)))
  {
  }

  // ---------------------------------------------------------------------
  // POST /upload

  const PdfRequired := "PDF file is required"
  const OnlyPdf := "Only PDF files are allowed"
  const UploadCreated := "Work order extracted and created successfully"

  /** The multipart file as multer receives it. */
  datatype UploadedFile = UploadedFile(mimetype: string, originalName: string, content: Bytes)

  /** multer's `fileFilter`. */
  predicate Accepted(file: UploadedFile) {
    file.mimetype == "application/pdf"
  }

  /** pdf-parse followed by the server's field extraction. */
  function Parse(content: Bytes, pdfToText: PdfToText): Result<Fields, string> {
    match pdfToText(content)
    case Err(m) => Err(m)
    case Ok(text) => Ok(PdfService.ExtractDataFromPdf(text))
  }

  /** The row an upload stores: the extracted fields, no status, no date. */
  function UploadRecord(f: Fields): Record {
    Record(Str(f.project), Str(f.wo), Str(f.po), Str(f.state), Undefined, Undefined, Str(f.pm), Str(f.notes))
  }

  /** The upload handler: multer refuses a missing or non-PDF file before
      anything is stored; `stamp` is the clock when multer names the file
      and `record` is what the extraction gives for its content. */
  function FromUpload(store: Store, file: Option<UploadedFile>, userId: nat, record: Result<Fields, string>,
                      reply: Reply, stamp: int, now: int, dbError: Option<string>): (Response, seq<Effect>, Store)
  {
    match file
    case None => (Response(400, ErrorBody(PdfRequired)), [], store)
    case Some(f) =>
      if !Accepted(f) then (Response(500, ErrorBody(OnlyPdf)), [], store)
      else
        var path := Upload(stamp, f.originalName);
        var (response, effects, after) := FromStored(store, path, record, userId, reply, now, dbError);
        (response, [Write(path, f.content)] + effects, after)
  }

  /** Once the file is on disk: send the extracted record, insert it, and
      delete the file. */
  function FromStored(store: Store, path: FilePath, record: Result<Fields, string>, userId: nat, reply: Reply,
                      now: int, dbError: Option<string>): (Response, seq<Effect>, Store)
  {
    match record
    case Err(m) => (Response(500, ErrorBody(m)), [], store)
    case Ok(fields) =>
      var data := ToObject(fields);
      var post := Post(Request(ItemName(data), ColumnValues(data)));
      match CheckReply(reply)
      case Err(m) => (Response(500, ErrorBody(m)), [post], store)
      case Ok(_) =>
        match dbError
        case Some(e) => (Response(500, ErrorBody(e)), [post], store)
        case None =>
          var id := store.nextId;
          (Response(201, CreatedBody(UploadCreated, id, data)), [post, Insert(id), Unlink(path)],
           Appended(store, UploadRecord(fields), userId, now))
  }

  method UploadWorkOrder(table: WorkOrderTable, file: Option<UploadedFile>, userId: nat, pdfToText: PdfToText,
                         reply: Reply, stamp: int, now: int, dbError: Option<string>)
    returns (response: Response, effects: seq<Effect>)
    requires table.Valid()
    modifies table
    ensures table.Valid()
    ensures file.Some? ==>
              (response, effects, table.State()) ==
              FromUpload(old(table.State()), file, userId, Parse(file.value.content, pdfToText), reply, stamp, now, dbError)
    ensures file.None? ==> (response, effects, table.State()) == (Response(400, ErrorBody(PdfRequired)), [], old(table.State()))
  {
    if file.None? {
      return Response(400, ErrorBody(PdfRequired)), [];
    }
    var f := file.value;
    if f.mimetype != "application/pdf" {
      return Response(500, ErrorBody(OnlyPdf)), [];
    }
    var path := Upload(stamp, f.originalName);
    var record := ParseUpload(f.content, pdfToText);
    var rest;
    response, rest := SaveUpload(table, path, record, userId, reply, now, dbError);
    effects := [Write(path, f.content)] + rest;
  }

  method ParseUpload(content: Bytes, pdfToText: PdfToText) returns (record: Result<Fields, string>)
    ensures record == Parse(content, pdfToText)
  {
    match pdfToText(content)
    case Err(m) =>
      record := Err(m);
    case Ok(text) =>
      record := Ok(PdfService.ExtractDataFromPdf(text));
  }

  method SaveUpload(table: WorkOrderTable, path: FilePath, record: Result<Fields, string>, userId: nat, reply: Reply,
                    now: int, dbError: Option<string>)
    returns (response: Response, effects: seq<Effect>)
    requires table.Valid()
    modifies table
    ensures table.Valid()
    ensures (response, effects, table.State()) == FromStored(old(table.State()), path, record, userId, reply, now, dbError)
  {
    if record.Err? {
      return Response(500, ErrorBody(record.error)), [];
    }
    var data := ToObject(record.value);
    var request, result := SendToMonday(data, reply);
    effects := [Post(request)];
    if result.Err? {
      return Response(500, ErrorBody(result.error)), effects;
    }
    if dbError.Some? {
      return Response(500, ErrorBody(dbError.value)), effects;
    }
    var id := table.Insert(UploadRecord(record.value), userId, now);
    effects := [Post(request), Insert(id), Unlink(path)];
    response := Response(201, CreatedBody(UploadCreated, id, data));
  }

  /** A missing or non-PDF file is refused with nothing written, sent or
      stored. */
  lemma UploadRefusedFirst(store: Store, file: Option<UploadedFile>, userId: nat, record: Result<Fields, string>,
                           reply: Reply, stamp: int, now: int, dbError: Option<string>)
    ensures var (response, effects, after) := FromUpload(store, file, userId, record, reply, stamp, now, dbError);
            (effects == [] <==> file.None? || !Accepted(file.value))
            && (file.None? ==> response.status == 400)
            && (file.Some? && !Accepted(file.value) ==> response == Response(500, ErrorBody(OnlyPdf)))
            && (effects == [] ==> after == store)
  {
  }

  /** The stored PDF is deleted exactly when the upload succeeds: on every
      failure after multer wrote it, the file stays in the upload folder. */
  lemma UploadFileLeftOnFailure(store: Store, file: Option<UploadedFile>, userId: nat, record: Result<Fields, string>,
                                reply: Reply, stamp: int, now: int, dbError: Option<string>)
    requires file.Some? && Accepted(file.value)
    ensures var (response, effects, after) := FromUpload(store, file, userId, record, reply, stamp, now, dbError);
            var path := Upload(stamp, file.value.originalName);
            && effects[0] == Write(path, file.value.content)
            && (Unlink(path) in effects <==> response.status == 201)
            && (response.status == 201 <==> after != store)
            && (response.status != 201 ==> response.status == 500 && After({}, effects) == {path})
  {
    var (response, effects, after) := FromUpload(store, file, userId, record, reply, stamp, now, dbError);
    var path := Upload(stamp, file.value.originalName);
    if response.status != 201 {
      assert After({}, [Write(path, file.value.content)]) == {path} by {
        assert [Write(path, file.value.content)][..0] == [];
      }
      if |effects| == 2 {
        assert effects[..1] == [Write(path, file.value.content)];
      }
    }
  }

  /** The upload route does not check project or WO#: a PDF in which the
      extraction finds nothing is stored as a row of empty strings. */
  lemma UploadStoresWhateverWasFound(store: Store, file: Option<UploadedFile>, userId: nat, fields: Fields,
                                     reply: Reply, stamp: int, now: int)
    requires file.Some? && Accepted(file.value) && CheckReply(reply).Ok?
    ensures var (response, effects, after) := FromUpload(store, file, userId, Ok(fields), reply, stamp, now, None);
            && response.status == 201
            && after.rows == store.rows + [Row(store.nextId, UploadRecord(fields), userId, now)]
            && after.rows[|store.rows|].record.status == Undefined
            && after.rows[|store.rows|].record.date == Undefined
  {
  }

  /** With the Monday.com reply already checked, an extraction that found
      nothing still creates the row: every extracted column is "". */
  lemma EmptyPdfStillStored(store: Store, userId: nat, reply: Reply, stamp: int, now: int, name: string)
    requires CheckReply(reply).Ok?
    ensures var file := Some(UploadedFile("application/pdf", name, []));
            var fields := PdfService.ExtractDataFromPdf("");
            var (response, effects, after) := FromUpload(store, file, userId, Ok(fields), reply, stamp, now, None);
            && response.status == 201
            && after.rows[|store.rows|].record.project == Str("")
            && after.rows[|store.rows|].record.wo == Str("")
  {
    PdfService.NothingFound("");
  }

  // ---------------------------------------------------------------------
  // GET / and GET /:id

  const NotFound := "Work order not found"

  /** The list handler. */
  method ListWorkOrders(table: WorkOrderTable, userId: nat, dbError: Option<string>)
    returns (response: Response)
    ensures dbError.Some? ==> response == Response(500, ErrorBody(dbError.value))
    ensures dbError.None? ==> response.status == 200 && response.body.ListBody?
                              && NewestFirst(response.body.workorders)
                              && multiset(response.body.workorders) == multiset(OwnedBy(table.rows, userId))
  {
    if dbError.Some? {
      return Response(500, ErrorBody(dbError.value));
    }
    var rows := table.ListByOwner(userId);
    response := Response(200, ListBody(rows));
  }

  /** Every listed row is the caller's and every row of the caller is listed. */
  lemma ListedAreOwned(rows: seq<Row>, listed: seq<Row>, userId: nat)
    requires multiset(listed) == multiset(OwnedBy(rows, userId))
    ensures forall r :: r in listed <==> r in rows && r.userId == userId
  {
    OwnedByExactly(rows, userId);
    forall r
      ensures r in listed <==> r in OwnedBy(rows, userId)
    {
      assert r in listed <==> r in multiset(listed);
      assert r in OwnedBy(rows, userId) <==> r in multiset(OwnedBy(rows, userId));
    }
  }

  /** The read handler: another user's work order reads as not found. */
  method GetWorkOrder(table: WorkOrderTable, id: nat, userId: nat, dbError: Option<string>)
    returns (response: Response)
    requires table.Valid()
    ensures dbError.Some? ==> response == Response(500, ErrorBody(dbError.value))
    ensures dbError.None? && response.status == 200 ==>
              response.body.RowBody? && response.body.row in table.rows
              && response.body.row.id == id && response.body.row.userId == userId
    ensures dbError.None? ==>
              (response == Response(404, ErrorBody(NotFound)) <==>
               forall r :: r in table.rows ==> r.id != id || r.userId != userId)
    ensures dbError.None? ==> response.status in {200, 404}
  {
    if dbError.Some? {
      return Response(500, ErrorBody(dbError.value));
    }
    var row := table.GetById(id, userId);
    match row
    case None =>
      response := Response(404, ErrorBody(NotFound));
    case Some(r) =>
      response := Response(200, RowBody(r));
  }
}
