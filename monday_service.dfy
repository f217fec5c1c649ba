/**
 * `sendToMonday` of the server: the column map and item name of the
 * `create_item` mutation, and the checks on the API's reply.
 */
module MondayService {
  import opened Wrappers
  import opened Text
  import opened Js
  import opened World
  import opened Extraction

  /** Always sent, each with its field or "". */
  const BaseColumns: set<ColumnId> := {ProjectCol, WoCol, PoCol, NotesCol}

  /** Sent only when their field is non-blank. */
  const OptionalColumns: set<ColumnId> := {StateCol, StatusCol, DateCol}

  /** `v && v.trim() !== ''` */
  predicate NonBlank(v: Value) {
    Truthy(v) && Trim(v.s) != ""
  }

  /** Whether `column` is sent for `data`. */
  predicate Sent(data: Object, column: ColumnId) {
    column in BaseColumns || (column in OptionalColumns && NonBlank(Get(data, FieldOf(column))))
  }

  /** The value a sent column carries. */
  function ValueOf(data: Object, column: ColumnId): Column {
    var v := Get(data, FieldOf(column));
    match column
    case StateCol => Labels([Render(v)])
    case StatusCol => StatusLabel(Render(v))
    case DateCol => DateValue(Render(v))
    case _ => Text(Or(v, ""))
  }

  /** The column map, column by column. */
  function ColumnValues(data: Object): map<ColumnId, Column> {
    SentAmong(data, BaseColumns + OptionalColumns)
  }

  /** The sent columns among `among`, with their values. */
  function SentAmong(data: Object, among: set<ColumnId>): map<ColumnId, Column> {
    map column | column in among && Sent(data, column) :: ValueOf(data, column)
  }

  /** The object literal of the four base columns, then one conditional
      assignment per optional column. */
  method BuildColumnValues(data: Object) returns (columns: map<ColumnId, Column>)
    ensures columns == ColumnValues(data)
  {
    columns := map[
      ProjectCol := Text(Or(Get(data, "project"), "")),
      WoCol := Text(Or(Get(data, "wo"), "")),
      PoCol := Text(Or(Get(data, "po"), "")),
      NotesCol := Text(Or(Get(data, "notes"), ""))];
    assert columns == SentAmong(data, BaseColumns);
    var state := Get(data, "state");
    if NonBlank(state) {
      columns := columns[StateCol := Labels([state.s])];
    }
    SentAmongAdd(data, BaseColumns, StateCol);
    var status := Get(data, "status");
    if NonBlank(status) {
      columns := columns[StatusCol := StatusLabel(status.s)];
    }
    SentAmongAdd(data, BaseColumns + {StateCol}, StatusCol);
    var date := Get(data, "date");
    if NonBlank(date) {
      columns := columns[DateCol := DateValue(date.s)];
    }
    SentAmongAdd(data, BaseColumns + {StateCol} + {StatusCol}, DateCol);
    assert BaseColumns + {StateCol} + {StatusCol} + {DateCol} == BaseColumns + OptionalColumns;
  }

  lemma SentAmongAdd(data: Object, among: set<ColumnId>, c: ColumnId)
    requires c !in among
    ensures SentAmong(data, among + {c}) ==
            if Sent(data, c) then SentAmong(data, among)[c := ValueOf(data, c)] else SentAmong(data, among)
  {
  }

  lemma SentExactly(data: Object, c: ColumnId)
    ensures c in ColumnValues(data) <==> Sent(data, c)
    ensures c in ColumnValues(data) ==> ColumnValues(data)[c] == ValueOf(data, c)
  {
  }

  /** `${data.project || 'Work Order'} - WO#${data.wo}` */
  function ItemName(data: Object): string {
    Or(Get(data, "project"), "Work Order") + " - WO#" + Render(Get(data, "wo"))
  }

  // ---------------------------------------------------------------------
  // The reply

  const ApiErrorPrefix := "Monday.com API error: "
  const NullItemError := "Monday.com failed to create item - create_item is null"

  /** `errors.map(err => err.message).join(', ')`: a missing message joins
      as the empty string. */
  function ErrorMessages(errors: seq<Value>): string {
    Join(seq(|errors|, k requires 0 <= k < |errors| => if errors[k].Str? then errors[k].s else ""), ", ")
  }

  /** The reply is returned only when it has no errors and carries the
      created item; an error list is reported before a missing item. */
  function CheckReply(reply: Reply): (r: Result<Reply, string>)
    ensures r.Ok? <==> reply.Answered? && reply.errors == [] && reply.data.Some? && reply.data.value.createItem.Some?
    ensures r.Ok? ==> r.value == reply
    ensures reply.Failed? ==> r == Err(reply.message)
    ensures reply.Answered? && reply.errors != [] ==> r == Err(ApiErrorPrefix + ErrorMessages(reply.errors))
    ensures reply.Answered? && reply.errors == [] && !r.Ok? ==> r == Err(NullItemError)
  {
    match reply
    case Failed(m) => Err(m)
    case Answered(errors, data) =>
      if |errors| > 0 then Err(ApiErrorPrefix + ErrorMessages(errors))
      else if data.None? || data.value.createItem.None? then Err(NullItemError)
      else Ok(reply)
  }

  /** Builds the request, posts it and checks the reply it gets. */
  method SendToMonday(data: Object, reply: Reply) returns (request: Request, result: Result<Reply, string>)
    ensures request == Request(ItemName(data), ColumnValues(data))
    ensures result == CheckReply(reply)
  {
    var columns := BuildColumnValues(data);
    request := Request(ItemName(data), columns);
    result := CheckReply(reply);
  }

  // ---------------------------------------------------------------------
  // Properties

  /** The four base columns are always there with their field or "", an
      optional column is there exactly when its field is non-blank and
      carries the field untrimmed, and nothing else is sent. */
  lemma ColumnsSent(data: Object)
    ensures forall c :: c in ColumnValues(data) ==> c in BaseColumns + OptionalColumns
    ensures forall c :: c in BaseColumns ==> c in ColumnValues(data) && ColumnValues(data)[c] == Text(Or(Get(data, FieldOf(c)), ""))
    ensures StateCol in ColumnValues(data) <==> NonBlank(Get(data, "state"))
    ensures StatusCol in ColumnValues(data) <==> NonBlank(Get(data, "status"))
    ensures DateCol in ColumnValues(data) <==> NonBlank(Get(data, "date"))
    ensures StateCol in ColumnValues(data) ==> ColumnValues(data)[StateCol] == Labels([Get(data, "state").s])
    ensures StatusCol in ColumnValues(data) ==> ColumnValues(data)[StatusCol] == StatusLabel(Get(data, "status").s)
    ensures DateCol in ColumnValues(data) ==> ColumnValues(data)[DateCol] == DateValue(Get(data, "date").s)
  {
  }

  /** No dropdown, status or date column is ever sent blank. */
  lemma NoBlankTypedColumn(data: Object)
    ensures forall c :: c in ColumnValues(data) ==>
              match ColumnValues(data)[c]
              case Text(_) => true
              case Labels(ls) => |ls| == 1 && Trim(ls[0]) != ""
              case StatusLabel(s) => Trim(s) != ""
              case DateValue(d) => Trim(d) != ""
  {
  }

  /** An error list decides the outcome whatever `data` holds. */
  lemma ErrorsCheckedFirst(errors: seq<Value>, d1: Option<CreatedItem>, d2: Option<CreatedItem>)
    requires errors != []
    ensures CheckReply(Answered(errors, d1)) == CheckReply(Answered(errors, d2))
    ensures CheckReply(Answered(errors, d1)).Err?
  {
  }

  /** The request for an extracted record: the four base columns hold the
      fields, the dropdown is sent exactly when a state was found, and no
      status or date is sent. */
  lemma ExtractedColumns(f: Fields)
    requires WellFormed(f)
    ensures var columns := ColumnValues(ToObject(f));
            && columns.Keys == BaseColumns + (if f.state == "" then {} else {StateCol})
            && columns[ProjectCol] == Text(f.project)
            && columns[WoCol] == Text(f.wo)
            && columns[PoCol] == Text(f.po)
            && columns[NotesCol] == Text(f.notes)
            && (f.state != "" ==> columns[StateCol] == Labels([f.state]))
  {
    var data := ToObject(f);
    RecordFields(f);
    ColumnsOfRecord(data, f);
  }

  lemma RecordFields(f: Fields)
    ensures var data := ToObject(f);
            && Get(data, "project") == Str(f.project) && Get(data, "wo") == Str(f.wo)
            && Get(data, "po") == Str(f.po) && Get(data, "notes") == Str(f.notes)
            && Get(data, "state") == Str(f.state)
            && Get(data, "status") == Undefined && Get(data, "date") == Undefined
  {
  }

  lemma ColumnsOfRecord(data: Object, f: Fields)
    requires WellFormed(f)
    requires && Get(data, "project") == Str(f.project) && Get(data, "wo") == Str(f.wo)
             && Get(data, "po") == Str(f.po) && Get(data, "notes") == Str(f.notes)
             && Get(data, "state") == Str(f.state)
             && Get(data, "status") == Undefined && Get(data, "date") == Undefined
    ensures var columns := ColumnValues(data);
            && columns.Keys == BaseColumns + (if f.state == "" then {} else {StateCol})
            && columns[ProjectCol] == Text(f.project)
            && columns[WoCol] == Text(f.wo)
            && columns[PoCol] == Text(f.po)
            && columns[NotesCol] == Text(f.notes)
            && (f.state != "" ==> columns[StateCol] == Labels([f.state]))
  {
    ColumnKeysOfRecord(data, f);
    SentExactly(data, ProjectCol);
    SentExactly(data, WoCol);
    SentExactly(data, PoCol);
    SentExactly(data, NotesCol);
    SentExactly(data, StateCol);
  }

  lemma ColumnKeysOfRecord(data: Object, f: Fields)
    requires WellFormed(f)
    requires && Get(data, "project") == Str(f.project) && Get(data, "wo") == Str(f.wo)
             && Get(data, "po") == Str(f.po) && Get(data, "notes") == Str(f.notes)
             && Get(data, "state") == Str(f.state)
             && Get(data, "status") == Undefined && Get(data, "date") == Undefined
    ensures ColumnValues(data).Keys == BaseColumns + (if f.state == "" then {} else {StateCol})
  {
    if f.state != "" {
      assert IsStateCode(f.state);
      TrimSpaceFree(f.state);
    }
    forall c ensures c in ColumnValues(data) <==> c in BaseColumns + (if f.state == "" then {} else {StateCol}) {
      SentExactly(data, c);
    }
  }

  /** The item of an extracted record is named after its project, or "Work
      Order" when none was found, and its wo number (possibly empty, never
      "undefined"). */
  lemma ExtractedItemName(f: Fields)
    ensures ItemName(ToObject(f)) == (if f.project == "" then "Work Order" else f.project) + " - WO#" + f.wo
  {
    var data := ToObject(f);
    assert Get(data, "project") == Str(f.project) && Get(data, "wo") == Str(f.wo);
  }
}
