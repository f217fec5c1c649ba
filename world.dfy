/**
 * What the pipeline exchanges with the outside: files it writes and
 * deletes, and requests to the Monday.com API with their replies. Each
 * operation returns the effects it performs, in order.
 */
module World {
  import opened Wrappers
  import opened Js

  type Bytes = seq<bv8>

  /** Files the pipeline creates. */
  datatype FilePath =
    | TempPdf(stamp: int)                 // ./work_order_${Date.now()}.pdf
    | NumberedTempPdf(stamp: int, n: nat) // ./work_order_${Date.now()}_${count}.pdf
    | Upload(stamp: int, originalName: string) // workorder_${Date.now()}${path.extname(originalname)}

  /** The board columns the pipeline fills. */
  datatype ColumnId =
    | ProjectCol | WoCol | PoCol | NotesCol   // text and number columns
    | StateCol                                // the state dropdown
    | StatusCol | DateCol                     // status and date columns
    | LegacyStateCol                          // the state column of the older board mapping

  /** The column's id on the board. */
  function Key(c: ColumnId): string {
    match c
    case ProjectCol => "text_mkvp3tbt"
    case WoCol => "numeric_mkvpgyf4"
    case PoCol => "numeric_mkvpmh9a"
    case NotesCol => "long_text_mkvp79an"
    case StateCol => "dropdown_mkvppn8"
    case StatusCol => "status"
    case DateCol => "date4"
    case LegacyStateCol => "dropdown_mkvpmk7c"
  }

  /** The field of the record a column is filled from. */
  function FieldOf(column: ColumnId): string {
    match column
    case ProjectCol => "project"
    case WoCol => "wo"
    case PoCol => "po"
    case NotesCol => "notes"
    case StateCol | LegacyStateCol => "state"
    case StatusCol => "status"
    case DateCol => "date"
  }

  /** A column value of a created Monday.com item. */
  datatype Column =
    | Text(s: string)               // plain text, numbers as text
    | Labels(labels: seq<string>)   // { labels: [..] } of a dropdown
    | StatusLabel(name: string)     // { label: .. } of a status column
    | DateValue(date: string)       // { date: .. } of a date column

  /** The variables of the `create_item` mutation. */
  datatype Request = Request(itemName: string, columns: map<ColumnId, Column>)

  /** What `axios.post` to the API yields: a rejection (network error or a
      non-2xx status), or the parsed body with its `errors` messages (absent
      counts as empty) and `data.create_item` (null or absent is `None`). */
  datatype Reply =
    | Failed(message: string)
    | Answered(errors: seq<Value>, data: Option<CreatedItem>)

  datatype CreatedItem = CreatedItem(createItem: Option<string>)

  datatype Effect =
    | Write(path: FilePath, content: Bytes)   // fs.writeFileSync, or multer's storage
    | Unlink(path: FilePath)                  // fs.unlinkSync
    | Post(request: Request)                  // axios.post to the Monday.com API
    | Insert(id: nat)                         // a row added to a table

  /** `pdf-parse`: the text of a PDF, or the message it throws. */
  type PdfToText = Bytes -> Result<string, string>

  /** How a run ended: normally, or with an uncaught error. */
  datatype Outcome = Completed | Threw(message: string)

  /** The files on disk after `trace`, starting from `files`. */
  function After(files: set<FilePath>, trace: seq<Effect>): set<FilePath>
    decreases |trace|
  {
    if trace == [] then files
    else
      var last := trace[|trace| - 1];
      var before := After(files, trace[..|trace| - 1]);
      match last
      case Write(p, _) => before + {p}
      case Unlink(p) => before - {p}
      case _ => before
  }

  /** Effects compose: running two traces in turn is running their
      concatenation. */
  lemma {:induction false} AfterAppend(files: set<FilePath>, a: seq<Effect>, b: seq<Effect>)
    ensures After(files, a + b) == After(After(files, a), b)
    decreases |b|
  {
    if b == [] {
      assert a + b == a;
    } else {
      var b' := b[..|b| - 1];
      assert (a + b)[..|a + b| - 1] == a + b';
      assert (a + b)[|a + b| - 1] == b[|b| - 1];
      AfterAppend(files, a, b');
    }
  }

  /** A path none of the effects touches is on disk afterwards exactly when
      it was before. */
  lemma {:induction false} AfterUntouched(files: set<FilePath>, trace: seq<Effect>, p: FilePath)
    requires forall k :: 0 <= k < |trace| ==> !Touches(trace[k], p)
    ensures p in After(files, trace) <==> p in files
    decreases |trace|
  {
    if trace != [] {
      AfterUntouched(files, trace[..|trace| - 1], p);
    }
  }

  predicate Touches(e: Effect, p: FilePath) {
    (e.Write? && e.path == p) || (e.Unlink? && e.path == p)
  }
}
