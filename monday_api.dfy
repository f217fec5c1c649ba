/**
 * The first version of the pipeline (src/monday/mondayApi.js): read the
 * newest unseen message, take its first PDF, extract the fields with a
 * third notes pattern, and create a Monday.com item on the older board
 * mapping without looking at the reply.
 */
module MondayApi {
  import opened Wrappers
  import opened Text
  import opened Patterns
  import opened Js
  import opened World
  import opened Mailbox
  import opened Extraction
  import PdfExtractor
  import MondayService

  // ---------------------------------------------------------------------
  // extractDataFromPDF with the e-mail fallback for notes

  const EmailMarker := "Message Received in the email:"

  /** Remarks, then Instructions, then /Message Received in the email:(.*)$/is */
  const ThreeTierNotes := NotesRules + [ToEnd(EmailMarker)]

  function ExtractDataFromPdf(text: string): (r: Fields)
    ensures WellFormed(r)
  {
    ProjectRule(text);
    WoRule(text);
    PoRule(text);
    Fields(
      project := ProjectOf(text),
      pm := PmOf(text),
      wo := FirstDigits(text, WoRules),
      po := FirstDigits(text, PoRules),
      state := StateOf(text),
      notes := NotesOf(text, ThreeTierNotes))
  }

  /** The third notes pattern is tried only when neither Remarks nor
      Instructions is followed by a blank line; it then takes everything
      after the first "Message Received in the email:" (any letter case),
      trimmed, and "" when that label is absent too. Every other field is
      the one the batch extractor reads. */
  lemma NotesFallback(text: string)
    ensures ExtractDataFromPdf(text).(notes := "") == PdfExtractor.ExtractDataFromPdf(text).(notes := "")
    ensures (exists p: nat, g :: UntilBlankMatch(text, "Remarks:", p, g) || UntilBlankMatch(text, "Instructions:", p, g)) ==>
              ExtractDataFromPdf(text).notes == PdfExtractor.ExtractDataFromPdf(text).notes
    ensures (forall p: nat, g :: !UntilBlankMatch(text, "Remarks:", p, g) && !UntilBlankMatch(text, "Instructions:", p, g)) ==>
              if exists p: nat :: LiteralAt(text, p, EmailMarker) then
                exists p: nat :: LiteralAt(text, p, EmailMarker) &&
                  (forall q: nat :: q < p ==> !LiteralAt(text, q, EmailMarker)) &&
                  ExtractDataFromPdf(text).notes == Trim(text[p + |EmailMarker|..])
              else ExtractDataFromPdf(text).notes == ""
  {
    var find := (rule: NotesRule) => NotesFind(text, rule);
    var email := ToEnd(EmailMarker);
    FirstHitAppend(NotesRules, [email], find);
    assert [email][1..] == [];
    assert FirstHit([email], find) == NotesFind(text, email);
    var two := FirstHit(NotesRules, find);
    if two.None? {
      assert NotesFind(text, NotesRules[0]).None? && NotesFind(text, NotesRules[1]).None?;
      assert forall p: nat, g :: !UntilBlankMatch(text, "Remarks:", p, g) && !UntilBlankMatch(text, "Instructions:", p, g) by {
        forall p: nat, g ensures !UntilBlankMatch(text, "Remarks:", p, g) && !UntilBlankMatch(text, "Instructions:", p, g) {
          assert !NotesMatch(text, NotesRules[0], p, g);
          assert !NotesMatch(text, NotesRules[1], p, g);
        }
      }
      EmailNotes(text);
    }
  }

  /** The e-mail pattern alone: the text after its leftmost label. */
  lemma EmailNotes(text: string)
    ensures var notes := NotesOf(text, [ToEnd(EmailMarker)]);
            if exists p: nat :: LiteralAt(text, p, EmailMarker) then
              exists p: nat :: LiteralAt(text, p, EmailMarker) &&
                (forall q: nat :: q < p ==> !LiteralAt(text, q, EmailMarker)) &&
                notes == Trim(text[p + |EmailMarker|..])
            else notes == ""
  {
    var email := ToEnd(EmailMarker);
    var find := (rule: NotesRule) => NotesFind(text, rule);
    assert [email][1..] == [];
    assert FirstHit([email], find) == NotesFind(text, email);
    match NotesFind(text, email)
    case Some(g) =>
      var p := EmailFound(text, g);
      assert text[p + |EmailMarker|..|text|] == text[p + |EmailMarker|..];
      assert NotesOf(text, [email]) == Trim(text[p + |EmailMarker|..]);
    case None =>
      EmailAbsent(text);
  }

  lemma EmailFound(text: string, g: Span) returns (p: nat)
    requires NotesFind(text, ToEnd(EmailMarker)) == Some(g)
    ensures LiteralAt(text, p, EmailMarker) && g == Span(p + |EmailMarker|, |text|)
    ensures forall q: nat :: q < p ==> !LiteralAt(text, q, EmailMarker)
  {
    var email := ToEnd(EmailMarker);
    p :| p <= |text| && NotesMatch(text, email, p, g) &&
         forall q: nat, g' :: q < p ==> !NotesMatch(text, email, q, g');
    forall q: nat | q < p ensures !LiteralAt(text, q, EmailMarker) {
      assert !NotesMatch(text, email, q, Span(q + |EmailMarker|, |text|));
    }
  }

  lemma EmailAbsent(text: string)
    requires NotesFind(text, ToEnd(EmailMarker)).None?
    ensures forall p: nat :: !LiteralAt(text, p, EmailMarker)
  {
    forall p: nat ensures !LiteralAt(text, p, EmailMarker) {
      assert !NotesMatch(text, ToEnd(EmailMarker), p, Span(p + |EmailMarker|, |text|));
    }
  }

  // ---------------------------------------------------------------------
  // mapStatus

  const Working := "Working on it"
  const Done := "Done"
  const Stuck := "Stuck"

  /** A free-text status as one of the board's three labels. */
  function MapStatus(status: Value): (r: string)
    ensures r == Working || r == Done || r == Stuck
    ensures !Truthy(status) ==> r == Working
  {
    if !Truthy(status) then Working
    else if Includes(ToLower(status.s), "done") then Done
    else if Includes(ToLower(status.s), "stuck") then Stuck
    else Working
  }

  /** "done" in any letter case wins over "stuck"; "stuck" alone gives
      Stuck; a status naming neither is still being worked on. */
  lemma MapStatusCases(s: string)
    ensures MapStatus(Str(s)) == Done <==> exists i :: OccursAt(ToLower(s), "done", i)
    ensures MapStatus(Str(s)) == Stuck <==>
              (!exists i :: OccursAt(ToLower(s), "done", i)) && exists i :: OccursAt(ToLower(s), "stuck", i)
  {
    if exists i :: OccursAt(ToLower(s), "done", i) {
      var i :| OccursAt(ToLower(s), "done", i);
      assert |s| > 0;
    }
    if exists i :: OccursAt(ToLower(s), "stuck", i) {
      var i :| OccursAt(ToLower(s), "stuck", i);
      assert |s| > 0;
    }
  }

  /** Only the letters matter, not their case. */
  lemma MapStatusIgnoresCase(s: string)
    ensures MapStatus(Str(ToLower(s))) == MapStatus(Str(s))
  {
    ToLowerIdempotent(s);
  }

  lemma ToLowerIdempotent(s: string)
    ensures ToLower(ToLower(s)) == ToLower(s)
  {
    var l := ToLower(s);
    forall k | 0 <= k < |s| ensures ToLower(l)[k] == l[k] {
      assert LowerChar(LowerChar(s[k])) == LowerChar(s[k]);
    }
  }

  // ---------------------------------------------------------------------
  // sendToMonday on the older board mapping

  /** The columns of the older mapping, state as a plain dropdown text. */
  const LegacyColumnIds: set<ColumnId> := {ProjectCol, WoCol, PoCol, LegacyStateCol, NotesCol}

  /** JSON.stringify keeps a string field, empty or not, and drops an
      undefined one. */
  function LegacyColumns(data: Object): map<ColumnId, Column> {
    map c | c in LegacyColumnIds && Get(data, FieldOf(c)).Str? :: Text(Get(data, FieldOf(c)).s)
  }

  function LegacyRequest(data: Object): Request {
    Request(Or(Get(data, "project"), "Work Order"), LegacyColumns(data))
  }

  /** The reply is only logged: the call fails only when the POST itself
      is rejected. */
  function LegacyOutcome(reply: Reply): (o: Outcome)
    ensures o.Threw? ==> reply.Failed? && o.message == reply.message
  {
    match reply
    case Failed(m) => Threw(m)
    case Answered(_, _) => Completed
  }

  /** Every reply the server's checked send accepts, the older send
      accepts too; but it also accepts a reply whose `errors` say the item
      was not created, and one whose `create_item` is null. */
  lemma LegacyIgnoresErrors(reply: Reply)
    ensures MondayService.CheckReply(reply).Ok? ==> LegacyOutcome(reply) == Completed
    ensures reply.Answered? ==> LegacyOutcome(reply) == Completed
    ensures reply.Answered? && (reply.errors != [] || reply.data.None? || reply.data.value.createItem.None?) ==>
              MondayService.CheckReply(reply).Err?
  {
  }

  /** For an extracted record every column of the older mapping is sent,
      blank ones as "", and the item is named after the project or
      "Work Order". */
  lemma LegacyOfRecord(f: Fields)
    ensures var request := LegacyRequest(ToObject(f));
            && request.columns.Keys == LegacyColumnIds
            && request.columns[ProjectCol] == Text(f.project)
            && request.columns[WoCol] == Text(f.wo)
            && request.columns[PoCol] == Text(f.po)
            && request.columns[LegacyStateCol] == Text(f.state)
            && request.columns[NotesCol] == Text(f.notes)
            && request.itemName == (if f.project == "" then "Work Order" else f.project)
  {
    var o := ToObject(f);
    assert Get(o, "project") == Str(f.project) && Get(o, "wo") == Str(f.wo) && Get(o, "po") == Str(f.po);
    assert Get(o, "state") == Str(f.state) && Get(o, "notes") == Str(f.notes);
    assert forall c :: c in LegacyColumnIds ==> Get(o, FieldOf(c)).Str?;
  }

  // ---------------------------------------------------------------------
  // fetchEmailsAndProcess

  /** The first PDF among the attachments. */
  function FirstPdf(atts: seq<Attachment>): (r: Option<Attachment>)
    ensures r.Some? ==> exists i :: 0 <= i < |atts| && atts[i] == r.value && IsPdf(atts[i]) &&
                          forall k :: 0 <= k < i ==> !IsPdf(atts[k])
    ensures r.None? ==> forall k :: 0 <= k < |atts| ==> !IsPdf(atts[k])
  {
    if atts == [] then None
    else if IsPdf(atts[0]) then Some(atts[0])
    else
      var r := FirstPdf(atts[1..]);
      assert forall k :: 1 <= k < |atts| ==> atts[k] == atts[1..][k - 1];
      r
  }

  /** The item created for a PDF's text. */
  function RequestFor(text: string): Request {
    LegacyRequest(ToObject(ExtractDataFromPdf(text)))
  }

  /** One PDF: written to `path`, read back and parsed, its record posted,
      and the file deleted. An error in parsing or posting ends the run
      there, with the file left on disk. */
  function ProcessPdf(path: FilePath, content: Bytes, pdfToText: PdfToText, reply: Reply): (seq<Effect>, Outcome) {
    var request := match pdfToText(content)
      case Ok(text) => Ok(RequestFor(text))
      case Err(m) => Err(m);
    Handle(path, content, request, reply)
  }

  /** The steps after the file is written, given the request built from
      the parsed text or the parser's error. */
  function Handle(path: FilePath, content: Bytes, request: Result<Request, string>, reply: Reply): (seq<Effect>, Outcome) {
    match request
    case Err(m) => ([Write(path, content)], Threw(m))
    case Ok(r) =>
      match LegacyOutcome(reply)
      case Threw(m) => ([Write(path, content), Post(r)], Threw(m))
      case Completed => ([Write(path, content), Post(r), Unlink(path)], Completed)
  }

  /** Only the first message of the sorted list is looked at, and only its
      first PDF is processed. */
  function ProcessLatest(sorted: seq<Message>, now: int, pdfToText: PdfToText, reply: Reply): (seq<Effect>, Outcome) {
    if sorted == [] then ([], Completed)
    else
      match FirstPdf(sorted[0].attachments)
      case None => ([], Completed)
      case Some(att) => ProcessPdf(TempPdf(now), att.content, pdfToText, reply)
  }

  /** The unseen messages are sorted newest first in place, then the
      newest one's attachments are scanned for the first PDF. `now` is
      `Date.now()` when the file is named. */
  method FetchEmailsAndProcess(unseen: seq<Message>, now: int, pdfToText: PdfToText, reply: Reply)
    returns (trace: seq<Effect>, outcome: Outcome)
    ensures (trace, outcome) == ProcessLatest(SortNewestFirst(unseen), now, pdfToText, reply)
  {
    var messages := new Message[|unseen|](k requires 0 <= k < |unseen| => unseen[k]);
    assert messages[..] == unseen;
    SortByDate(messages);
    trace, outcome := [], Completed;
    if messages.Length > 0 {
      var atts := messages[0].attachments;
      var j := 0;
      while j < |atts|
        invariant 0 <= j <= |atts|
        invariant FirstPdf(atts) == FirstPdf(atts[j..])
      {
        assert atts[j..][1..] == atts[j + 1..];
        if atts[j].contentType == PdfType {
          trace, outcome := ProcessAttachment(TempPdf(now), atts[j].content, pdfToText, reply);
          return;
        }
        j := j + 1;
      }
    }
  }

  /** Write, parse, post and delete one PDF. */
  method ProcessAttachment(path: FilePath, content: Bytes, pdfToText: PdfToText, reply: Reply)
    returns (trace: seq<Effect>, outcome: Outcome)
    ensures (trace, outcome) == ProcessPdf(path, content, pdfToText, reply)
  {
    trace, outcome := [Write(path, content)], Completed;
    match pdfToText(content)
    case Err(m) =>
      outcome := Threw(m);
    case Ok(text) =>
      var request := RequestFor(text);
      assert ProcessPdf(path, content, pdfToText, reply) == Handle(path, content, Ok(request), reply);
      trace := trace + [Post(request)];
      if reply.Failed? {
        outcome := Threw(reply.message);
        assert trace == [Write(path, content), Post(request)];
      } else {
        trace := trace + [Unlink(path)];
        assert trace == [Write(path, content), Post(request), Unlink(path)];
      }
  }

  /** What gets processed is the first PDF of a message at least as new as
      every unseen message; with no unseen message nothing happens. */
  lemma OnlyLatest(unseen: seq<Message>, now: int, pdfToText: PdfToText, reply: Reply)
    ensures unseen == [] ==> ProcessLatest(SortNewestFirst(unseen), now, pdfToText, reply) == ([], Completed)
    ensures var trace := ProcessLatest(SortNewestFirst(unseen), now, pdfToText, reply).0;
            trace != [] ==>
              && unseen != []
              && var latest := SortNewestFirst(unseen)[0];
              && latest in unseen
              && (forall m :: m in unseen ==> latest.date >= m.date)
              && FirstPdf(latest.attachments).Some?
              && trace[0] == Write(TempPdf(now), FirstPdf(latest.attachments).value.content)
  {
    if unseen != [] {
      FirstIsLatest(unseen);
      SortNewestFirstSpec(unseen);
      var sorted := SortNewestFirst(unseen);
      assert sorted[0] in multiset(sorted);
    }
  }

  /** The temporary file is deleted exactly when the run completes, and
      then right after the post. */
  lemma CleanupAfterPost(path: FilePath, content: Bytes, request: Result<Request, string>, reply: Reply)
    ensures var (trace, outcome) := Handle(path, content, request, reply);
            && trace[0] == Write(path, content)
            && (outcome == Completed <==> request.Ok? && reply.Answered?)
            && (outcome.Completed? ==> trace == [Write(path, content), Post(request.value), Unlink(path)])
            && (outcome.Completed? ==> path !in After({}, trace))
  {
    if request.Ok? && reply.Answered? {
      var done := [Write(path, content), Post(request.value), Unlink(path)];
      assert After({}, [Write(path, content)]) == {path} by { assert [Write(path, content)][..0] == []; }
      assert done[..2][..1] == [Write(path, content)];
      assert After({}, done[..2]) == {path};
    }
  }

  /** A parse or post failure leaves the temporary file on disk. */
  lemma FileLeftOnFailure(path: FilePath, content: Bytes, request: Result<Request, string>, reply: Reply)
    ensures var (trace, outcome) := Handle(path, content, request, reply);
            outcome.Threw? ==> path in After({}, trace) && forall k :: 0 <= k < |trace| ==> !trace[k].Unlink?
  {
    var w := [Write(path, content)];
    assert After({}, w) == {path} by { assert w[..0] == []; }
    if request.Ok? && reply.Failed? {
      var posted := w + [Post(request.value)];
      assert posted[..1] == w;
    }
  }
}
