/**
 * The batch entry point (src/index.js): fetch up to three PDFs, then for
 * each in turn extract its fields, format them, create the item on the
 * older board mapping and delete the file. The first error ends the run.
 */
module BatchMain {
  import opened Wrappers
  import opened Js
  import opened World
  import opened Mailbox
  import opened Extraction
  import opened Formatter
  import opened EmailService
  import opened MondayApi
  import PdfExtractor

  const BatchLimit := 3

  /** The field extraction `main` uses, that of src/pdf/pdfExtractor.js;
      the per-file steps below take it as a parameter. */
  type Extractor = string -> Fields

  /** The request a PDF turns into: parsed, extracted and formatted, or
      the error one of those steps throws. */
  function RequestOf(content: Bytes, pdfToText: PdfToText, extract: Extractor, toIso: IsoDate): Result<Request, string> {
    match pdfToText(content)
    case Err(m) => Err(m)
    case Ok(text) =>
      match FormatWorkOrderData(ToObject(extract(text)), toIso)
      case Err(m) => Err(m)
      case Ok(data) => Ok(LegacyRequest(data))
  }

  function Requests(contents: seq<Bytes>, pdfToText: PdfToText, extract: Extractor, toIso: IsoDate)
    : (rs: seq<Result<Request, string>>)
    ensures |rs| == |contents|
  {
    seq(|contents|, k requires 0 <= k < |contents| => RequestOf(contents[k], pdfToText, extract, toIso))
  }

  /** One file once its request is known: posted, then deleted. */
  function Deliver(path: FilePath, request: Result<Request, string>, reply: Reply): (seq<Effect>, Outcome) {
    match request
    case Err(m) => ([], Threw(m))
    case Ok(r) =>
      match LegacyOutcome(reply)
      case Threw(m) => ([Post(r)], Threw(m))
      case Completed => ([Post(r), Unlink(path)], Completed)
  }

  /** The files from the i-th on, each answered by `replies` at its index,
      until one throws. */
  function BatchFrom(paths: seq<FilePath>, requests: seq<Result<Request, string>>, replies: nat -> Reply, i: nat)
    : (seq<Effect>, Outcome)
    requires |requests| == |paths| && i <= |paths|
    decreases |paths| - i
  {
    if i == |paths| then ([], Completed)
    else
      var (effects, outcome) := Deliver(paths[i], requests[i], replies(i));
      if outcome.Threw? then (effects, outcome)
      else
        var (rest, last) := BatchFrom(paths, requests, replies, i + 1);
        (effects + rest, last)
  }

  /** The whole run: the files fetched, every effect in order, and how it
      ended. `now(k)` is the clock when the k-th file is named. */
  function Run(mailbox: seq<Message>, now: nat -> int, pdfToText: PdfToText, toIso: IsoDate, replies: nat -> Reply)
    : (seq<FilePath>, seq<Effect>, Outcome)
  {
    var q := Qualifying(SortNewestFirst(mailbox));
    var n := Cap(BatchLimit, |q|);
    var paths := NumberedPaths(now, n);
    var (effects, outcome) := BatchFrom(paths, Requests(q[..n], pdfToText, PdfExtractor.ExtractDataFromPdf, toIso), replies, 0);
    (paths, Writes(paths, q[..n]) + effects, outcome)
  }

  method RunBatch(mailbox: seq<Message>, now: nat -> int, pdfToText: PdfToText, toIso: IsoDate, replies: nat -> Reply)
    returns (paths: seq<FilePath>, trace: seq<Effect>, outcome: Outcome)
    ensures (paths, trace, outcome) == Run(mailbox, now, pdfToText, toIso, replies)
  {
    var written;
    paths, written := FetchPdfAttachments(mailbox, Some(BatchLimit), now);
    ghost var q := Qualifying(SortNewestFirst(mailbox));
    var effects;
    effects, outcome := DeliverAll(paths, written, q[..|paths|], pdfToText, PdfExtractor.ExtractDataFromPdf, toIso, replies);
    trace := written + effects;
  }

  /** The loop of `main` over the fetched files; `written` holds the bytes
      written under each name. */
  method DeliverAll(paths: seq<FilePath>, written: seq<Effect>, ghost contents: seq<Bytes>,
                    pdfToText: PdfToText, extract: Extractor, toIso: IsoDate, replies: nat -> Reply)
    returns (done: seq<Effect>, outcome: Outcome)
    requires |contents| == |paths| && written == Writes(paths, contents)
    ensures (done, outcome) == BatchFrom(paths, Requests(contents, pdfToText, extract, toIso), replies, 0)
  {
    ghost var requests := Requests(contents, pdfToText, extract, toIso);
    done, outcome := [], Completed;
    assert done + BatchFrom(paths, requests, replies, 0).0 == BatchFrom(paths, requests, replies, 0).0;
    var i := 0;
    while i < |paths|
      invariant 0 <= i <= |paths|
      invariant BatchFrom(paths, requests, replies, 0) ==
                (done + BatchFrom(paths, requests, replies, i).0, BatchFrom(paths, requests, replies, i).1)
    {
      assert written[i] == Write(paths[i], contents[i]);
      var effects, o := ProcessFile(paths[i], written[i].content, pdfToText, extract, toIso, replies(i));
      assert requests[i] == RequestOf(contents[i], pdfToText, extract, toIso);
      BatchStep(paths, requests, replies, i);
      if o.Threw? {
        done, outcome := done + effects, o;
        return;
      }
      assert done + (effects + BatchFrom(paths, requests, replies, i + 1).0) ==
             (done + effects) + BatchFrom(paths, requests, replies, i + 1).0;
      done := done + effects;
      i := i + 1;
    }
    assert done + [] == done;
  }

  /** One iteration of the loop: the file's request is built and sent. */
  method ProcessFile(path: FilePath, content: Bytes, pdfToText: PdfToText, extract: Extractor, toIso: IsoDate, reply: Reply)
    returns (effects: seq<Effect>, outcome: Outcome)
    ensures (effects, outcome) == Deliver(path, RequestOf(content, pdfToText, extract, toIso), reply)
  {
    var request := PrepareFile(content, pdfToText, extract, toIso);
    effects, outcome := DeliverFile(path, request, reply);
  }

  lemma BatchStep(paths: seq<FilePath>, requests: seq<Result<Request, string>>, replies: nat -> Reply, i: nat)
    requires |requests| == |paths| && i < |paths|
    ensures var (effects, outcome) := Deliver(paths[i], requests[i], replies(i));
            BatchFrom(paths, requests, replies, i) ==
              if outcome.Threw? then (effects, outcome)
              else (effects + BatchFrom(paths, requests, replies, i + 1).0, BatchFrom(paths, requests, replies, i + 1).1)
  {
  }

  /** readFileSync, pdf-parse, extractDataFromPDF and formatWorkOrderData
      for one file; the bytes read are those written under its name. */
  method PrepareFile(content: Bytes, pdfToText: PdfToText, extract: Extractor, toIso: IsoDate)
    returns (request: Result<Request, string>)
    ensures request == RequestOf(content, pdfToText, extract, toIso)
  {
    match pdfToText(content)
    case Err(m) =>
      request := Err(m);
    case Ok(text) =>
      var raw := extract(text);
      var formatted := FormatWorkOrderData(ToObject(raw), toIso);
      match formatted
      case Err(m) =>
        request := Err(m);
      case Ok(data) =>
        request := Ok(LegacyRequest(data));
  }

  /** sendToMonday, then unlinkSync. */
  method DeliverFile(path: FilePath, request: Result<Request, string>, reply: Reply)
    returns (effects: seq<Effect>, outcome: Outcome)
    ensures (effects, outcome) == Deliver(path, request, reply)
  {
    match request
    case Err(m) =>
      effects, outcome := [], Threw(m);
    case Ok(r) =>
      effects := [Post(r)];
      if reply.Failed? {
        outcome := Threw(reply.message);
        return;
      }
      effects := effects + [Unlink(path)];
      outcome := Completed;
      assert effects == [Post(r), Unlink(path)];
  }

  // ---------------------------------------------------------------------
  // What a run guarantees

  /** At most three files are fetched, and fewer only when fewer
      qualifying PDFs exist. */
  lemma AtMostThree(mailbox: seq<Message>, now: nat -> int, pdfToText: PdfToText, toIso: IsoDate, replies: nat -> Reply)
    ensures var paths := Run(mailbox, now, pdfToText, toIso, replies).0;
            var q := Qualifying(SortNewestFirst(mailbox));
            |paths| <= BatchLimit && |paths| <= |q| && (|paths| < BatchLimit ==> |paths| == |q|)
  {
  }

  /** An extracted record always formats: it has neither address nor
      date, so both become "" and no date is parsed; the request then
      carries the extracted fields. Only pdf-parse can make a file fail. */
  lemma OnlyParseFails(content: Bytes, pdfToText: PdfToText, extract: Extractor, toIso: IsoDate)
    ensures RequestOf(content, pdfToText, extract, toIso).Err? <==> pdfToText(content).Err?
    ensures pdfToText(content).Ok? ==>
              RequestOf(content, pdfToText, extract, toIso) == Ok(LegacyRequest(ToObject(extract(pdfToText(content).value))))
  {
    if pdfToText(content).Ok? {
      var raw := ToObject(extract(pdfToText(content).value));
      FormattedRecord(raw, toIso);
    }
  }

  lemma FormattedRecord(raw: Object, toIso: IsoDate)
    requires "date" !in raw && "address" !in raw
    ensures FormatWorkOrderData(raw, toIso) == Ok(raw["address" := Str("")]["date" := Str("")])
    ensures LegacyRequest(raw["address" := Str("")]["date" := Str("")]) == LegacyRequest(raw)
  {
    var formatted := raw["address" := Str("")]["date" := Str("")];
    assert forall c :: c in LegacyColumnIds ==> Get(formatted, FieldOf(c)) == Get(raw, FieldOf(c));
    assert LegacyColumns(formatted) == LegacyColumns(raw);
  }

  /** A file is deleted only right after its item was posted, and only
      when the post was not rejected. */
  lemma UnlinkFollowsPost(path: FilePath, request: Result<Request, string>, reply: Reply)
    ensures var (effects, outcome) := Deliver(path, request, reply);
            && (outcome.Completed? <==> request.Ok? && reply.Answered?)
            && (outcome.Completed? ==> effects == [Post(request.value), Unlink(path)])
            && (outcome.Threw? ==> forall k :: 0 <= k < |effects| ==> !effects[k].Unlink?)
  {
  }

  /** What a run leaves on disk: the fetched files that were delivered
      are gone; when a file fails, it and every later file stay behind;
      nothing else on disk is touched. */
  lemma {:induction false} BatchFiles(paths: seq<FilePath>, requests: seq<Result<Request, string>>, replies: nat -> Reply,
                                      i: nat, files: set<FilePath>)
    requires |requests| == |paths| && i <= |paths|
    requires forall a, b :: 0 <= a < b < |paths| ==> paths[a] != paths[b]
    ensures var (t, o) := BatchFrom(paths, requests, replies, i);
            && (forall p :: p !in paths[i..] ==> (p in After(files, t) <==> p in files))
            && (o.Completed? ==> forall j :: i <= j < |paths| ==> paths[j] !in After(files, t))
            && (o.Threw? ==> exists k :: i <= k < |paths| && Stopped(paths, i, k, files, After(files, t)))
    decreases |paths| - i
  {
    if i < |paths| {
      var (effects, outcome) := Deliver(paths[i], requests[i], replies(i));
      var (t, o) := BatchFrom(paths, requests, replies, i);
      DeliverFiles(paths[i], requests[i], replies(i), files);
      if outcome.Threw? {
        forall j | i < j < |paths| ensures paths[j] != paths[i] {}
        assert Stopped(paths, i, i, files, After(files, t));
      } else {
        var next := files - {paths[i]};
        var (rest, last) := BatchFrom(paths, requests, replies, i + 1);
        BatchFiles(paths, requests, replies, i + 1, next);
        AfterAppend(files, effects, rest);
        assert After(files, t) == After(next, rest);
        assert paths[i..] == [paths[i]] + paths[i + 1..];
        NotLater(paths, i);
        if last.Completed? {
          assert paths[i] !in After(files, t);
        } else {
          var k :| i + 1 <= k < |paths| && Stopped(paths, i + 1, k, next, After(next, rest));
          assert Stopped(paths, i, k, files, After(files, t));
        }
      }
    }
  }

  /** With distinct names, the i-th file's name does not come up again. */
  lemma NotLater(paths: seq<FilePath>, i: nat)
    requires i < |paths|
    requires forall a, b :: 0 <= a < b < |paths| ==> paths[a] != paths[b]
    ensures paths[i] !in paths[i + 1..]
  {
    var rest := paths[i + 1..];
    forall x | 0 <= x < |rest| ensures rest[x] != paths[i] {
      assert rest[x] == paths[i + 1 + x];
    }
  }

  /** Files i..k-1 were deleted; file k and later ones are as they were. */
  predicate Stopped(paths: seq<FilePath>, i: nat, k: nat, before: set<FilePath>, after: set<FilePath>)
    requires i <= k <= |paths|
  {
    && (forall j :: i <= j < k ==> paths[j] !in after)
    && (forall j :: k <= j < |paths| ==> (paths[j] in after <==> paths[j] in before))
  }

  /** Delivering one file touches no other path. */
  lemma DeliverFiles(path: FilePath, request: Result<Request, string>, reply: Reply, files: set<FilePath>)
    ensures var (effects, outcome) := Deliver(path, request, reply);
            After(files, effects) == if outcome.Completed? then files - {path} else files
  {
    var (effects, outcome) := Deliver(path, request, reply);
    if request.Ok? {
      assert After(files, [Post(request.value)]) == files by { assert [Post(request.value)][..0] == []; }
      if outcome.Completed? {
        assert effects[..1] == [Post(request.value)];
      }
    }
  }

  function Names(paths: seq<FilePath>): set<FilePath> {
    set p | p in paths
  }

  /** Writing the fetched files puts every one of them on disk. */
  lemma {:induction false} AfterWrites(files: set<FilePath>, paths: seq<FilePath>, contents: seq<Bytes>)
    requires |paths| == |contents|
    ensures After(files, Writes(paths, contents)) == files + Names(paths)
    decreases |paths|
  {
    if paths != [] {
      var n := |paths| - 1;
      AfterWrites(files, paths[..n], contents[..n]);
      var w := Writes(paths, contents);
      assert w[..n] == Writes(paths[..n], contents[..n]);
      assert w[n] == Write(paths[n], contents[n]);
      assert Names(paths) == Names(paths[..n]) + {paths[n]} by {
        assert paths == paths[..n] + [paths[n]];
      }
    }
  }

  /** After a whole run: when it completes, none of the fetched files is
      left; when it throws, the files before the failing one are gone and
      that file and every later one remain. */
  lemma RunFiles(mailbox: seq<Message>, now: nat -> int, pdfToText: PdfToText, toIso: IsoDate, replies: nat -> Reply,
                 files: set<FilePath>)
    ensures var (paths, trace, outcome) := Run(mailbox, now, pdfToText, toIso, replies);
            && (outcome.Completed? ==> forall p :: p in paths ==> p !in After(files, trace))
            && (outcome.Threw? ==> exists k :: 0 <= k < |paths| && Stopped(paths, 0, k, files + Names(paths), After(files, trace)))
  {
    var q := Qualifying(SortNewestFirst(mailbox));
    var n := Cap(BatchLimit, |q|);
    var paths := NumberedPaths(now, n);
    var requests := Requests(q[..n], pdfToText, PdfExtractor.ExtractDataFromPdf, toIso);
    var written := Writes(paths, q[..n]);
    var (effects, outcome) := BatchFrom(paths, requests, replies, 0);
    AfterWrites(files, paths, q[..n]);
    AfterAppend(files, written, effects);
    BatchFiles(paths, requests, replies, 0, files + Names(paths));
    if outcome.Completed? {
      forall p | p in paths ensures p !in After(files, written + effects) {
        var j :| 0 <= j < |paths| && paths[j] == p;
      }
    }
  }
}
