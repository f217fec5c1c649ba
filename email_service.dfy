/**
 * `fetchPDFAttachments`: the PDF attachments of "Work Order" messages,
 * newest message first, written to numbered temporary files until `limit`
 * of them have been written.
 */
module EmailService {
  import opened Wrappers
  import opened Js
  import opened Text
  import opened World
  import opened Mailbox

  const DefaultLimit := 1

  /** `!mail.subject || !mail.subject.includes("Work Order")` fails. */
  predicate WorkOrderSubject(subject: Value) {
    Truthy(subject) && Includes(subject.s, "Work Order")
  }

  /** The contents of the PDF attachments, in order. */
  function Pdfs(atts: seq<Attachment>): seq<Bytes>
    decreases |atts|
  {
    if atts == [] then []
    else Pdfs(atts[..|atts| - 1]) + (if IsPdf(atts[|atts| - 1]) then [atts[|atts| - 1].content] else [])
  }

  /** The PDFs of a message that can contribute. */
  function PdfsOf(m: Message): seq<Bytes> {
    if WorkOrderSubject(m.subject) then Pdfs(m.attachments) else []
  }

  /** Every PDF that could be returned, in the order they are visited. */
  function Qualifying(ms: seq<Message>): seq<Bytes>
    decreases |ms|
  {
    if ms == [] then [] else Qualifying(ms[..|ms| - 1]) + PdfsOf(ms[|ms| - 1])
  }

  /** How many are returned: none for a limit of zero or less. */
  function Cap(limit: int, available: nat): (n: nat)
    ensures n <= available
    ensures limit <= 0 ==> n == 0
    ensures limit > 0 ==> n <= limit
    ensures n < available ==> n == limit || limit <= 0
  {
    if limit <= 0 then 0 else if available < limit then available else limit
  }

  /** The names `./work_order_${Date.now()}_${count}.pdf`, where `now(k)` is
      the clock when the k-th file is named. */
  function NumberedPaths(now: nat -> int, n: nat): (paths: seq<FilePath>)
    ensures |paths| == n
    ensures forall i, j :: 0 <= i < j < n ==> paths[i] != paths[j]
  {
    seq(n, k requires 0 <= k => NumberedTempPdf(now(k), k))
  }

  function Writes(paths: seq<FilePath>, contents: seq<Bytes>): seq<Effect>
    requires |paths| == |contents|
  {
    seq(|paths|, k requires 0 <= k < |paths| => Write(paths[k], contents[k]))
  }

  /** Everything returned is the content of a PDF attachment of a message
      whose subject names a work order. */
  lemma {:induction false} QualifyingFrom(ms: seq<Message>)
    ensures forall c :: c in Qualifying(ms) ==>
              exists m, a :: m in ms && a in m.attachments && WorkOrderSubject(m.subject) && IsPdf(a) && a.content == c
    decreases |ms|
  {
    if ms != [] {
      var init := ms[..|ms| - 1];
      var last := ms[|ms| - 1];
      QualifyingFrom(init);
      PdfsFrom(last.attachments);
      forall c | c in Qualifying(ms)
        ensures exists m, a :: m in ms && a in m.attachments && WorkOrderSubject(m.subject) && IsPdf(a) && a.content == c
      {
        if c in Qualifying(init) {
          var m, a :| m in init && a in m.attachments && WorkOrderSubject(m.subject) && IsPdf(a) && a.content == c;
          assert m in ms;
        } else {
          assert c in PdfsOf(last);
          var a :| a in last.attachments && IsPdf(a) && a.content == c;
          assert last in ms;
        }
      }
    }
  }

  lemma {:induction false} PdfsFrom(atts: seq<Attachment>)
    ensures forall c :: c in Pdfs(atts) ==> exists a :: a in atts && IsPdf(a) && a.content == c
    decreases |atts|
  {
    if atts != [] {
      var init := atts[..|atts| - 1];
      PdfsFrom(init);
      forall c | c in Pdfs(atts) ensures exists a :: a in atts && IsPdf(a) && a.content == c {
        if c in Pdfs(init) {
          var a :| a in init && IsPdf(a) && a.content == c;
          assert a in atts;
        } else {
          assert atts[|atts| - 1] in atts;
        }
      }
    }
  }

  lemma WritesNext(paths: seq<FilePath>, contents: seq<Bytes>, p: FilePath, c: Bytes)
    requires |paths| == |contents|
    ensures Writes(paths + [p], contents + [c]) == Writes(paths, contents) + [Write(p, c)]
  {
  }

  lemma NumberedNext(now: nat -> int, n: nat)
    ensures NumberedPaths(now, n + 1) == NumberedPaths(now, n) + [NumberedTempPdf(now(n), n)]
  {
  }

  lemma {:induction false} PdfsPrefix(atts: seq<Attachment>, j: nat)
    requires j <= |atts|
    ensures Pdfs(atts[..j]) <= Pdfs(atts)
    decreases |atts| - j
  {
    if j < |atts| {
      PdfsPrefix(atts, j + 1);
      assert atts[..j + 1][..j] == atts[..j];
    } else {
      assert atts[..j] == atts;
    }
  }

  lemma {:induction false} QualifyingPrefix(ms: seq<Message>, i: nat)
    requires i <= |ms|
    ensures Qualifying(ms[..i]) <= Qualifying(ms)
    decreases |ms| - i
  {
    if i < |ms| {
      QualifyingPrefix(ms, i + 1);
      assert ms[..i + 1][..i] == ms[..i];
    } else {
      assert ms[..i] == ms;
    }
  }

  method FetchPdfAttachments(mailbox: seq<Message>, limit: Option<int>, now: nat -> int)
    returns (paths: seq<FilePath>, trace: seq<Effect>)
    ensures var q := Qualifying(SortNewestFirst(mailbox));
            var n := Cap(if limit.Some? then limit.value else DefaultLimit, |q|);
            && n <= |q|
            && paths == NumberedPaths(now, n)
            && trace == Writes(paths, q[..n])
  {
    var a := new Message[|mailbox|](k requires 0 <= k < |mailbox| => mailbox[k]);
    assert a[..] == mailbox;
    SortByDate(a);
    ghost var sorted := a[..];
    var lim := if limit.Some? then limit.value else DefaultLimit;
    paths := [];
    trace := [];
    var count := 0;
    var i := 0;
    while i < a.Length
      invariant 0 <= i <= a.Length && a[..] == sorted
      invariant count == Cap(lim, |Qualifying(sorted[..i])|)
      invariant paths == NumberedPaths(now, count)
      invariant trace == Writes(paths, Qualifying(sorted[..i])[..count])
    {
      if count >= lim {
        break;
      }
      ghost var before := Qualifying(sorted[..i]);
      assert before[..count] == before;
      count, paths, trace := VisitMessage(a[i], lim, now, before, count, paths, trace);
      assert sorted[..i + 1] == sorted[..i] + [sorted[i]];
      i := i + 1;
    }
    QualifyingPrefix(sorted, i);
    assert sorted[..a.Length] == sorted;
    CapOfPrefix(Qualifying(sorted[..i]), Qualifying(sorted), lim, count);
  }

  /** Once the limit is reached, later PDFs change nothing. */
  lemma CapOfPrefix(head: seq<Bytes>, all: seq<Bytes>, limit: int, count: nat)
    requires head <= all && count == Cap(limit, |head|)
    requires count >= limit || head == all
    ensures count == Cap(limit, |all|) && count <= |head|
    ensures head[..count] == all[..count]
  {
  }

  /** One message of the outer loop: skipped unless its subject names a
      work order, otherwise its PDFs are written. */
  method VisitMessage(item: Message, limit: int, now: nat -> int, ghost before: seq<Bytes>,
                      count0: nat, paths0: seq<FilePath>, trace0: seq<Effect>)
    returns (count: nat, paths: seq<FilePath>, trace: seq<Effect>)
    requires count0 == |before| < limit
    requires paths0 == NumberedPaths(now, count0) && trace0 == Writes(paths0, before)
    ensures count == Cap(limit, |before| + |PdfsOf(item)|)
    ensures paths == NumberedPaths(now, count)
    ensures trace == Writes(paths, (before + PdfsOf(item))[..count])
  {
    if !item.subject.Str? || item.subject.s == "" || !Includes(item.subject.s, "Work Order") {
      count, paths, trace := count0, paths0, trace0;
      assert before + PdfsOf(item) == before;
      return;
    }
    count, paths, trace := WritePdfs(item.attachments, limit, now, before, count0, paths0, trace0);
  }

  /** The inner loop over one message's attachments: writes its PDFs after
      the `count` already written, stopping as soon as `limit` is reached. */
  method WritePdfs(atts: seq<Attachment>, limit: int, now: nat -> int, ghost before: seq<Bytes>,
                   count0: nat, paths0: seq<FilePath>, trace0: seq<Effect>)
    returns (count: nat, paths: seq<FilePath>, trace: seq<Effect>)
    requires count0 == |before| < limit
    requires paths0 == NumberedPaths(now, count0) && trace0 == Writes(paths0, before)
    ensures count == Cap(limit, |before| + |Pdfs(atts)|)
    ensures paths == NumberedPaths(now, count)
    ensures trace == Writes(paths, (before + Pdfs(atts))[..count])
  {
    count, paths, trace := count0, paths0, trace0;
    assert before == (before + Pdfs(atts[..0]))[..count];
    var j := 0;
    while j < |atts|
      invariant 0 <= j <= |atts|
      invariant count == |before| + |Pdfs(atts[..j])| < limit
      invariant paths == NumberedPaths(now, count)
      invariant trace == Writes(paths, before + Pdfs(atts[..j]))
    {
      assert atts[..j + 1] == atts[..j] + [atts[j]];
      if atts[j].contentType == "application/pdf" {
        var path := NumberedTempPdf(now(count), count);
        WritesNext(paths, before + Pdfs(atts[..j]), path, atts[j].content);
        NumberedNext(now, count);
        assert Pdfs(atts[..j + 1]) == Pdfs(atts[..j]) + [atts[j].content];
        trace := trace + [Write(path, atts[j].content)];
        paths := paths + [path];
        count := count + 1;
        if count >= limit {
          PdfsPrefix(atts, j + 1);
          assert (before + Pdfs(atts))[..count] == before + Pdfs(atts[..j + 1]);
          return;
        }
      }
      j := j + 1;
    }
    assert atts[..j] == atts;
  }
}
