/**
 * Mailbox messages as the IMAP search and `simpleParser` deliver them, and
 * the in-place sort that puts the newest first.
 */
module Mailbox {
  import opened Js
  import opened Text
  import opened World

  datatype Attachment = Attachment(contentType: string, content: Bytes)

  /** A parsed message: its date (as a timestamp), its subject if it has
      one, and its attachments (none when the parser reports none). */
  datatype Message = Message(date: int, subject: Value, attachments: seq<Attachment>)

  const PdfType := "application/pdf"

  predicate IsPdf(a: Attachment) {
    a.contentType == PdfType
  }

  predicate NewestFirst(s: seq<Message>) {
    forall i, j :: 0 <= i < j < |s| ==> s[i].date >= s[j].date
  }

  // ---------------------------------------------------------------------
  // `messages.sort((a, b) => dateB - dateA)`: a stable sort, newest first

  /** `x` placed after every message at least as new as it. */
  function InsertByDate(x: Message, s: seq<Message>): seq<Message> {
    if s == [] then [x]
    else if s[0].date >= x.date then [s[0]] + InsertByDate(x, s[1..])
    else [x] + s
  }

  function SortNewestFirst(s: seq<Message>): seq<Message>
    decreases |s|
  {
    if s == [] then [] else InsertByDate(s[|s| - 1], SortNewestFirst(s[..|s| - 1]))
  }

  lemma {:induction false} InsertByDateCount(x: Message, s: seq<Message>)
    ensures multiset(InsertByDate(x, s)) == multiset(s) + multiset{x}
    ensures |InsertByDate(x, s)| == |s| + 1
  {
    if s != [] && s[0].date >= x.date {
      InsertByDateCount(x, s[1..]);
      assert s == [s[0]] + s[1..];
    }
  }

  lemma {:induction false} InsertByDateSorted(x: Message, s: seq<Message>)
    requires NewestFirst(s)
    ensures NewestFirst(InsertByDate(x, s))
  {
    if s != [] && s[0].date >= x.date {
      InsertByDateSorted(x, s[1..]);
      InsertByDateCount(x, s[1..]);
      var r := InsertByDate(x, s[1..]);
      forall k | 0 <= k < |r| ensures r[k].date <= s[0].date {
        assert r[k] in multiset(r);
      }
    }
  }

  /** The sort puts the newest first and keeps every message. */
  lemma SortNewestFirstSpec(s: seq<Message>)
    ensures NewestFirst(SortNewestFirst(s))
    ensures multiset(SortNewestFirst(s)) == multiset(s)
    ensures |SortNewestFirst(s)| == |s|
  {
    SortKeepsMessages(s);
    SortOrders(s);
  }

  lemma {:induction false} SortKeepsMessages(s: seq<Message>)
    ensures multiset(SortNewestFirst(s)) == multiset(s)
    ensures |SortNewestFirst(s)| == |s|
    decreases |s|
  {
    if s != [] {
      var init, last := s[..|s| - 1], s[|s| - 1];
      var sorted := SortNewestFirst(init);
      assert SortNewestFirst(s) == InsertByDate(last, sorted);
      SortKeepsMessages(init);
      InsertByDateCount(last, sorted);
      assert s == init + [last];
      assert multiset(s) == multiset(init) + multiset{last};
    }
  }

  lemma {:induction false} SortOrders(s: seq<Message>)
    ensures NewestFirst(SortNewestFirst(s))
    decreases |s|
  {
    if s != [] {
      var init, last := s[..|s| - 1], s[|s| - 1];
      var sorted := SortNewestFirst(init);
      assert SortNewestFirst(s) == InsertByDate(last, sorted);
      SortOrders(init);
      InsertByDateSorted(last, sorted);
    }
  }

  /** After sorting, the first message is at least as new as every other. */
  lemma FirstIsLatest(s: seq<Message>)
    requires s != []
    ensures |SortNewestFirst(s)| == |s|
    ensures forall m :: m in s ==> SortNewestFirst(s)[0].date >= m.date
  {
    SortNewestFirstSpec(s);
    var r := SortNewestFirst(s);
    forall m | m in s ensures r[0].date >= m.date {
      assert m in multiset(r);
      var k :| 0 <= k < |r| && r[k] == m;
    }
  }

  /** Inserting where the in-place shift stops. */
  lemma {:induction false} InsertByDateAt(x: Message, s: seq<Message>, j: nat)
    requires NewestFirst(s) && j <= |s|
    requires j == 0 || s[j - 1].date >= x.date
    requires forall k :: j <= k < |s| ==> s[k].date < x.date
    ensures InsertByDate(x, s) == s[..j] + [x] + s[j..]
  {
    if j > 0 {
      assert s[0].date >= s[j - 1].date;
      InsertByDateAt(x, s[1..], j - 1);
      assert s[1..][..j - 1] == s[1..j];
      assert s[1..][j - 1..] == s[j..];
      assert s[..j] == [s[0]] + s[1..j];
    }
  }

  /** Insertion sort in place. */
  method SortByDate(a: array<Message>)
    modifies a
    ensures a[..] == SortNewestFirst(old(a[..]))
  {
    ghost var input := a[..];
    for i := 0 to a.Length
      invariant a[..i] == SortNewestFirst(input[..i])
      invariant a[i..] == input[i..]
    {
      SortNewestFirstSpec(input[..i]);
      assert a[i] == input[i] && a[i + 1..] == input[i + 1..] by {
        assert a[i..][1..] == a[i + 1..] && input[i..][1..] == input[i + 1..];
      }
      InsertNext(a, i);
      assert input[..i + 1] == input[..i] + [input[i]];
    }
    assert input[..a.Length] == input;
  }

  /** One step of the sort: shifts the older messages of the sorted prefix
      a[..i] up by one and puts a[i] in the gap. */
  method InsertNext(a: array<Message>, i: nat)
    requires i < a.Length && NewestFirst(a[..i])
    modifies a
    ensures a[..i + 1] == InsertByDate(old(a[i]), old(a[..i]))
    ensures a[i + 1..] == old(a[i + 1..])
  {
    ghost var sorted := a[..i];
    var x := a[i];
    var j := ShiftOlder(a, i, x);
    a[j] := x;
    assert forall k :: 0 <= k < i ==> sorted[k] == old(a[k]);
    InsertByDateAt(x, sorted, j);
    assert a[i + 1..] == old(a[i + 1..]);
    ghost var placed := sorted[..j] + [x] + sorted[j..];
    assert |placed| == i + 1;
    forall k | 0 <= k <= i
      ensures a[k] == placed[k]
    {
      if k < j {
        assert placed[k] == sorted[k];
      } else if j < k {
        assert placed[k] == sorted[k - 1];
      }
    }
    assert a[..i + 1] == placed;
  }

  /** Moves the messages of a[..i] older than `x` one place up, from the
      end of the prefix down, and returns the gap left behind. */
  method ShiftOlder(a: array<Message>, i: nat, x: Message) returns (j: nat)
    requires i < a.Length
    modifies a
    ensures j <= i
    ensures forall k :: 0 <= k < j ==> a[k] == old(a[k])
    ensures forall k :: j < k <= i ==> a[k] == old(a[k - 1])
    ensures forall k :: i < k < a.Length ==> a[k] == old(a[k])
    ensures forall k :: j <= k < i ==> old(a[k]).date < x.date
    ensures j == 0 || old(a[j - 1]).date >= x.date
  {
    j := i;
    while j > 0 && a[j - 1].date < x.date
      invariant j <= i
      invariant forall k :: 0 <= k < j ==> a[k] == old(a[k])
      invariant forall k :: j < k <= i ==> a[k] == old(a[k - 1])
      invariant forall k :: i < k < a.Length ==> a[k] == old(a[k])
      invariant forall k :: j <= k < i ==> old(a[k]).date < x.date
    {
      a[j] := a[j - 1];
      j := j - 1;
    }
  }
}
