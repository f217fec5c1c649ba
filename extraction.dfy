/**
 * The field rules shared by the three copies of `extractDataFromPDF`: each
 * field is read from the PDF text by its own patterns, the first pattern
 * that matches wins, and a field whose patterns all fail is "".
 */
module Extraction {
  import opened Wrappers
  import opened Text
  import opened Patterns
  import opened Js

  /** The record `extractDataFromPDF` returns. */
  datatype Fields = Fields(project: string, pm: string, wo: string, po: string, state: string, notes: string)

  /** The returned object: exactly six keys, all strings; in particular
      no status, date or address. */
  function ToObject(f: Fields): (o: Object)
    ensures o.Keys == {"project", "pm", "wo", "po", "state", "notes"}
    ensures forall k :: k in o ==> o[k].Str?
    ensures "status" !in o && "date" !in o && "address" !in o
  {
    map["project" := Str(f.project), "pm" := Str(f.pm), "wo" := Str(f.wo),
        "po" := Str(f.po), "state" := Str(f.state), "notes" := Str(f.notes)]
  }

  /** What every extracted record looks like, whatever the text. */
  predicate WellFormed(f: Fields) {
    && IsTrimmed(f.project)
    && IsTrimmed(f.pm) && '\n' !in f.pm
    && (f.wo == "" || IsDigits(f.wo))
    && (f.po == "" || IsDigits(f.po))
    && (f.state == "" || IsStateCode(f.state))
    && IsTrimmed(f.notes)
  }

  // ---------------------------------------------------------------------
  // `exec(a) || exec(b) || ...`: the first rule whose pattern matches

  function FirstHit<R>(rules: seq<R>, find: R -> Option<Span>): (r: Option<Span>)
    ensures r.Some? ==> exists i :: 0 <= i < |rules| && find(rules[i]) == r
    ensures r.None? ==> forall i :: 0 <= i < |rules| ==> find(rules[i]).None?
  {
    if rules == [] then None
    else
      match find(rules[0])
      case Some(g) => Some(g)
      case None =>
        var r := FirstHit(rules[1..], find);
        assert forall i :: 1 <= i < |rules| ==> rules[i] == rules[1..][i - 1];
        r
  }

  /** Appending rules to a chain changes its result only where every
      earlier rule failed. */
  lemma {:induction false} FirstHitAppend<R>(rules: seq<R>, more: seq<R>, find: R -> Option<Span>)
    ensures FirstHit(rules + more, find) ==
            if FirstHit(rules, find).Some? then FirstHit(rules, find) else FirstHit(more, find)
  {
    if rules == [] {
      assert rules + more == more;
    } else {
      assert (rules + more)[0] == rules[0];
      assert (rules + more)[1..] == rules[1..] + more;
      FirstHitAppend(rules[1..], more, find);
    }
  }

  /** `m[1].trim()` for a group found by one of the rules. */
  function GroupText(t: string, g: Span): (r: string)
    ensures IsTrimmed(r)
  {
    if g.Within(t) then Trim(Slice(t, g)) else ""
  }

  // ---------------------------------------------------------------------
  // project

  function BlockHit(t: string): Option<Hit<Block>> {
    Exec(t, (p: nat) => BlockAt(t, p))
  }

  function LineHit(t: string): Option<Hit<Span>> {
    Exec(t, (p: nat) => ProjectLineAt(t, p))
  }

  const Oneway := "Oneway "

  /** `Oneway ${m[1].trim()} ${m[2].trim()} ${m[3].trim()}` */
  function BlockProject(t: string, b: Block): string
    requires b.line1.Within(t) && b.line2.Within(t) && b.line3.Within(t)
  {
    Oneway + Trim(Slice(t, b.line1)) + " " + Trim(Slice(t, b.line2)) + " " + Trim(Slice(t, b.line3))
  }

  /** The address block, or the name on the "WO/PO" line, or "". */
  function ProjectOf(t: string): string {
    match BlockHit(t)
    case Some(h) =>
      assert BlockAt(t, h.at) == Some(h.caps);
      BlockProject(t, h.caps)
    case None =>
      match LineHit(t)
      case Some(h) =>
        assert ProjectLineAt(t, h.at) == Some(h.caps);
        Trim(Slice(t, h.caps))
      case None => ""
  }

  // ---------------------------------------------------------------------
  // wo and po: a labelled number, else a bare number of six digits or more

  type Count = n: nat | n >= 1 witness 1

  datatype DigitsRule = DigitsRule(marker: string, minDigits: Count)

  /** /K3D Work Order:\s*(\d+)/i, then /WO\s*(\d{6,})/i */
  const WoRules := [DigitsRule("K3D Work Order:", 1), DigitsRule("WO", 6)]

  /** /P\.O\. #:\s*(\d+)/i, then /PO\s*(\d{6,})/i */
  const PoRules := [DigitsRule("P.O. #:", 1), DigitsRule("PO", 6)]

  function DigitsFind(t: string, rule: DigitsRule): (r: Option<Span>)
    ensures r.Some? ==> r.value.Within(t) && r.value.start + rule.minDigits <= r.value.end
    ensures r.Some? ==> AllDigit(t, r.value.start, r.value.end)
    // the digit run is maximal: `\d+` is greedy
    ensures r.Some? ==> r.value.end == |t| || !IsDigit(t[r.value.end])
    // the match at the leftmost label that is followed by enough digits
    ensures r.Some? ==> exists p: nat :: p <= |t| && LabelledDigitsMatch(t, rule.marker, rule.minDigits, p, r.value) &&
                          forall q: nat, g :: q < p ==> !LabelledDigitsMatch(t, rule.marker, rule.minDigits, q, g)
    ensures r.None? ==> forall p: nat, g :: !LabelledDigitsMatch(t, rule.marker, rule.minDigits, p, g)
  {
    var m := (p: nat) => LabelledDigitsAt(t, rule.marker, rule.minDigits, p);
    match Exec(t, m)
    case Some(h) =>
      assert LabelledDigitsAt(t, rule.marker, rule.minDigits, h.at) == Some(h.caps);
      forall q: nat, g | q < h.at ensures !LabelledDigitsMatch(t, rule.marker, rule.minDigits, q, g) {
        assert m(q).None?;
      }
      Some(h.caps)
    case None =>
      assert forall p: nat, g :: !LabelledDigitsMatch(t, rule.marker, rule.minDigits, p, g) by {
        forall p: nat, g ensures !LabelledDigitsMatch(t, rule.marker, rule.minDigits, p, g) {
          if p <= |t| { assert m(p).None?; }
        }
      }
      None
  }

  function FirstDigits(t: string, rules: seq<DigitsRule>): (r: string)
  {
    match FirstHit(rules, (rule: DigitsRule) => DigitsFind(t, rule))
    case Some(g) => GroupText(t, g)
    case None => ""
  }


  // ---------------------------------------------------------------------
  // state: /([A-Z]{2})\s*\d{5}/, case-sensitive

  function StateHit(t: string): Option<Hit<Span>> {
    Exec(t, (p: nat) => StateAt(t, p))
  }

  predicate IsStateCode(s: string) {
    |s| == 2 && IsUpper(s[0]) && IsUpper(s[1])
  }

  function StateOf(t: string): (r: string)
    ensures r == "" || IsStateCode(r)
  {
    match StateHit(t)
    case Some(h) =>
      assert StateAt(t, h.at) == Some(h.caps);
      TrimSpaceFree(Slice(t, h.caps));
      Trim(Slice(t, h.caps))
    case None => ""
  }

  // ---------------------------------------------------------------------
  // notes

  datatype NotesRule =
    | UntilBlankLine(marker: string)   // marker\s*([\s\S]*?)\n{2,}
    | ToEnd(marker: string)            // marker(.*)$ with the `s` flag

  /** /Remarks:\s*([\s\S]*?)\n{2,}/i, then the same after "Instructions:" */
  const NotesRules := [UntilBlankLine("Remarks:"), UntilBlankLine("Instructions:")]

  ghost predicate NotesMatch(t: string, rule: NotesRule, p: nat, g: Span) {
    match rule
    case UntilBlankLine(m) => UntilBlankMatch(t, m, p, g)
    case ToEnd(m) => ToEndMatch(t, m, p, g)
  }

  function NotesAt(t: string, rule: NotesRule, p: nat): (r: Option<Span>)
    ensures r.Some? ==> NotesMatch(t, rule, p, r.value)
    ensures r.Some? && rule.UntilBlankLine? && r.value.start < |t| && IsSpace(t[r.value.start]) ==>
              forall u :: r.value.start < u ==> !BlankAt(t, u)
    ensures r.None? ==> forall g :: !NotesMatch(t, rule, p, g)
  {
    match rule
    case UntilBlankLine(m) =>
      var r := UntilBlankAt(t, m, p);
      if r.Some? && r.value.start < |t| && IsSpace(t[r.value.start]) then
        SpaceBeforeSkip(t, p + |m|, r.value.start);
        r
      else r
    case ToEnd(m) => ToEndAt(t, m, p)
  }

  function NotesFind(t: string, rule: NotesRule): (r: Option<Span>)
    ensures r.Some? ==> r.value.Within(t)
    ensures r.Some? && rule.UntilBlankLine? ==> forall u :: r.value.start <= u < r.value.end ==> !BlankAt(t, u)
    // greedy `\s*`: the group starts on whitespace only when no blank line follows
    ensures r.Some? && rule.UntilBlankLine? && r.value.start < |t| && IsSpace(t[r.value.start]) ==>
              forall u :: r.value.start < u ==> !BlankAt(t, u)
    ensures r.Some? ==> exists p: nat :: p <= |t| && NotesMatch(t, rule, p, r.value) &&
                          forall q: nat, g :: q < p ==> !NotesMatch(t, rule, q, g)
    ensures r.None? ==> forall p: nat, g :: !NotesMatch(t, rule, p, g)
  {
    var m := (p: nat) => NotesAt(t, rule, p);
    match Exec(t, m)
    case Some(h) =>
      assert NotesAt(t, rule, h.at) == Some(h.caps);
      forall q: nat, g | q < h.at ensures !NotesMatch(t, rule, q, g) {
        assert m(q).None?;
      }
      Some(h.caps)
    case None =>
      assert forall p: nat, g :: !NotesMatch(t, rule, p, g) by {
        forall p: nat, g ensures !NotesMatch(t, rule, p, g) {
          if p <= |t| { assert m(p).None?; }
        }
      }
      None
  }

  function NotesOf(t: string, rules: seq<NotesRule>): (r: string)
    ensures IsTrimmed(r)
  {
    match FirstHit(rules, (rule: NotesRule) => NotesFind(t, rule))
    case Some(g) => GroupText(t, g)
    case None => ""
  }

  // ---------------------------------------------------------------------
  // pm: /Ordered By:\s*([^\n]*)/i

  const PmMarker := "Ordered By:"

  function PmHit(t: string): Option<Hit<Span>> {
    Exec(t, (p: nat) => RestOfLineAt(t, PmMarker, p))
  }

  function PmOf(t: string): (r: string)
    ensures IsTrimmed(r)
    ensures '\n' !in r
  {
    match PmHit(t)
    case Some(h) =>
      assert RestOfLineAt(t, PmMarker, h.at) == Some(h.caps);
      var line := Slice(t, h.caps);
      assert '\n' !in line;
      Trim(line)
    case None => ""
  }

  // ---------------------------------------------------------------------
  // What each field rule guarantees

  /** The address block takes precedence; either way the project is trimmed. */
  lemma ProjectRule(t: string)
    ensures IsTrimmed(ProjectOf(t))
    ensures BlockHit(t).None? <==> forall p: nat, b :: !BlockMatch(t, p, b)
    ensures BlockHit(t).Some? ==>
              var r := ProjectOf(t);
              |r| > |Oneway| && r[..|Oneway|] == Oneway && IsDigit(r[|r| - 1])
    ensures BlockHit(t).None? ==>
              (LineHit(t).None? <==> forall p: nat, g :: !ProjectLineMatch(t, p, g))
    ensures BlockHit(t).None? ==>
              forall k :: 0 <= k < |ProjectOf(t)| ==> !IsLineTerminator(ProjectOf(t)[k])
    ensures BlockHit(t).None? && LineHit(t).None? ==> ProjectOf(t) == ""
    // the leftmost address block, its three lines trimmed and joined
    ensures BlockHit(t).Some? ==>
              var h := BlockHit(t).value;
              && BlockMatch(t, h.at, h.caps)
              && (forall q: nat, b :: q < h.at ==> !BlockMatch(t, q, b))
              && ProjectOf(t) == BlockProject(t, h.caps)
    // otherwise the leftmost "WO/PO" line's name, trimmed
    ensures BlockHit(t).None? && LineHit(t).Some? ==>
              var h := LineHit(t).value;
              && ProjectLineMatch(t, h.at, h.caps)
              && (forall q: nat, g :: q < h.at ==> !ProjectLineMatch(t, q, g))
              && ProjectOf(t) == Trim(Slice(t, h.caps))
  {
    BlockHitExact(t);
    LineHitExact(t);
    if BlockHit(t).Some? {
      ProjectFromBlock(t);
    } else {
      ProjectFromLine(t);
    }
  }

  lemma BlockHitExact(t: string)
    ensures BlockHit(t).None? <==> forall p: nat, b :: !BlockMatch(t, p, b)
    ensures BlockHit(t).Some? ==>
              BlockMatch(t, BlockHit(t).value.at, BlockHit(t).value.caps)
              && forall q: nat, b :: q < BlockHit(t).value.at ==> !BlockMatch(t, q, b)
  {
    var mb := (p: nat) => BlockAt(t, p);
    match BlockHit(t)
    case Some(h) =>
      assert mb(h.at) == Some(h.caps);
      assert BlockMatch(t, h.at, h.caps);
      forall q: nat, b | q < h.at ensures !BlockMatch(t, q, b) {
        assert mb(q).None?;
        if BlockMatch(t, q, b) {
          BlockAtComplete(t, q, b);
        }
      }
    case None =>
      forall p: nat, b ensures !BlockMatch(t, p, b) {
        assert mb(p) == BlockAt(t, p);
        if BlockMatch(t, p, b) {
          BlockAtComplete(t, p, b);
        }
      }
  }

  lemma LineHitExact(t: string)
    ensures LineHit(t).None? <==> forall p: nat, g :: !ProjectLineMatch(t, p, g)
    ensures LineHit(t).Some? ==>
              ProjectLineMatch(t, LineHit(t).value.at, LineHit(t).value.caps)
              && forall q: nat, g :: q < LineHit(t).value.at ==> !ProjectLineMatch(t, q, g)
  {
    var ml := (p: nat) => ProjectLineAt(t, p);
    match LineHit(t)
    case Some(h) =>
      assert ml(h.at) == Some(h.caps);
      assert ProjectLineMatch(t, h.at, h.caps);
      forall q: nat, g | q < h.at ensures !ProjectLineMatch(t, q, g) {
        assert ml(q).None?;
      }
    case None =>
      forall p: nat, g ensures !ProjectLineMatch(t, p, g) {
        if p <= |t| {
          assert ml(p).None?;
        }
      }
  }

  lemma ProjectFromBlock(t: string)
    requires BlockHit(t).Some?
    ensures var r := ProjectOf(t);
            |r| > |Oneway| && r[..|Oneway|] == Oneway && IsDigit(r[|r| - 1]) && IsTrimmed(r)
  {
    var h := BlockHit(t).value;
    assert BlockAt(t, h.at) == Some(h.caps);
    BlockProjectShape(t, h.caps);
  }

  lemma BlockProjectShape(t: string, b: Block)
    requires BlockShape(t, b)
    ensures var r := BlockProject(t, b);
            |r| > |Oneway| && r[..|Oneway|] == Oneway && IsDigit(r[|r| - 1]) && IsTrimmed(r)
  {
    var l3 := Slice(t, b.line3);
    assert IsDigit(l3[|l3| - 1]);
    TrimKeepsLast(l3);
    var head := Oneway + Trim(Slice(t, b.line1)) + " " + Trim(Slice(t, b.line2)) + " ";
    assert head[..|Oneway|] == Oneway;
    assert BlockProject(t, b) == head + Trim(l3);
    JoinedShape(head, Trim(l3));
  }

  /** A string that starts with "Oneway " and ends in a digit. */
  lemma JoinedShape(head: string, tail: string)
    requires |head| >= |Oneway| && head[..|Oneway|] == Oneway
    requires tail != [] && IsDigit(tail[|tail| - 1])
    ensures var r := head + tail;
            |r| > |Oneway| && r[..|Oneway|] == Oneway && IsDigit(r[|r| - 1]) && IsTrimmed(r)
  {
    var r := head + tail;
    assert r[..|Oneway|] == head[..|Oneway|];
    assert r[0] == Oneway[0];
    assert r[|r| - 1] == tail[|tail| - 1];
  }

  lemma ProjectFromLine(t: string)
    requires BlockHit(t).None?
    ensures IsTrimmed(ProjectOf(t))
    ensures forall k :: 0 <= k < |ProjectOf(t)| ==> !IsLineTerminator(ProjectOf(t)[k])
  {
    match LineHit(t)
    case Some(h) =>
      assert ProjectLineAt(t, h.at) == Some(h.caps);
      var line := Slice(t, h.caps);
      assert forall k :: 0 <= k < |line| ==> !IsLineTerminator(line[k]);
    case None =>
  }

  /** `m1 ? m1[1].trim() : m2 ? m2[1].trim() : ''` over two digit patterns:
      the primary pattern's digits whenever it matches, else the fallback's. */
  lemma TwoTier(t: string, primary: DigitsRule, fallback: DigitsRule)
    ensures var r := FirstDigits(t, [primary, fallback]);
            match DigitsFind(t, primary)
            case Some(g) => r == Slice(t, g) && IsDigits(r) && |r| >= primary.minDigits
            case None =>
              match DigitsFind(t, fallback)
              case Some(g) => r == Slice(t, g) && IsDigits(r) && |r| >= fallback.minDigits
              case None => r == ""
  {
    var rules := [primary, fallback];
    var find := (rule: DigitsRule) => DigitsFind(t, rule);
    assert rules[1..] == [fallback];
    assert [fallback][1..] == [];
    assert FirstHit(rules, find) == if find(primary).Some? then find(primary) else FirstHit([fallback], find);
    assert FirstHit([fallback], find) == find(fallback);
    match FirstHit(rules, find)
    case Some(g) => GroupTextExact(t, g);
    case None =>
  }

  lemma GroupTextExact(t: string, g: Span)
    requires g.Within(t) && g.start < g.end && AllDigit(t, g.start, g.end)
    ensures GroupText(t, g) == Slice(t, g) && IsDigits(Slice(t, g))
  {
    TrimSpaceFree(Slice(t, g));
  }

  /** wo is "" or digits; "K3D Work Order:" wins; the bare "WO" form needs
      six digits or more; wo is "" only when neither pattern matches. */
  lemma WoRule(t: string)
    ensures var wo := FirstDigits(t, WoRules);
            && (wo == "" || IsDigits(wo))
            && (DigitsFind(t, WoRules[0]).Some? ==> wo == Slice(t, DigitsFind(t, WoRules[0]).value))
            && (DigitsFind(t, WoRules[0]).None? && wo != "" ==> |wo| >= 6)
            && (wo == "" <==> DigitsFind(t, WoRules[0]).None? && DigitsFind(t, WoRules[1]).None?)
  {
    TwoTier(t, WoRules[0], WoRules[1]);
  }

  /** The same for po, "P.O. #:" and the bare "PO" form. */
  lemma PoRule(t: string)
    ensures var po := FirstDigits(t, PoRules);
            && (po == "" || IsDigits(po))
            && (DigitsFind(t, PoRules[0]).Some? ==> po == Slice(t, DigitsFind(t, PoRules[0]).value))
            && (DigitsFind(t, PoRules[0]).None? && po != "" ==> |po| >= 6)
            && (po == "" <==> DigitsFind(t, PoRules[0]).None? && DigitsFind(t, PoRules[1]).None?)
  {
    TwoTier(t, PoRules[0], PoRules[1]);
  }

  /** state is the letter pair of the leftmost `[A-Z]{2}\s*\d{5}`, and "" only
      when there is none. */
  lemma StateRule(t: string)
    ensures StateOf(t) == "" <==> forall p: nat, j: nat :: !StateMatch(t, p, j)
    ensures StateOf(t) != "" ==>
              exists p: nat, j: nat :: StateMatch(t, p, j) && StateOf(t) == t[p..p + 2]
                && forall q: nat, i: nat :: q < p ==> !StateMatch(t, q, i)
  {
    var m := (p: nat) => StateAt(t, p);
    match StateHit(t)
    case Some(h) =>
      assert m(h.at) == Some(h.caps);
      TrimSpaceFree(Slice(t, h.caps));
      assert StateOf(t) == t[h.at..h.at + 2];
      assert StateMatch(t, h.at, SkipSpaces(t, h.at + 2));
      forall q: nat, j: nat | q < h.at ensures !StateMatch(t, q, j) {
        assert m(q).None?;
      }
    case None =>
      forall p: nat, j: nat ensures !StateMatch(t, p, j) {
        if p <= |t| { assert m(p).None?; }
      }
  }

  /** No two consecutive newlines. */
  predicate NoBlankLine(s: string) {
    forall u :: 0 <= u < |s| ==> !BlankAt(s, u)
  }

  /** The Remarks group is taken whenever that pattern matches, the
      Instructions group only when it does not; notes never holds a blank
      line, and is "" when neither label is followed by one. */
  lemma NotesChain(t: string)
    ensures var notes := NotesOf(t, NotesRules);
            && NoBlankLine(notes)
            && match NotesFind(t, NotesRules[0])
               case Some(g) => notes == GroupText(t, g)
               case None =>
                 match NotesFind(t, NotesRules[1])
                 case Some(g) => notes == GroupText(t, g)
                 case None => notes == ""
    ensures (forall p: nat, g :: !UntilBlankMatch(t, "Remarks:", p, g) && !UntilBlankMatch(t, "Instructions:", p, g)) ==>
              NotesOf(t, NotesRules) == ""
  {
    var rules := NotesRules;
    var find := (rule: NotesRule) => NotesFind(t, rule);
    assert rules[1..] == [rules[1]];
    assert [rules[1]][1..] == [];
    assert FirstHit([rules[1]], find) == find(rules[1]);
    NotesNoBlank(t, rules);
  }

  /** Notes found by blank-line-terminated patterns hold no blank line. */
  lemma NotesNoBlank(t: string, rules: seq<NotesRule>)
    requires forall i :: 0 <= i < |rules| ==> rules[i].UntilBlankLine?
    ensures NoBlankLine(NotesOf(t, rules))
  {
    var find := (rule: NotesRule) => NotesFind(t, rule);
    match FirstHit(rules, find)
    case Some(g) =>
      var i :| 0 <= i < |rules| && find(rules[i]) == Some(g);
      assert NotesFind(t, rules[i]) == Some(g);
      TrimmedGroupNoBlank(t, g);
    case None =>
  }

  lemma TrimmedGroupNoBlank(t: string, g: Span)
    requires g.Within(t)
    requires forall u :: g.start <= u < g.end ==> !BlankAt(t, u)
    ensures NoBlankLine(Trim(Slice(t, g)))
  {
    var sl := Slice(t, g);
    TrimIsSlice(sl);
    var a := SkipSpaces(sl, 0);
    var r := Trim(sl);
    forall u | 0 <= u < |r| ensures !BlankAt(r, u) {
      if u + 2 <= |r| {
        var x := g.start + a + u;
        assert r[u] == t[x] && r[u + 1] == t[x + 1];
        assert !BlankAt(t, x);
      }
    }
  }

  /** pm is "" unless "Ordered By:" occurs; then it is the trimmed text from
      the first non-space character after the leftmost label to the end of
      that line. */
  lemma PmRule(t: string)
    ensures PmHit(t).None? <==> forall p: nat :: !LiteralAt(t, p, PmMarker)
    ensures PmHit(t).None? ==> PmOf(t) == ""
    ensures PmHit(t).Some? ==>
              exists p: nat, g :: RestOfLineMatch(t, PmMarker, p, g) && PmOf(t) == Trim(Slice(t, g))
                && (g.start == |t| || !IsSpace(t[g.start]))
                && (g.end == |t| || t[g.end] == '\n')
                && forall q: nat :: q < p ==> !LiteralAt(t, q, PmMarker)
  {
    var m := (p: nat) => RestOfLineAt(t, PmMarker, p);
    match PmHit(t)
    case Some(h) =>
      assert m(h.at) == Some(h.caps);
      assert RestOfLineMatch(t, PmMarker, h.at, h.caps);
      forall q: nat | q < h.at ensures !LiteralAt(t, q, PmMarker) {
        assert m(q).None?;
      }
    case None =>
      forall p: nat ensures !LiteralAt(t, p, PmMarker) {
        if p <= |t| { assert m(p).None?; }
      }
  }
}
