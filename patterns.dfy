/**
 * Hand-written scanners for the regular expressions of the field extractor
 * and the registration check. Each regex gets
 *   - a language predicate (`...Match`): the ways the pattern can match at a
 *     start position, with the captured spans;
 *   - a matcher (`...At`) that follows the backtracking order of ECMAScript
 *     (greedy quantifiers try the longest run first, lazy ones the shortest),
 *     proved sound and complete against the predicate, and whose contract
 *     also says which of the possible matches it picks;
 * and `Exec` tries start positions left to right, as RegExp.prototype.exec.
 */
module Patterns {
  import opened Wrappers
  import opened Text

  /** Captured group: the half-open index range [start, end). */
  datatype Span = Span(start: nat, end: nat) {
    predicate Within(t: string) { start <= end <= |t| }
  }

  function Slice(t: string, g: Span): string
    requires g.Within(t)
  {
    t[g.start..g.end]
  }

  /** `lit` at index i under the `i` flag (ASCII case folding). */
  predicate LiteralAt(t: string, i: nat, lit: string) {
    i + |lit| <= |t| && forall k :: 0 <= k < |lit| ==> Fold(t[i + k]) == Fold(lit[k])
  }

  // ---------------------------------------------------------------------
  // Generic search orders

  /** The first start position in [from, n] at which `m` matches. */
  function Leftmost<C>(n: nat, from: nat, m: nat -> Option<C>): (r: Option<nat>)
    requires from <= n + 1
    ensures r.Some? ==> from <= r.value <= n && m(r.value).Some?
    ensures r.Some? ==> forall q :: from <= q < r.value ==> m(q).None?
    ensures r.None? ==> forall q :: from <= q <= n ==> m(q).None?
    decreases n + 1 - from
  {
    if from > n then None
    else if m(from).Some? then Some(from)
    else Leftmost(n, from + 1, m)
  }

  /** A match: where it starts and what it captured. */
  datatype Hit<C> = Hit(at: nat, caps: C)

  /** RegExp.prototype.exec: the match found at the leftmost start position
      (positions 0 to |t| are tried). */
  function Exec<C>(t: string, m: nat -> Option<C>): (r: Option<Hit<C>>)
    ensures r.Some? ==> r.value.at <= |t| && m(r.value.at) == Some(r.value.caps)
    ensures r.Some? ==> forall q: nat :: q < r.value.at ==> m(q).None?
    ensures r.None? ==> forall p: nat :: p <= |t| ==> m(p).None?
  {
    match Leftmost(|t|, 0, m)
    case Some(p) => Some(Hit(p, m(p).value))
    case None => None
  }

  /** Backtracking into a greedy quantifier: try counts hi, hi-1, ..., lo and
      keep the first for which the rest of the pattern matches. */
  function Backtrack<C>(hi: nat, lo: nat, f: nat -> Option<C>): (r: Option<nat>)
    ensures r.Some? ==> lo <= r.value <= hi && f(r.value).Some?
    ensures r.Some? ==> forall k :: r.value < k <= hi ==> f(k).None?
    ensures r.None? ==> forall k :: lo <= k <= hi ==> f(k).None?
    decreases hi
  {
    if hi < lo then None
    else if f(hi).Some? then Some(hi)
    else if hi == 0 then None
    else Backtrack(hi - 1, lo, f)
  }

  // ---------------------------------------------------------------------
  // Runs of one character class

  /** End of the digit run starting at i (greedy `\d+`). */
  function SkipDigits(t: string, i: nat): (j: nat)
    requires i <= |t|
    ensures i <= j <= |t| && AllDigit(t, i, j)
    ensures j == |t| || !IsDigit(t[j])
    decreases |t| - i
  {
    if i < |t| && IsDigit(t[i]) then SkipDigits(t, i + 1) else i
  }

  lemma DigitsEndBefore(t: string, i: nat, x: nat)
    requires i <= x <= |t| && AllDigit(t, i, x)
    ensures x <= SkipDigits(t, i)
  {
  }

  /** Index of the first '\n' at or after i, or |t| (greedy `[^\n]*`). */
  function LineEnd(t: string, i: nat): (e: nat)
    requires i <= |t|
    ensures i <= e <= |t| && NoNewline(t, i, e)
    ensures e == |t| || t[e] == '\n'
    decreases |t| - i
  {
    if i < |t| && t[i] != '\n' then LineEnd(t, i + 1) else i
  }

  lemma LineEndAt(t: string, i: nat, x: nat)
    requires i <= x < |t| && NoNewline(t, i, x) && t[x] == '\n'
    ensures LineEnd(t, i) == x
    decreases x - i
  {
    if i < x { LineEndAt(t, i + 1, x); }
  }

  // ---------------------------------------------------------------------
  // marker\s*(\d{min,})   e.g. /K3D Work Order:\s*(\d+)/i, /WO\s*(\d{6,})/i

  ghost predicate LabelledDigitsMatch(t: string, marker: string, min: nat, p: nat, g: Span) {
    && LiteralAt(t, p, marker)
    && p + |marker| <= g.start && g.start + min <= g.end <= |t|
    && AllSpace(t, p + |marker|, g.start) && AllDigit(t, g.start, g.end)
  }

  function LabelledDigitsAt(t: string, marker: string, min: nat, p: nat): (r: Option<Span>)
    requires min >= 1
    ensures r.Some? ==> LabelledDigitsMatch(t, marker, min, p, r.value)
    ensures r.Some? ==> r.value.end == |t| || !IsDigit(t[r.value.end])
    ensures r.None? ==> forall g :: !LabelledDigitsMatch(t, marker, min, p, g)
  {
    if !LiteralAt(t, p, marker) then None
    else
      var j := SkipSpaces(t, p + |marker|);
      var e := SkipDigits(t, j);
      assert forall g :: LabelledDigitsMatch(t, marker, min, p, g) ==> g.start == j && g.end <= e by {
        forall g | LabelledDigitsMatch(t, marker, min, p, g)
          ensures g.start == j && g.end <= e
        {
          SpacesEndBefore(t, p + |marker|, g.start);
          assert IsDigit(t[g.start]);
          DigitsEndBefore(t, j, g.end);
        }
      }
      if e - j >= min then Some(Span(j, e)) else None
  }

  // ---------------------------------------------------------------------
  // ([A-Z]{2})\s*\d{5}   (no `i` flag: upper case only)

  ghost predicate StateMatch(t: string, p: nat, j: nat) {
    && p + 2 <= j && j + 5 <= |t|
    && IsUpper(t[p]) && IsUpper(t[p + 1])
    && AllSpace(t, p + 2, j) && AllDigit(t, j, j + 5)
  }

  function StateAt(t: string, p: nat): (r: Option<Span>)
    ensures r.Some? ==> r.value == Span(p, p + 2) && p + 2 <= |t| && StateMatch(t, p, SkipSpaces(t, p + 2))
    ensures r.None? ==> forall j: nat :: !StateMatch(t, p, j)
  {
    if p + 2 <= |t| && IsUpper(t[p]) && IsUpper(t[p + 1]) then
      var j := SkipSpaces(t, p + 2);
      assert forall j': nat :: StateMatch(t, p, j') ==> j' == j by {
        forall j': nat | StateMatch(t, p, j') ensures j' == j {
          SpacesEndBefore(t, p + 2, j');
          assert IsDigit(t[j']);
        }
      }
      if j + 5 <= |t| && AllDigit(t, j, j + 5) then Some(Span(p, p + 2)) else None
    else None
  }

  // ---------------------------------------------------------------------
  // marker\s*([^\n]*)   e.g. /Ordered By:\s*([^\n]*)/i

  ghost predicate RestOfLineMatch(t: string, marker: string, p: nat, g: Span) {
    && LiteralAt(t, p, marker)
    && p + |marker| <= g.start <= g.end <= |t|
    && AllSpace(t, p + |marker|, g.start) && NoNewline(t, g.start, g.end)
  }

  /** Both quantifiers are greedy and nothing follows them, so the first try
      succeeds: all whitespace is skipped, then the group runs to the end of
      that line. */
  function RestOfLineAt(t: string, marker: string, p: nat): (r: Option<Span>)
    ensures r.Some? <==> LiteralAt(t, p, marker)
    ensures r.Some? ==> RestOfLineMatch(t, marker, p, r.value)
    ensures r.Some? ==> r.value.start == |t| || !IsSpace(t[r.value.start])
    ensures r.Some? ==> r.value.end == |t| || t[r.value.end] == '\n'
  {
    if LiteralAt(t, p, marker) then
      var j := SkipSpaces(t, p + |marker|);
      Some(Span(j, LineEnd(t, j)))
    else None
  }

  // ---------------------------------------------------------------------
  // marker\s*([\s\S]*?)\n{2,}   e.g. /Remarks:\s*([\s\S]*?)\n{2,}/i

  predicate BlankAt(t: string, u: nat) {
    u + 2 <= |t| && t[u] == '\n' && t[u + 1] == '\n'
  }

  /** First blank line (two newlines) at or after i: the lazy group's end. */
  function NextBlank(t: string, i: nat): (r: Option<nat>)
    requires i <= |t|
    ensures r.Some? ==> i <= r.value && BlankAt(t, r.value)
    ensures r.Some? ==> forall u :: i <= u < r.value ==> !BlankAt(t, u)
    ensures r.None? ==> forall u :: i <= u ==> !BlankAt(t, u)
    decreases |t| - i
  {
    if BlankAt(t, i) then Some(i)
    else if i + 2 >= |t| then None
    else NextBlank(t, i + 1)
  }

  ghost predicate UntilBlankMatch(t: string, marker: string, p: nat, g: Span) {
    && LiteralAt(t, p, marker)
    && p + |marker| <= g.start <= g.end <= |t|
    && AllSpace(t, p + |marker|, g.start) && BlankAt(t, g.end)
  }

  function BlankFrom(t: string, s: nat): Option<Span> {
    if s <= |t| then
      match NextBlank(t, s)
      case Some(u) => Some(Span(s, u))
      case None => None
    else None
  }

  function UntilBlankAt(t: string, marker: string, p: nat): (r: Option<Span>)
    ensures r.Some? ==> UntilBlankMatch(t, marker, p, r.value)
    // lazy group: it stops at the first blank line after its start
    ensures r.Some? ==> forall u :: r.value.start <= u < r.value.end ==> !BlankAt(t, u)
    // greedy `\s*`: it gives back whitespace only when no blank line follows
    ensures r.Some? && r.value.start < SkipSpaces(t, p + |marker|) ==>
              forall u :: r.value.start < u ==> !BlankAt(t, u)
    ensures r.None? ==> forall g :: !UntilBlankMatch(t, marker, p, g)
  {
    if !LiteralAt(t, p, marker) then None
    else
      var q := p + |marker|;
      var m := SkipSpaces(t, q);
      var f := (k: nat) => BlankFrom(t, q + k);
      assert forall g :: UntilBlankMatch(t, marker, p, g) ==> g.start <= m && f(g.start - q).Some? by {
        forall g | UntilBlankMatch(t, marker, p, g) ensures g.start <= m && f(g.start - q).Some? {
          SpacesEndBefore(t, q, g.start);
          assert NextBlank(t, g.start).Some?;
          assert f(g.start - q) == BlankFrom(t, g.start);
        }
      }
      match Backtrack(m - q, 0, f)
      case Some(k) =>
        assert k < m - q ==> NextBlank(t, q + k + 1).None? by {
          if k < m - q {
            assert f(k + 1).None?;
            assert f(k + 1) == BlankFrom(t, q + k + 1);
          }
        }
        BlankFrom(t, q + k)
      case None => None
  }

  // ---------------------------------------------------------------------
  // marker(.*)$ with the `s` flag: /Message Received in the email:(.*)$/is

  ghost predicate ToEndMatch(t: string, marker: string, p: nat, g: Span) {
    LiteralAt(t, p, marker) && g == Span(p + |marker|, |t|)
  }

  function ToEndAt(t: string, marker: string, p: nat): (r: Option<Span>)
    ensures r.Some? <==> LiteralAt(t, p, marker)
    ensures r.Some? ==> ToEndMatch(t, marker, p, r.value)
  {
    if LiteralAt(t, p, marker) then Some(Span(p + |marker|, |t|)) else None
  }

  // ---------------------------------------------------------------------
  // /WO\/PO\s+(.+?), WO/i

  const ProjectLineLabel := "WO/PO"
  const ProjectLineStop := ", WO"

  ghost predicate ProjectLineMatch(t: string, p: nat, g: Span) {
    && LiteralAt(t, p, ProjectLineLabel)
    && p + 5 < g.start < g.end <= |t|
    && AllSpace(t, p + 5, g.start) && NoLineTerminator(t, g.start, g.end)
    && LiteralAt(t, g.end, ProjectLineStop)
  }

  /** Lazy `.+?` begun at r and already past u: the first u' >= u at which
      ", WO" follows, scanning no further than the end of the line. */
  function StopFrom(t: string, r: nat, u: nat): (e: Option<nat>)
    requires r < u <= |t| && NoLineTerminator(t, r, u)
    ensures e.Some? ==> u <= e.value <= |t| && NoLineTerminator(t, r, e.value)
    ensures e.Some? ==> LiteralAt(t, e.value, ProjectLineStop)
    ensures e.Some? ==> forall x :: u <= x < e.value ==> !LiteralAt(t, x, ProjectLineStop)
    ensures e.None? ==> forall x :: u <= x <= |t| && NoLineTerminator(t, r, x) ==> !LiteralAt(t, x, ProjectLineStop)
    decreases |t| - u
  {
    if LiteralAt(t, u, ProjectLineStop) then Some(u)
    else if u < |t| && !IsLineTerminator(t[u]) then StopFrom(t, r, u + 1)
    else
      assert forall x :: u < x <= |t| ==> !NoLineTerminator(t, r, x) by {
        forall x | u < x <= |t| ensures !NoLineTerminator(t, r, x) {
          assert u < |t| && IsLineTerminator(t[u]);
        }
      }
      None
  }

  function LineGroupFrom(t: string, s: nat): (r: Option<Span>)
    ensures r.Some? ==> r.value.start == s && s < r.value.end <= |t| && NoLineTerminator(t, s, r.value.end)
    ensures r.Some? ==> LiteralAt(t, r.value.end, ProjectLineStop)
    ensures r.Some? ==> forall x :: s < x < r.value.end ==> !LiteralAt(t, x, ProjectLineStop)
    ensures r.None? ==> forall x :: s < x <= |t| && NoLineTerminator(t, s, x) ==> !LiteralAt(t, x, ProjectLineStop)
  {
    if s < |t| && !IsLineTerminator(t[s]) then
      match StopFrom(t, s, s + 1)
      case Some(u) => Some(Span(s, u))
      case None => None
    else
      assert forall x :: s < x <= |t| ==> !NoLineTerminator(t, s, x) by {
        forall x | s < x <= |t| ensures !NoLineTerminator(t, s, x) {
          assert IsLineTerminator(t[s]);
        }
      }
      None
  }

  /** `\s+(.+?), WO` after the label ends at q: the greedy whitespace
      run, ending at most at `e`, gives back one character at a time until
      the lazy group can match. */
  function ProjectGroup(t: string, q: nat, e: nat): (r: Option<Span>)
    ensures r.Some? ==> q < r.value.start <= e && LineGroupFrom(t, r.value.start) == r
    ensures r.Some? ==> forall s: nat :: r.value.start < s <= e ==> LineGroupFrom(t, s).None?
    ensures r.None? ==> forall s: nat :: q < s <= e ==> LineGroupFrom(t, s).None?
    decreases e
  {
    if e <= q then None
    else
      var g := LineGroupFrom(t, e);
      if g.Some? then g else ProjectGroup(t, q, e - 1)
  }

  function ProjectLineAt(t: string, p: nat): (r: Option<Span>)
    ensures r.Some? ==> ProjectLineMatch(t, p, r.value)
    // lazy group: the first ", WO" after the group's start
    ensures r.Some? ==> forall x :: r.value.start < x < r.value.end ==> !LiteralAt(t, x, ProjectLineStop)
    // greedy `\s+`: no longer whitespace prefix admits a match
    ensures r.Some? ==> p + 5 <= |t| && forall s: nat :: r.value.start < s <= SkipSpaces(t, p + 5) ==> LineGroupFrom(t, s).None?
    ensures r.None? ==> forall g :: !ProjectLineMatch(t, p, g)
  {
    if !LiteralAt(t, p, ProjectLineLabel) then None
    else
      assert forall g :: ProjectLineMatch(t, p, g) ==>
                           p + 5 < g.start <= SkipSpaces(t, p + 5) && LineGroupFrom(t, g.start).Some? by {
        forall g | ProjectLineMatch(t, p, g)
          ensures p + 5 < g.start <= SkipSpaces(t, p + 5) && LineGroupFrom(t, g.start).Some?
        {
          SpacesEndBefore(t, p + 5, g.start);
        }
      }
      ProjectGroup(t, p + 5, SkipSpaces(t, p + 5))
  }

  // ---------------------------------------------------------------------
  // /Oneway\s+([^\n]+)\n([^\n]+)\n([^\n]+, [A-Z]{2} \d{5})/i

  const BlockMarker := "Oneway"

  /** ", XX 12345" at c: how the third line ends (letters of either case, as
      the pattern carries the `i` flag). */
  predicate TailAt(t: string, c: nat) {
    && c + 10 <= |t| && t[c] == ',' && t[c + 1] == ' '
    && IsLetter(t[c + 2]) && IsLetter(t[c + 3]) && t[c + 4] == ' '
    && AllDigit(t, c + 5, c + 10)
  }

  datatype Block = Block(line1: Span, line2: Span, line3: Span)

  /** What follows `\s+`: the three groups and the newlines between them. */
  ghost predicate BlockShape(t: string, b: Block) {
    && b.line1.start < b.line1.end < |t|
    && NoNewline(t, b.line1.start, b.line1.end) && t[b.line1.end] == '\n'
    && b.line2.start == b.line1.end + 1
    && b.line2.start < b.line2.end < |t|
    && NoNewline(t, b.line2.start, b.line2.end) && t[b.line2.end] == '\n'
    && b.line3.start == b.line2.end + 1
    && b.line3.start + 10 < b.line3.end <= |t|
    && NoNewline(t, b.line3.start, b.line3.end - 10) && TailAt(t, b.line3.end - 10)
  }

  ghost predicate BlockMatch(t: string, p: nat, b: Block) {
    && LiteralAt(t, p, BlockMarker)
    && p + 6 < b.line1.start <= |t| && AllSpace(t, p + 6, b.line1.start)
    && BlockShape(t, b)
  }

  /** A block's first two lines run to their newline, and its tail lies
      within the third line. */
  lemma BlockShapeForced(t: string, b: Block)
    requires BlockShape(t, b)
    ensures b.line1.end == LineEnd(t, b.line1.start)
    ensures b.line2.end == LineEnd(t, b.line2.start)
    ensures b.line3.end - 10 <= LineEnd(t, b.line3.start)
  {
    LineEndAt(t, b.line1.start, b.line1.end);
    LineEndAt(t, b.line2.start, b.line2.end);
  }

  /** Backtracking of the greedy `[^\n]+` on the third line: the last tail
      position in (lo, c]. */
  function LastTail(t: string, lo: nat, c: nat): (r: Option<nat>)
    ensures r.Some? ==> lo < r.value <= c && TailAt(t, r.value)
    ensures r.Some? ==> forall x :: r.value < x <= c ==> !TailAt(t, x)
    ensures r.None? ==> forall x :: lo < x <= c ==> !TailAt(t, x)
    decreases c
  {
    if c <= lo then None
    else if TailAt(t, c) then Some(c)
    else LastTail(t, lo, c - 1)
  }

  /** The groups once `\s+` has stopped at r. */
  function BlockFrom(t: string, r: nat): (res: Option<Block>)
    ensures res.Some? ==> res.value.line1.start == r && BlockShape(t, res.value)
    ensures res.Some? ==> (res.value.line3.start <= |t| &&
              forall x :: res.value.line3.end - 10 < x <= LineEnd(t, res.value.line3.start) ==> !TailAt(t, x))
  {
    if r > |t| then None
    else
      var e1 := LineEnd(t, r);
      if e1 == r || e1 == |t| then None
      else
        var e2 := LineEnd(t, e1 + 1);
        if e2 == e1 + 1 || e2 == |t| then None
        else
          var s3 := e2 + 1;
          var e3 := LineEnd(t, s3);
          match LastTail(t, s3, e3)
          case Some(c) =>
            assert NoNewline(t, s3, c);
            Some(Block(Span(r, e1), Span(e1 + 1, e2), Span(s3, c + 10)))
          case None => None
  }

  /** Every way the groups can follow a whitespace run ending at r is found. */
  lemma BlockFromComplete(t: string, b: Block)
    requires BlockShape(t, b)
    ensures BlockFrom(t, b.line1.start).Some?
  {
    BlockShapeForced(t, b);
    var s3 := b.line2.end + 1;
    var c := b.line3.end - 10;
    assert LastTail(t, s3, LineEnd(t, s3)).Some?;
  }

  /** `\s+` then the groups, after the marker ends at q: the greedy
      whitespace run, ending at most at `e`, gives back one character at a
      time until the groups can follow. */
  function BlockGroup(t: string, q: nat, e: nat): (r: Option<Block>)
    ensures r.Some? ==> q < r.value.line1.start <= e && BlockFrom(t, r.value.line1.start) == r
    ensures r.Some? ==> forall s: nat :: r.value.line1.start < s <= e ==> BlockFrom(t, s).None?
    ensures r.None? ==> forall s: nat :: q < s <= e ==> BlockFrom(t, s).None?
    decreases e
  {
    if e <= q then None
    else
      var b := BlockFrom(t, e);
      if b.Some? then b else BlockGroup(t, q, e - 1)
  }

  function BlockAt(t: string, p: nat): (r: Option<Block>)
    ensures r.Some? ==> BlockMatch(t, p, r.value)
    // greedy `[^\n]+` on the third line: no later tail on that line
    ensures r.Some? ==> forall x :: r.value.line3.end - 10 < x <= LineEnd(t, r.value.line3.start) ==> !TailAt(t, x)
    // greedy `\s+`: no longer whitespace prefix admits a match
    ensures r.Some? ==> (p + 6 <= |t| &&
              forall s: nat :: r.value.line1.start < s <= SkipSpaces(t, p + 6) ==> BlockFrom(t, s).None?)
  {
    if !LiteralAt(t, p, BlockMarker) then None
    else BlockGroup(t, p + 6, SkipSpaces(t, p + 6))
  }

  /** Whenever the pattern can match at p, BlockAt finds a match there. */
  lemma BlockAtComplete(t: string, p: nat, b: Block)
    requires BlockMatch(t, p, b)
    ensures BlockAt(t, p).Some?
  {
    SpacesEndBefore(t, p + 6, b.line1.start);
    BlockFromComplete(t, b);
  }

  // ---------------------------------------------------------------------
  // /^[^\s@]+@[^\s@]+\.[^\s@]+$/ (registration e-mail check)

  /** `[^\s@]` */
  predicate Plain(c: char) { !IsSpace(c) && c != '@' }

  predicate AllPlain(s: string, i: nat, j: nat)
    requires i <= j <= |s|
  {
    forall k :: i <= k < j ==> Plain(s[k])
  }

  /** The whole string matches, with the '@' at `at` and the chosen '.' at `dot`. */
  ghost predicate EmailMatch(s: string, at: nat, dot: nat) {
    && 0 < at && at + 1 < dot && dot + 1 < |s|
    && s[at] == '@' && s[dot] == '.'
    && AllPlain(s, 0, at) && AllPlain(s, at + 1, dot) && AllPlain(s, dot + 1, |s|)
  }

  function SkipPlain(s: string, i: nat): (j: nat)
    requires i <= |s|
    ensures i <= j <= |s| && AllPlain(s, i, j)
    ensures j == |s| || !Plain(s[j])
    decreases |s| - i
  {
    if i < |s| && Plain(s[i]) then SkipPlain(s, i + 1) else i
  }

  /** Some '.' at an index in [lo, hi). */
  function HasDot(s: string, lo: nat, hi: nat): (b: bool)
    requires hi <= |s|
    ensures b <==> exists k :: lo <= k < hi && s[k] == '.'
    decreases hi - lo
  {
    if lo >= hi then false
    else s[lo] == '.' || HasDot(s, lo + 1, hi)
  }

  /** The e-mail test: one run of plain characters, an '@', and a plain
      remainder with a '.' that has a character on each side. */
  function EmailMatches(s: string): (b: bool)
  {
    var at := SkipPlain(s, 0);
    && 0 < at < |s| && s[at] == '@'
    && SkipPlain(s, at + 1) == |s|
    && at + 2 < |s| && HasDot(s, at + 2, |s| - 1)
  }

  /** The scanner accepts exactly the strings the pattern matches. */
  lemma EmailMatchesExactly(s: string)
    ensures EmailMatches(s) ==> exists at: nat, dot: nat :: EmailMatch(s, at, dot)
    ensures (exists at: nat, dot: nat :: EmailMatch(s, at, dot)) ==> EmailMatches(s)
  {
    var at := SkipPlain(s, 0);
    if EmailMatches(s) {
      var dot :| at + 2 <= dot < |s| - 1 && s[dot] == '.';
      assert EmailMatch(s, at, dot);
    }
    if exists a: nat, d: nat :: EmailMatch(s, a, d) {
      var a: nat, d: nat :| EmailMatch(s, a, d);
      assert !Plain(s[a]);
      assert a == at;
      assert AllPlain(s, a + 1, |s|) by {
        assert Plain(s[d]);
      }
      assert SkipPlain(s, a + 1) == |s|;
    }
  }
}
