/** The word wrap of cxxopts' `format_description`. A line is broken whenever width + 2 characters have been
    read, at the last space seen. After a break at a space the next break may find no newer space; the code
    then forms a range that ends before it begins. The model reports that case as None. */
module WordWrap {
  import opened Chars

  /** The last space in desc[from..until]. */
  function LastSpace(desc: string, from: nat, until: nat): (p: Option<nat>)
    requires from <= until <= |desc|
    ensures p.Some? ==> from <= p.value < until && desc[p.value] == ' '
    decreases until - from
  {
    if from == until then None
    else if desc[until - 1] == ' ' then Some(until - 1)
    else LastSpace(desc, from, until - 1)
  }

  function Spaces(n: nat): string {
    if n == 0 then "" else Spaces(n - 1) + " "
  }

  function NewLine(start: nat): string {
    "\n" + Spaces(start)
  }

  /** Between two breaks: up to `block` everything has been read, the current line of the description begins
      at `line`, and the last break was (soft) or was not at a space. */
  datatype Cursor = Cursor(block: nat, line: nat, soft: bool) {
    predicate Valid(desc: string) {
      line <= block <= |desc| && (if soft then line > 0 else line == block)
    }
  }

  /** Where the iterator lastSpace points after the characters from c.block to `until` have been read. */
  function NewestSpace(desc: string, c: Cursor, until: nat): int
    requires c.block <= until <= |desc|
  {
    match LastSpace(desc, c.block, until)
    case Some(p) => p
    case None => if c.soft then c.line - 1 else c.line
  }

  /** The break at the end of a block leads from a to b and writes a row of text. */
  ghost predicate Breaks(desc: string, a: Cursor, b: Cursor, row: string) {
    && a.Valid(desc) && a.block < b.block <= |desc|
    && var p := NewestSpace(desc, a, b.block);
      if p == a.line then b == Cursor(b.block, b.block, false) && row == desc[a.line..b.block]
      else p > a.line && b == Cursor(b.block, p + 1, true) && row == desc[a.line..p]
  }

  /** The break at position `next` forms an inverted range. */
  ghost predicate Inverts(desc: string, a: Cursor, next: nat) {
    a.Valid(desc) && a.block < next <= |desc| && NewestSpace(desc, a, next) < a.line
  }

  /** The breaks made so far, the last one outermost: each leads to a cursor and writes a row. */
  datatype Trace = Start | Break(before: Trace, to: Cursor, row: string) {
    function At(): Cursor {
      if Start? then Cursor(0, 0, false) else to
    }

    /** What has been written: every row with a line break and the indentation of the next one. */
    function Text(start: nat): string {
      if Start? then "" else before.Text(start) + (row + NewLine(start))
    }

    function Count(): nat {
      if Start? then 0 else before.Count() + 1
    }

    function Rows(): seq<string> {
      if Start? then [] else before.Rows() + [row]
    }

    /** The rows with the space put back that a break at a space has dropped. */
    function Rejoined(): string {
      if Start? then "" else before.Rejoined() + row + if to.soft then " " else ""
    }

    /** No row is longer than n. */
    predicate RowsUpTo(n: nat) {
      Break? ==> |row| <= n && before.RowsUpTo(n)
    }

    /** Every break comes behind a block of the given size. */
    ghost predicate Valid(desc: string, size: nat) {
      Break? ==> before.Valid(desc, size) && Breaks(desc, before.At(), to, row) && to.block == before.At().block + size
    }
  }

  /** At the cursor no further break is made: the rest is the last row, or the next range is inverted. */
  ghost predicate Stops(desc: string, size: nat, c: Cursor, rest: bool) {
    c.Valid(desc) && if rest then c.block + size > |desc| else Inverts(desc, c, c.block + size)
  }

  /** After the breaks of t either the rest is written as the last row, or the next range is inverted. */
  ghost predicate Writes(desc: string, start: nat, size: nat, t: Trace, r: Option<string>) {
    && t.Valid(desc, size) && Stops(desc, size, t.At(), r.Some?)
    && (r.Some? ==> r.value == t.Text(start) + desc[t.At().line..])
  }

  /** What `format_description` makes of a description: the text, or None for an inverted range. */
  ghost predicate Formats(desc: string, start: nat, size: nat, r: Option<string>) {
    exists t: Trace :: Writes(desc, start, size, t, r)
  }

  function WithDefault(desc: string, defaultValue: Option<string>): string {
    if defaultValue.Some? then desc + (" (default:" + defaultValue.value + ")") else desc
  }

  /** What the loop variables mean. */
  ghost predicate Loop(desc: string, size: nat, t: Trace, current: nat, startLine: nat, lastSpace: int) {
    && t.Valid(desc, size) && t.At().Valid(desc) && t.At().block <= current <= |desc|
    && startLine == t.At().line && lastSpace == NewestSpace(desc, t.At(), current)
  }

  lemma OneMore(desc: string, size: nat, t: Trace, current: nat, startLine: nat, lastSpace: int)
    requires Loop(desc, size, t, current, startLine, lastSpace) && current < |desc|
    ensures desc[current] == ' ' ==> Loop(desc, size, t, current + 1, startLine, current)
    ensures desc[current] != ' ' ==> Loop(desc, size, t, current + 1, startLine, lastSpace)
  {}

  lemma BreakHard(desc: string, start: nat, size: nat, t: Trace, next: nat, line: nat, text: string,
                  after: string) returns (u: Trace)
    requires Loop(desc, size, t, next, line, line) && t.At().block < next == t.At().block + size
    requires text == t.Text(start) && after == text + (desc[line..next] + NewLine(start))
    ensures u.At().block == next && after == u.Text(start)
    ensures Loop(desc, size, u, next, next, next)
  {
    u := Break(t, Cursor(next, next, false), desc[line..next]);
    assert Breaks(desc, t.At(), u.to, u.row);
  }

  lemma BreakSoft(desc: string, start: nat, size: nat, t: Trace, next: nat, line: nat, p: nat, text: string,
                  after: string) returns (u: Trace)
    requires Loop(desc, size, t, next, line, p) && t.At().block < next == t.At().block + size && p > line
    requires p < next && text == t.Text(start) && after == text + (desc[line..p] + NewLine(start))
    ensures u.At().block == next && after == u.Text(start)
    ensures Loop(desc, size, u, next, p + 1, p)
  {
    u := Break(t, Cursor(next, p + 1, true), desc[line..p]);
    assert Breaks(desc, t.At(), u.to, u.row);
  }

  lemma RangeInverted(desc: string, start: nat, size: nat, t: Trace, next: nat, line: nat, p: int)
    requires Loop(desc, size, t, next, line, p) && t.At().block < next == t.At().block + size && p < line
    ensures Formats(desc, start, size, None)
  {
    assert Writes(desc, start, size, t, None);
  }

  lemma Finished(desc: string, start: nat, size: nat, t: Trace, line: nat, p: int)
    requires Loop(desc, size, t, |desc|, line, p) && |desc| < t.At().block + size
    ensures Formats(desc, start, size, Some(t.Text(start) + desc[line..|desc|]))
  {
    assert desc[line..|desc|] == desc[line..];
    assert Writes(desc, start, size, t, Some(t.Text(start) + desc[line..]));
  }

  /** Breaks the line behind the character before `next`, where a block is full; None if the range to be
      appended ends before it begins. */
  method BreakLine(desc: string, start: nat, size: nat, next: nat, startLine: nat, lastSpace: int, result: string,
                   ghost t: Trace)
      returns (text: Option<string>, newLine: nat, newSpace: int, ghost u: Trace)
    requires Loop(desc, size, t, next, startLine, lastSpace)
    requires t.At().block < next == t.At().block + size && result == t.Text(start)
    ensures text == None ==> Formats(desc, start, size, None)
    ensures text.Some? ==>
      && Loop(desc, size, u, next, newLine, newSpace)
      && u.At().block == next && text.value == u.Text(start)
  {
    newLine, newSpace, u := startLine, lastSpace, t;
    if lastSpace == startLine {
      text := Some(result + (desc[startLine..next] + NewLine(start)));
      u := BreakHard(desc, start, size, t, next, startLine, result, text.value);
      newLine := next;
      newSpace := newLine;
    } else {
      if lastSpace < startLine {
        RangeInverted(desc, start, size, t, next, startLine, lastSpace);
        return None, newLine, newSpace, u;
      }
      text := Some(result + (desc[startLine..lastSpace] + NewLine(start)));
      u := BreakSoft(desc, start, size, t, next, startLine, lastSpace, result, text.value);
      newLine := lastSpace + 1;
    }
  }

  method Wrap(desc: string, start: nat, width: nat) returns (r: Option<string>)
    ensures Formats(desc, start, width + 2, r)
  {
    var result := "";
    var current: nat, startLine: nat, lastSpace, size := 0, 0, 0, 0;
    ghost var t := Start;
    while current != |desc|
      invariant Loop(desc, width + 2, t, current, startLine, lastSpace)
      invariant size == current - t.At().block && size <= width + 1
      invariant result == t.Text(start)
      decreases |desc| - current
    {
      OneMore(desc, width + 2, t, current, startLine, lastSpace);
      if desc[current] == ' ' {
        lastSpace := current;
      }
      if size > width {
        var text;
        text, startLine, lastSpace, t :=
          BreakLine(desc, start, width + 2, current + 1, startLine, lastSpace, result, t);
        if text == None {
          return None;
        }
        result := text.value;
        size := 0;
      } else {
        size := size + 1;
      }
      current := current + 1;
    }
    Finished(desc, start, width + 2, t, startLine, lastSpace);
    return Some(result + desc[startLine..current]);
  }

  // ----- there is only one result

  lemma {:induction false} TraceUnique(desc: string, size: nat, t: Trace, u: Trace)
    requires t.Valid(desc, size) && u.Valid(desc, size) && t.Count() == u.Count()
    ensures t == u
  {
    if t.Break? {
      TraceUnique(desc, size, t.before, u.before);
    }
  }

  /** A longer trace continues a shorter one. */
  lemma {:induction false} NextBreak(desc: string, size: nat, t: Trace, u: Trace) returns (to: Cursor, row: string)
    requires t.Valid(desc, size) && u.Valid(desc, size) && t.Count() < u.Count()
    ensures Breaks(desc, t.At(), to, row) && to.block == t.At().block + size
  {
    if t.Count() == u.before.Count() {
      TraceUnique(desc, size, t, u.before);
      to, row := u.to, u.row;
    } else {
      to, row := NextBreak(desc, size, t, u.before);
    }
  }

  lemma StopsForGood(desc: string, size: nat, c: Cursor, rest: bool, to: Cursor, row: string)
    requires Stops(desc, size, c, rest) && to.block == c.block + size
    ensures !Breaks(desc, c, to, row)
  {}

  lemma StopsOneWay(desc: string, size: nat, c: Cursor, rest: bool, other: bool)
    requires Stops(desc, size, c, rest) && Stops(desc, size, c, other)
    ensures rest == other
  {}

  lemma NoLongerTrace(desc: string, size: nat, t: Trace, rest: bool, u: Trace)
    requires t.Valid(desc, size) && u.Valid(desc, size) && Stops(desc, size, t.At(), rest)
    ensures u.Count() <= t.Count()
  {
    if t.Count() < u.Count() {
      var to, row := NextBreak(desc, size, t, u);
      StopsForGood(desc, size, t.At(), rest, to, row);
    }
  }

  lemma WritesOnce(desc: string, start: nat, size: nat, t: Trace, r: Option<string>, u: Trace, q: Option<string>)
    requires Writes(desc, start, size, t, r) && Writes(desc, start, size, u, q)
    ensures t == u && r == q
  {
    NoLongerTrace(desc, size, t, r.Some?, u);
    NoLongerTrace(desc, size, u, q.Some?, t);
    TraceUnique(desc, size, t, u);
    StopsOneWay(desc, size, t.At(), r.Some?, q.Some?);
  }

  /** A description has one format only. */
  lemma FormatsOnce(desc: string, start: nat, size: nat, r: Option<string>, q: Option<string>)
    requires Formats(desc, start, size, r) && Formats(desc, start, size, q)
    ensures r == q
  {
    var t: Trace :| Writes(desc, start, size, t, r);
    var u: Trace :| Writes(desc, start, size, u, q);
    WritesOnce(desc, start, size, t, r, u, q);
  }

  // ----- when the ranges are well formed

  predicate HasSpace(desc: string, from: nat, until: nat)
    requires until <= |desc|
  {
    exists k :: from <= k < until && desc[k] == ' '
  }

  /** From `block` on, with the last break soft or not: no complete block without a space follows a break at
      a space. A block whose only space is its first character breaks at that space only if the break before
      was soft and left another character in front of it. */
  predicate WellWrapped(desc: string, size: nat, block: nat, soft: bool)
    requires size > 0 && block <= |desc|
    decreases |desc| - block
  {
    var next := block + size;
    next > |desc| ||
    if HasSpace(desc, block, next) then
      WellWrapped(desc, size, next,
                  HasSpace(desc, block + 1, next) || (soft && block > 0 && desc[block - 1] != ' '))
    else
      !soft && WellWrapped(desc, size, next, false)
  }

  lemma {:induction false} LastSpaceIsLast(desc: string, from: nat, until: nat)
    requires from <= until <= |desc|
    ensures LastSpace(desc, from, until) == None <==> !HasSpace(desc, from, until)
    ensures LastSpace(desc, from, until).Some? ==> !HasSpace(desc, LastSpace(desc, from, until).value + 1, until)
    decreases until - from
  {
    if from < until && desc[until - 1] != ' ' {
      LastSpaceIsLast(desc, from, until - 1);
    }
  }

  /** After a soft break, `line` is behind the last space read. */
  ghost predicate Tracks(desc: string, c: Cursor) {
    c.Valid(desc) && (c.soft ==> desc[c.line - 1] == ' ' && !HasSpace(desc, c.line, c.block))
  }

  lemma BreaksTracked(desc: string, size: nat, a: Cursor, b: Cursor, row: string)
    requires size > 0 && Tracks(desc, a) && Breaks(desc, a, b, row) && b.block == a.block + size
    ensures Tracks(desc, b)
    ensures WellWrapped(desc, size, a.block, a.soft) <==> WellWrapped(desc, size, b.block, b.soft)
  {
    LastSpaceIsLast(desc, a.block, b.block);
  }

  lemma {:induction false} TraceTracked(desc: string, size: nat, t: Trace)
    requires size > 0 && t.Valid(desc, size)
    ensures Tracks(desc, t.At())
    ensures WellWrapped(desc, size, 0, false) <==> WellWrapped(desc, size, t.At().block, t.At().soft)
  {
    if t.Break? {
      TraceTracked(desc, size, t.before);
      BreaksTracked(desc, size, t.before.At(), t.to, t.row);
    }
  }

  lemma StopVerdict(desc: string, size: nat, c: Cursor, rest: bool)
    requires size > 0 && Stops(desc, size, c, rest)
    ensures rest <==> WellWrapped(desc, size, c.block, c.soft)
  {
    if !rest {
      LastSpaceIsLast(desc, c.block, c.block + size);
    }
  }

  /** Exactly when every range is well formed: one can tell from the description and the width. */
  lemma WrapsIffWellWrapped(desc: string, start: nat, width: nat, r: Option<string>)
    requires Formats(desc, start, width + 2, r)
    ensures r.Some? <==> WellWrapped(desc, width + 2, 0, false)
  {
    var t: Trace :| Writes(desc, start, width + 2, t, r);
    TraceTracked(desc, width + 2, t);
    StopVerdict(desc, width + 2, t.At(), r.Some?);
  }

  /** Of the size characters from i on, if so many are left, one is a space. */
  predicate SpaceWithin(desc: string, i: nat, size: nat) {
    i + size <= |desc| ==> HasSpace(desc, i, i + size)
  }

  /** It is enough that no run without a space is longer than width + 1. */
  lemma {:induction false} ShortRunsWrap(desc: string, size: nat, block: nat, soft: bool)
    requires size > 0 && block <= |desc|
    requires forall i: nat :: SpaceWithin(desc, i, size)
    ensures WellWrapped(desc, size, block, soft)
    decreases |desc| - block
  {
    var next := block + size;
    assert SpaceWithin(desc, block, size);
    if next <= |desc| {
      ShortRunsWrap(desc, size, next,
                    HasSpace(desc, block + 1, next) || (soft && block > 0 && desc[block - 1] != ' '));
    }
  }

  /** A run of four characters, two more than width 1 allows for, behind a break at a space. */
  lemma LongRunInverts(start: nat, r: Option<string>)
    requires Formats("a bcdef", start, 1 + 2, r)
    ensures r == None
  {
    var desc := "a bcdef";
    WrapsIffWellWrapped(desc, start, 1, r);
    assert desc[1] == ' ' && HasSpace(desc, 0, 3) && HasSpace(desc, 1, 3);
    assert !HasSpace(desc, 3, 6);
    assert !WellWrapped(desc, 3, 3, true);
  }

  // ----- nothing is lost

  /** The text without spaces and line breaks. */
  function Ink(s: string): string {
    if s == "" then ""
    else if s[|s| - 1] == ' ' || s[|s| - 1] == '\n' then Ink(s[..|s| - 1])
    else Ink(s[..|s| - 1]) + [s[|s| - 1]]
  }

  lemma {:induction false} InkConcat(a: string, b: string)
    ensures Ink(a + b) == Ink(a) + Ink(b)
  {
    if b == "" {
      assert a + b == a;
    } else {
      InkConcat(a, b[..|b| - 1]);
      assert (a + b)[..|a + b| - 1] == a + b[..|b| - 1];
    }
  }

  lemma {:induction false} InkOfSpaces(n: nat)
    ensures Ink(Spaces(n)) == ""
  {
    if n > 0 {
      InkOfSpaces(n - 1);
      assert Spaces(n)[..|Spaces(n)| - 1] == Spaces(n - 1);
    }
  }

  lemma InkOfRow(text: string, row: string, start: nat)
    ensures Ink(text + (row + NewLine(start))) == Ink(text) + Ink(row)
  {
    InkOfSpaces(start);
    assert Ink("\n") == Ink("");
    InkConcat("\n", Spaces(start));
    InkConcat(row, NewLine(start));
    InkConcat(text, row + NewLine(start));
    assert Ink(text) + (Ink(row) + "") == Ink(text) + Ink(row);
  }

  /** A break at a space drops that space and nothing else. */
  lemma BreakDropsSpace(desc: string, a: Cursor, b: Cursor, row: string)
    requires Breaks(desc, a, b, row)
    ensures b.soft ==> b.line > 0 && desc[b.line - 1] == ' '
    ensures desc[..if b.soft then b.line - 1 else b.line] == desc[..a.line] + row
  {}

  lemma InkOfSpace(desc: string, p: nat)
    requires p < |desc| && desc[p] == ' '
    ensures Ink(desc[..p + 1]) == Ink(desc[..p])
  {
    assert desc[..p + 1][..p] == desc[..p];
  }

  lemma InkOfBreak(desc: string, a: Cursor, b: Cursor, row: string)
    requires Breaks(desc, a, b, row)
    ensures Ink(desc[..a.line]) + Ink(row) == Ink(desc[..b.line])
  {
    var end := if b.soft then b.line - 1 else b.line;
    BreakDropsSpace(desc, a, b, row);
    InkConcat(desc[..a.line], row);
    if b.soft {
      InkOfSpace(desc, end);
    }
  }

  lemma {:induction false} InkOfTrace(desc: string, start: nat, size: nat, t: Trace)
    requires t.Valid(desc, size)
    ensures t.At().line <= |desc| && Ink(t.Text(start)) == Ink(desc[..t.At().line])
  {
    if t.Break? {
      InkOfTrace(desc, start, size, t.before);
      InkOfRow(t.before.Text(start), t.row, start);
      InkOfBreak(desc, t.before.At(), t.to, t.row);
    } else {
      assert desc[..0] == "";
    }
  }

  lemma InkOfEnd(before: string, desc: string, line: nat)
    requires line <= |desc| && Ink(before) == Ink(desc[..line])
    ensures Ink(before + desc[line..]) == Ink(desc)
  {
    InkConcat(before, desc[line..]);
    InkConcat(desc[..line], desc[line..]);
    assert desc[..line] + desc[line..] == desc;
  }

  /** Conservation: apart from spaces and line breaks the output is the description with its default. */
  lemma WrapKeepsInk(desc: string, start: nat, width: nat, text: string)
    requires Formats(desc, start, width + 2, Some(text))
    ensures Ink(text) == Ink(desc)
  {
    var t: Trace :| Writes(desc, start, width + 2, t, Some(text));
    InkOfTrace(desc, start, width + 2, t);
    InkOfEnd(t.Text(start), desc, t.At().line);
  }

  // ----- when the rows fit the width

  /** From `block` on, with the row begun at `line`: every complete block of width + 2 characters has a space,
      and the last one in it ends a row of 1 to width characters; the rest has at most width characters. */
  predicate RowsFit(desc: string, width: nat, block: nat, line: nat)
    requires line <= block <= |desc|
    decreases |desc| - block
  {
    var next := block + width + 2;
    if next > |desc| then |desc| - line <= width
    else
      match LastSpace(desc, block, next)
      case None => false
      case Some(p) => line < p <= line + width && RowsFit(desc, width, next, p + 1)
  }

  /** One break keeps the question: the rows fit from a on if this row fits and they do from b on. */
  lemma BreakFits(desc: string, width: nat, a: Cursor, b: Cursor, row: string)
    requires Breaks(desc, a, b, row) && b.block == a.block + width + 2
    ensures RowsFit(desc, width, a.block, a.line) <==> |row| <= width && RowsFit(desc, width, b.block, b.line)
  {}

  lemma {:induction false} TraceFits(desc: string, width: nat, t: Trace)
    requires t.Valid(desc, width + 2)
    ensures t.At().Valid(desc)
    ensures RowsFit(desc, width, 0, 0) <==> t.RowsUpTo(width) && RowsFit(desc, width, t.At().block, t.At().line)
  {
    if t.Break? {
      TraceFits(desc, width, t.before);
      BreakFits(desc, width, t.before.At(), t.to, t.row);
    }
  }

  /** No row, the last one included, is longer than n. */
  predicate RowsWithin(desc: string, t: Trace, n: nat) {
    t.RowsUpTo(n) && |desc| - t.At().line <= n
  }

  /** Exactly when no range is inverted and no row is longer than the width: again one can tell from the
      description. */
  lemma RowsFitExactly(desc: string, start: nat, width: nat, t: Trace, r: Option<string>)
    requires Writes(desc, start, width + 2, t, r)
    ensures r.Some? && RowsWithin(desc, t, width) <==> RowsFit(desc, width, 0, 0)
  {
    TraceFits(desc, width, t);
    if r == None {
      LastSpaceIsLast(desc, t.At().block, t.At().block + width + 2);
    }
  }

  lemma {:induction false} TraceBounded(desc: string, width: nat, t: Trace)
    requires t.Valid(desc, width + 2)
    ensures t.RowsUpTo(2 * width + 2) && t.At().block - t.At().line <= width + 1
  {
    if t.Break? {
      TraceBounded(desc, width, t.before);
    }
  }

  /** Every row, the last one included, has at most 2 * width + 2 characters. */
  lemma RowLength(desc: string, start: nat, width: nat, t: Trace, text: string)
    requires Writes(desc, start, width + 2, t, Some(text))
    ensures RowsWithin(desc, t, 2 * width + 2)
  {
    TraceBounded(desc, width, t);
  }

  lemma LastSpaceAt(desc: string, from: nat, until: nat, p: nat)
    requires from <= p < until <= |desc| && desc[p] == ' ' && !HasSpace(desc, p + 1, until)
    ensures LastSpace(desc, from, until) == Some(p)
  {
    LastSpaceIsLast(desc, from, until);
  }

  /** Two short words, then a long one; with width 0 two characters that fill a row. */
  function LongRowExample(width: nat): (desc: string) {
    if width == 0 then "ab"
    else seq(3 * width + 5, i => if i == 1 || i == width + 2 then ' ' else 'x')
  }

  lemma Extend(desc: string, size: nat, t: Trace, to: Cursor, row: string) returns (u: Trace)
    requires t.Valid(desc, size) && Breaks(desc, t.At(), to, row) && to.block == t.At().block + size
    ensures u == Break(t, to, row) && u.Valid(desc, size)
  {
    u := Break(t, to, row);
  }

  lemma TraceOfExample(width: nat) returns (t: Trace)
    ensures var desc := LongRowExample(width);
      && t.Valid(desc, width + 2) && t.At().Valid(desc) && t.At().block + width + 2 > |desc|
      && !RowsWithin(desc, t, 2 * width + 1)
  {
    var desc, n := LongRowExample(width), width + 2;
    if width == 0 {
      LastSpaceIsLast(desc, 0, 2);
      t := Extend(desc, n, Start, Cursor(2, 2, false), desc[0..2]);
    } else {
      LastSpaceAt(desc, 0, n, 1);
      LastSpaceAt(desc, n, 2 * n, n);
      t := Extend(desc, n, Start, Cursor(n, 2, true), desc[0..1]);
      t := Extend(desc, n, t, Cursor(2 * n, n + 1, true), desc[2..n]);
    }
  }

  lemma EndOfTrace(desc: string, start: nat, size: nat, t: Trace) returns (text: string)
    requires t.Valid(desc, size) && t.At().Valid(desc) && t.At().block + size > |desc|
    ensures Writes(desc, start, size, t, Some(text)) && Formats(desc, start, size, Some(text))
  {
    text := t.Text(start) + desc[t.At().line..];
    assert Writes(desc, start, size, t, Some(text));
  }

  /** A trace that reaches the last block is the one that the format comes from. */
  lemma LastBlock(desc: string, start: nat, width: nat, t: Trace, r: Option<string>)
    requires Formats(desc, start, width + 2, r)
    requires t.Valid(desc, width + 2) && t.At().Valid(desc) && t.At().block + width + 2 > |desc|
    ensures r.Some? && Writes(desc, start, width + 2, t, r)
  {
    var text := EndOfTrace(desc, start, width + 2, t);
    FormatsOnce(desc, start, width + 2, r, Some(text));
  }

  /** The bound is exact for every width: this description gets a row of 2 * width + 2 characters. */
  lemma LongestRow(start: nat, width: nat, r: Option<string>) returns (t: Trace)
    requires Formats(LongRowExample(width), start, width + 2, r)
    ensures Writes(LongRowExample(width), start, width + 2, t, r) && r.Some?
    ensures !RowsWithin(LongRowExample(width), t, 2 * width + 1)
  {
    t := TraceOfExample(width);
    LastBlock(LongRowExample(width), start, width, t, r);
  }

  // ----- the lines of the output

  /** s split at its line breaks. */
  function Lines(s: string): (lines: seq<string>)
    ensures lines != []
  {
    if s == "" then [""]
    else
      var before, c := Lines(s[..|s| - 1]), s[|s| - 1];
      var last := |before| - 1;
      if c == '\n' then before + [""] else before[last := before[last] + [c]]
  }

  /** The lines with more text at the end of the last one. */
  function Extended(lines: seq<string>, row: string): seq<string>
    requires lines != []
  {
    lines[|lines| - 1 := lines[|lines| - 1] + row]
  }

  lemma ExtendedNew(lines: seq<string>, row: string)
    ensures Extended(lines + [""], row) == lines + [row]
  {
    assert "" + row == row;
  }

  lemma {:induction false} LinesWithRow(s: string, row: string)
    requires '\n' !in row
    ensures Lines(s + row) == Extended(Lines(s), row)
  {
    var lines, last := Lines(s), |Lines(s)| - 1;
    if row == "" {
      assert s + row == s && lines[last] + row == lines[last];
    } else {
      var n := |row| - 1;
      LinesWithRow(s, row[..n]);
      assert (s + row)[..|s + row| - 1] == s + row[..n];
      assert lines[last] + row[..n] + [row[n]] == lines[last] + row;
    }
  }

  lemma LinesWithBreak(s: string)
    ensures Lines(s + "\n") == Lines(s) + [""]
  {
    assert (s + "\n")[..|s|] == s;
  }

  lemma {:induction false} SpacesAreSpaces(n: nat)
    ensures |Spaces(n)| == n && forall i :: 0 <= i < n ==> Spaces(n)[i] == ' '
  {
    if n > 0 {
      SpacesAreSpaces(n - 1);
    }
  }

  lemma LinesWithRowAndBreak(s: string, row: string, start: nat)
    requires '\n' !in row
    ensures Lines(s + (row + NewLine(start))) == Extended(Lines(s), row) + [Spaces(start)]
  {
    SpacesAreSpaces(start);
    LinesWithRow(s, row);
    LinesWithBreak(s + row);
    LinesWithRow(s + row + "\n", Spaces(start));
    ExtendedNew(Lines(s + row), Spaces(start));
    Glue(s, row, NewLine(start));
    Glue(s + row, "\n", Spaces(start));
  }

  /** `start` spaces, then the row. */
  predicate Indented(line: string, start: nat, row: string) {
    |line| == start + |row| && (forall i :: 0 <= i < start ==> line[i] == ' ') && line[start..] == row
  }

  /** The first line is the first row; every other line is a row behind `start` spaces. */
  predicate LaidOut(lines: seq<string>, start: nat, rows: seq<string>) {
    |lines| == |rows| && forall k :: 0 <= k < |rows| ==> Indented(lines[k], if k == 0 then 0 else start, rows[k])
  }

  lemma OneMoreRow(lines: seq<string>, start: nat, rows: seq<string>, row: string)
    requires lines != [] && LaidOut(lines, start, rows + [""])
    ensures LaidOut(Extended(lines, row), start, rows + [row])
  {
    var last := |lines| - 1;
    var indent := if last == 0 then 0 else start;
    assert Indented(lines[last], indent, "");
    assert (lines[last] + row)[indent..] == row;
    var next := Extended(lines, row);
    forall k | 0 <= k < |next|
      ensures Indented(next[k], if k == 0 then 0 else start, (rows + [row])[k])
    {
      if k < last {
        assert Indented(lines[k], if k == 0 then 0 else start, (rows + [""])[k]);
      }
    }
  }

  lemma OneMoreLine(lines: seq<string>, start: nat, rows: seq<string>)
    requires lines != [] && LaidOut(lines, start, rows)
    ensures LaidOut(lines + [Spaces(start)], start, rows + [""])
  {
    SpacesAreSpaces(start);
    var next := lines + [Spaces(start)];
    forall k | 0 <= k < |next|
      ensures Indented(next[k], if k == 0 then 0 else start, (rows + [""])[k])
    {
      if k < |lines| {
        assert Indented(lines[k], if k == 0 then 0 else start, rows[k]);
      }
    }
  }

  lemma {:induction false} TraceLaidOut(desc: string, start: nat, size: nat, t: Trace)
    requires t.Valid(desc, size) && '\n' !in desc
    ensures LaidOut(Lines(t.Text(start)), start, t.Rows() + [""])
  {
    if t.Break? {
      TraceLaidOut(desc, start, size, t.before);
      var text := t.before.Text(start);
      LinesWithRowAndBreak(text, t.row, start);
      OneMoreRow(Lines(text), start, t.before.Rows(), t.row);
      OneMoreLine(Extended(Lines(text), t.row), start, t.Rows());
    }
  }

  /** What the text looks like: one line for every row, the last row being the rest of the description. */
  lemma OutputLines(desc: string, start: nat, size: nat, t: Trace, text: string)
    requires Writes(desc, start, size, t, Some(text)) && '\n' !in desc
    ensures LaidOut(Lines(text), start, t.Rows() + [desc[t.At().line..]])
  {
    TraceLaidOut(desc, start, size, t);
    LinesWithRow(t.Text(start), desc[t.At().line..]);
    OneMoreRow(Lines(t.Text(start)), start, t.Rows(), desc[t.At().line..]);
  }

  /** Put together again, with a space where a break has dropped one, the rows are the description. */
  lemma {:induction false} RowsAreDescription(desc: string, size: nat, t: Trace)
    requires t.Valid(desc, size)
    ensures t.At().line <= |desc| && t.Rejoined() == desc[..t.At().line]
  {
    if t.Break? {
      RowsAreDescription(desc, size, t.before);
      BreakDropsSpace(desc, t.before.At(), t.to, t.row);
    }
  }

  /** No line has more than n characters behind its indentation. */
  predicate LinesWithin(text: string, start: nat, n: nat) {
    forall k :: 0 <= k < |Lines(text)| ==> |Lines(text)[k]| <= (if k == 0 then 0 else start) + n
  }

  lemma {:induction false} RowsUpToAt(t: Trace, n: nat)
    ensures t.RowsUpTo(n) <==> forall k :: 0 <= k < |t.Rows()| ==> |t.Rows()[k]| <= n
  {
    if t.Break? {
      RowsUpToAt(t.before, n);
      assert t.Rows()[|t.before.Rows()|] == t.row;
      assert forall k :: 0 <= k < |t.before.Rows()| ==> t.Rows()[k] == t.before.Rows()[k];
    }
  }

  lemma RowsAreLines(desc: string, start: nat, size: nat, t: Trace, text: string, n: nat)
    requires Writes(desc, start, size, t, Some(text)) && '\n' !in desc
    ensures LinesWithin(text, start, n) <==> RowsWithin(desc, t, n)
  {
    OutputLines(desc, start, size, t, text);
    RowsUpToAt(t, n);
    var rows := t.Rows() + [desc[t.At().line..]];
    forall k | 0 <= k < |rows|
      ensures |Lines(text)[k]| == (if k == 0 then 0 else start) + |rows[k]|
    {
      assert Indented(Lines(text)[k], if k == 0 then 0 else start, rows[k]);
    }
    assert rows[|t.Rows()|] == desc[t.At().line..];
    assert forall k :: 0 <= k < |t.Rows()| ==> rows[k] == t.Rows()[k];
  }

  /** Exactly when the output keeps to the width: one can tell from the description. */
  lemma LinesFitExactly(desc: string, start: nat, width: nat, r: Option<string>)
    requires Formats(desc, start, width + 2, r) && '\n' !in desc
    ensures r.Some? && LinesWithin(r.value, start, width) <==> RowsFit(desc, width, 0, 0)
  {
    var t: Trace :| Writes(desc, start, width + 2, t, r);
    RowsFitExactly(desc, start, width, t, r);
    if r.Some? {
      RowsAreLines(desc, start, width + 2, t, r.value, width);
    }
  }

  /** No line of the output has more than 2 * width + 2 characters behind its indentation. */
  lemma LineLength(desc: string, start: nat, width: nat, text: string)
    requires Formats(desc, start, width + 2, Some(text)) && '\n' !in desc
    ensures LinesWithin(text, start, 2 * width + 2)
  {
    var t: Trace :| Writes(desc, start, width + 2, t, Some(text));
    RowLength(desc, start, width, t, text);
    RowsAreLines(desc, start, width + 2, t, text, 2 * width + 2);
  }

  /** And for every width there is a description with a line of that length. */
  lemma LongestLine(start: nat, width: nat, r: Option<string>)
    requires Formats(LongRowExample(width), start, width + 2, r)
    ensures r.Some? && !LinesWithin(r.value, start, 2 * width + 1)
  {
    var t := LongestRow(start, width, r);
    RowsAreLines(LongRowExample(width), start, width + 2, t, r.value, 2 * width + 1);
  }

  method FormatDescription(description: string, defaultValue: Option<string>, start: nat, width: nat)
      returns (r: Option<string>)
    ensures Formats(WithDefault(description, defaultValue), start, width + 2, r)
    ensures r.Some? <==> WellWrapped(WithDefault(description, defaultValue), width + 2, 0, false)
    ensures r.Some? ==> Ink(r.value) == Ink(WithDefault(description, defaultValue))
    ensures '\n' !in WithDefault(description, defaultValue) ==>
      (r.Some? && LinesWithin(r.value, start, width) <==> RowsFit(WithDefault(description, defaultValue), width, 0, 0))
  {
    var desc := WithDefault(description, defaultValue);
    r := Wrap(desc, start, width);
    WrapsIffWellWrapped(desc, start, width, r);
    if r.Some? {
      WrapKeepsInk(desc, start, width, r.value);
    }
    if '\n' !in desc {
      LinesFitExactly(desc, start, width, r);
    }
  }
}
