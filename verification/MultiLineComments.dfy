/** cpplint's `RemoveMultiLineComments`, which overwrites the lines of C comments in place, against a line
    automaton that says which lines lie in a comment. */
module MultiLineComments {
  import opened Chars

  const DUMMY := "/**/"

  /** The line begins a comment that does not end on it. */
  predicate Starts(line: string) {
    var t := Trim(line);
    "/*" <= t && !OccursFrom(t, "*/", 2)
  }

  predicate Ends(line: string) {
    EndsWith(Trim(line), "*/")
  }

  predicate At(s: string, k: nat, a: char, b: char) {
    k + 1 < |s| && s[k] == a && s[k + 1] == b
  }

  predicate NoClose(s: string, from: nat) {
    forall j :: from <= j < |s| ==> !At(s, j, '*', '/')
  }

  /** Behind blanks a line begins with slash and star, and star and slash do not follow. */
  ghost predicate OpensComment(line: string) {
    exists k :: 0 <= k <= |line| && BlankBetween(line, 0, k) && At(line, k, '/', '*') && NoClose(line, k + 2)
  }

  /** A line ends with star and slash, in front of blanks. */
  ghost predicate ClosesComment(line: string) {
    exists k: nat :: At(line, k, '*', '/') && BlankBetween(line, k + 2, |line|)
  }

  lemma PairAt(s: string, k: nat)
    requires k <= |s|
    ensures "/*" <= s[k..] <==> At(s, k, '/', '*')
    ensures "*/" <= s[k..] <==> At(s, k, '*', '/')
  {}

  lemma OccursIff(s: string, from: nat)
    ensures OccursFrom(s, "*/", from) <==> !NoClose(s, from)
  {
    forall k | 0 <= k <= |s|
      ensures "*/" <= s[k..] <==> At(s, k, '*', '/')
    {
      PairAt(s, k);
    }
  }

  /** `strip()` does not change where the pairs are. */
  lemma PairsInside(line: string, a: nat, b: nat, k: nat, x: char, y: char)
    requires a <= b <= |line| && BlankBetween(line, 0, a) && BlankBetween(line, b, |line|)
    requires !IsSpace(x) && !IsSpace(y)
    ensures At(line[a..b], k, x, y) <==> At(line, a + k, x, y)
    ensures At(line, k, x, y) ==> a <= k && k + 1 < b
  {}

  lemma StartsIff(line: string)
    ensures Starts(line) <==> OpensComment(line)
  {
    var a, b := TrimIs(line);
    var t := line[a..b];
    PairAt(t, 0);
    assert t[0..] == t;
    OccursIff(t, 2);
    forall k: nat
      ensures At(t, k, '*', '/') <==> At(line, a + k, '*', '/')
    {
      PairsInside(line, a, b, k, '*', '/');
    }
    PairsInside(line, a, b, 0, '/', '*');
    assert NoClose(t, 2) <==> NoClose(line, a + 2) by {
      forall j | a + 2 <= j < |line|
        ensures At(line, j, '*', '/') <==> At(t, j - a, '*', '/')
      {
        PairsInside(line, a, b, j - a, '*', '/');
      }
    }
    if OpensComment(line) {
      var k :| 0 <= k <= |line| && BlankBetween(line, 0, k) && At(line, k, '/', '*') && NoClose(line, k + 2);
      PairsInside(line, a, b, k, '/', '*');
      assert a == k;
    }
  }

  lemma EndsIff(line: string)
    ensures Ends(line) <==> ClosesComment(line)
  {
    var a, b := TrimIs(line);
    var t := line[a..b];
    if |t| >= 2 {
      PairAt(t, |t| - 2);
      PairsInside(line, a, b, |t| - 2, '*', '/');
    }
    if ClosesComment(line) {
      var k: nat :| At(line, k, '*', '/') && BlankBetween(line, k + 2, |line|);
      PairsInside(line, a, b, k, '*', '/');
      assert b == k + 2;
    }
  }

  /** What the automaton sees of a line. */
  datatype Mark = Mark(starts: bool, ends: bool)

  function Marks(lines: seq<string>): (m: seq<Mark>)
    ensures |m| == |lines|
  {
    if lines == [] then [] else [Mark(Starts(lines[0]), Ends(lines[0]))] + Marks(lines[1..])
  }

  lemma {:induction false} MarkAt(lines: seq<string>, k: nat)
    requires k < |lines|
    ensures Marks(lines)[k] == Mark(Starts(lines[k]), Ends(lines[k]))
  {
    if k > 0 {
      MarkAt(lines[1..], k - 1);
    }
  }

  // ----- the line automaton

  /** Is a comment open when line k begins? */
  predicate OpenBefore(m: seq<Mark>, k: nat)
    requires k <= |m|
  {
    k > 0 && (OpenBefore(m, k - 1) || m[k - 1].starts) && !m[k - 1].ends
  }

  predicate InComment(m: seq<Mark>, k: nat)
    requires k < |m|
  {
    OpenBefore(m, k) || m[k].starts
  }

  predicate EndsFrom(m: seq<Mark>, k: nat) {
    exists e :: k <= e < |m| && m[e].ends
  }

  /** Line k after blanking: the lines of terminated comments are replaced, all others are kept. */
  function BlankedLine(lines: seq<string>, k: nat): string
    requires k < |lines|
  {
    if InComment(Marks(lines), k) && EndsFrom(Marks(lines), k) then DUMMY else lines[k]
  }

  /** The lines with the first i of them blanked. */
  function BlankedUpTo(lines: seq<string>, i: nat): (r: seq<string>)
    requires i <= |lines|
    ensures |r| == |lines|
  {
    if i == 0 then lines else BlankedUpTo(lines, i - 1)[i - 1 := BlankedLine(lines, i - 1)]
  }

  function Blanked(lines: seq<string>): (r: seq<string>)
    ensures |r| == |lines|
  {
    BlankedUpTo(lines, |lines|)
  }

  lemma {:induction false} BlankedAt(lines: seq<string>, i: nat, k: nat)
    requires i <= |lines| && k < |lines|
    ensures BlankedUpTo(lines, i)[k] == if k < i then BlankedLine(lines, k) else lines[k]
  {
    if i > 0 {
      BlankedAt(lines, i - 1, k);
    }
  }

  /** Line b begins the comment that is still open at the end of the file. */
  ghost predicate UnterminatedAt(m: seq<Mark>, b: nat) {
    b < |m| && m[b].starts && !OpenBefore(m, b) && !EndsFrom(m, b)
  }

  /** The error, if any, carries the number of the line that begins the unterminated comment; no error means
      that no comment is open at the end of the file. */
  ghost predicate Reported(lines: seq<string>, error: Option<nat>) {
    match error
    case Some(n) => n > 0 && UnterminatedAt(Marks(lines), n - 1)
    case None => !OpenBefore(Marks(lines), |lines|)
  }

  ghost predicate NoEnd(m: seq<Mark>, from: nat, until: nat) {
    until <= |m| && forall j :: from <= j < until ==> !m[j].ends
  }

  /** A comment from its beginning line to the first line that ends it. */
  ghost predicate TerminatedRange(m: seq<Mark>, b: nat, e: nat) {
    b <= e < |m| && m[b].starts && !OpenBefore(m, b) && m[e].ends && NoEnd(m, b, e)
  }

  ghost predicate NoStart(m: seq<Mark>, from: nat, until: nat) {
    until <= |m| && forall j :: from <= j < until ==> !m[j].starts
  }

  /** Without a starting line no comment gets opened. */
  lemma {:induction false} StaysClosed(m: seq<Mark>, from: nat, until: nat)
    requires from <= until && NoStart(m, from, until) && !OpenBefore(m, from)
    ensures forall j :: from <= j <= until ==> !OpenBefore(m, j)
  {
    if from < until {
      StaysClosed(m, from, until - 1);
    }
  }

  /** A comment goes on up to its first ending line. */
  lemma {:induction false} StaysOpen(m: seq<Mark>, begin: nat, end: nat)
    requires begin <= end < |m| && m[begin].starts && NoEnd(m, begin, end)
    ensures forall j :: begin <= j <= end ==> InComment(m, j)
    ensures m[end].ends ==> !OpenBefore(m, end + 1)
  {
    if begin < end {
      StaysOpen(m, begin, end - 1);
      assert InComment(m, end - 1);
    }
  }

  // ----- the loops, on the lines in place

  method FindNextMultiLineCommentStart(lines: array<string>, from: nat) returns (k: nat)
    requires from <= lines.Length
    ensures from <= k <= lines.Length && NoStart(Marks(lines[..]), from, k)
    ensures k < lines.Length ==> Marks(lines[..])[k].starts
  {
    k := from;
    while k < lines.Length
      invariant from <= k <= lines.Length && NoStart(Marks(lines[..]), from, k)
    {
      MarkAt(lines[..], k);
      if "/*" <= Trim(lines[k]) {
        if !OccursFrom(Trim(lines[k]), "*/", 2) {
          return;
        }
      }
      k := k + 1;
    }
  }

  method FindNextMultiLineCommentEnd(lines: array<string>, from: nat) returns (k: nat)
    requires from <= lines.Length
    ensures from <= k <= lines.Length && NoEnd(Marks(lines[..]), from, k)
    ensures k < lines.Length ==> Marks(lines[..])[k].ends
  {
    k := from;
    while k < lines.Length
      invariant from <= k <= lines.Length && NoEnd(Marks(lines[..]), from, k)
    {
      MarkAt(lines[..], k);
      if EndsWith(Trim(lines[k]), "*/") {
        return;
      }
      k := k + 1;
    }
  }

  /** now is was with the lines from begin to end overwritten. */
  ghost predicate Overwritten(was: seq<string>, now: seq<string>, begin: nat, end: nat)
    requires begin <= end <= |was|
  {
    |now| == |was| && forall k :: 0 <= k < |now| ==> now[k] == if begin <= k < end then DUMMY else was[k]
  }

  method RemoveMultiLineCommentsFromRange(lines: array<string>, begin: nat, end: nat)
    requires begin <= end <= lines.Length
    modifies lines
    ensures Overwritten(old(lines[..]), lines[..], begin, end)
  {
    for i := begin to end
      invariant forall k :: 0 <= k < lines.Length ==> lines[k] == if begin <= k < i then DUMMY else old(lines[k])
    {
      lines[i] := DUMMY;
    }
  }

  /** The lines up to i are done, and no comment is open. */
  ghost predicate Progress(was: seq<string>, now: seq<string>, i: nat) {
    i <= |was| && !OpenBefore(Marks(was), i) && now == BlankedUpTo(was, i)
  }

  /** Lines not yet reached look as they did. */
  lemma MarksKept(was: seq<string>, i: nat, k: nat)
    requires i <= k < |was|
    ensures BlankedUpTo(was, i)[k] == was[k] && Marks(BlankedUpTo(was, i))[k] == Marks(was)[k]
  {
    BlankedAt(was, i, k);
    MarkAt(was, k);
    MarkAt(BlankedUpTo(was, i), k);
  }

  lemma {:induction false} KeepLines(was: seq<string>, i: nat, until: nat)
    requires i <= until <= |was|
    requires forall j :: i <= j < until ==> !(InComment(Marks(was), j) && EndsFrom(Marks(was), j))
    ensures BlankedUpTo(was, until) == BlankedUpTo(was, i)
  {
    if i < until {
      KeepLines(was, i, until - 1);
      BlankedAt(was, until - 1, until - 1);
    }
  }

  lemma BlankLines(was: seq<string>, next: seq<string>, i: nat, until: nat)
    requires i <= until <= |was| && Overwritten(BlankedUpTo(was, i), next, i, until)
    requires forall j :: i <= j < until ==> InComment(Marks(was), j) && EndsFrom(Marks(was), j)
    ensures BlankedUpTo(was, until) == next
  {
    forall k | 0 <= k < |was|
      ensures BlankedUpTo(was, until)[k] == next[k]
    {
      BlankedAt(was, until, k);
      BlankedAt(was, i, k);
    }
  }

  lemma SkipToStart(was: seq<string>, now: seq<string>, i: nat, begin: nat)
    requires Progress(was, now, i) && i <= begin && NoStart(Marks(now), i, begin)
    ensures Progress(was, now, begin)
  {
    forall j | i <= j < begin
      ensures !Marks(was)[j].starts
    {
      MarksKept(was, i, j);
    }
    StaysClosed(Marks(was), i, begin);
    KeepLines(was, i, begin);
  }

  lemma KeepToEnd(was: seq<string>, now: seq<string>, begin: nat)
    requires Progress(was, now, begin) && begin < |was|
    requires Marks(now)[begin].starts && NoEnd(Marks(now), begin, |was|)
    ensures now == Blanked(was) && Reported(was, Some(begin + 1))
  {
    MarksKept(was, begin, begin);
    forall j | begin <= j < |was|
      ensures !Marks(was)[j].ends
    {
      MarksKept(was, begin, j);
    }
    KeepLines(was, begin, |was|);
  }

  lemma BlankToEnd(was: seq<string>, now: seq<string>, next: seq<string>, begin: nat, end: nat)
    requires Progress(was, now, begin) && begin <= end < |was| && Overwritten(now, next, begin, end + 1)
    requires Marks(now)[begin].starts && NoEnd(Marks(now), begin, end) && Marks(now)[end].ends
    ensures Progress(was, next, end + 1)
  {
    MarksKept(was, begin, begin);
    MarksKept(was, begin, end);
    forall j | begin <= j < end
      ensures !Marks(was)[j].ends
    {
      MarksKept(was, begin, j);
    }
    StaysOpen(Marks(was), begin, end);
    BlankLines(was, next, begin, end + 1);
  }

  method RemoveMultiLineComments(lines: array<string>) returns (error: Option<nat>)
    modifies lines
    ensures lines[..] == Blanked(old(lines[..]))
    ensures Reported(old(lines[..]), error)
  {
    ghost var was := lines[..];
    var i := 0;
    while i < lines.Length
      invariant Progress(was, lines[..], i)
    {
      var begin := FindNextMultiLineCommentStart(lines, i);
      SkipToStart(was, lines[..], i, begin);
      if begin >= lines.Length {
        break;
      }
      var end := FindNextMultiLineCommentEnd(lines, begin);
      if end >= lines.Length {
        KeepToEnd(was, lines[..], begin);
        return Some(begin + 1);
      }
      ghost var now := lines[..];
      RemoveMultiLineCommentsFromRange(lines, begin, end + 1);
      BlankToEnd(was, now, lines[..], begin, end);
      i := end + 1;
    }
    return None;
  }

  // ----- which lines change

  lemma {:induction false} BeginOf(m: seq<Mark>, k: nat) returns (b: nat)
    requires k < |m| && InComment(m, k)
    ensures b <= k && m[b].starts && !OpenBefore(m, b) && NoEnd(m, b, k)
  {
    if OpenBefore(m, k) {
      b := BeginOf(m, k - 1);
    } else {
      b := k;
    }
  }

  lemma {:induction false} FirstEnd(m: seq<Mark>, k: nat) returns (e: nat)
    requires k < |m| && EndsFrom(m, k)
    ensures k <= e < |m| && m[e].ends && NoEnd(m, k, e)
    decreases |m| - k
  {
    if m[k].ends {
      e := k;
    } else {
      e := FirstEnd(m, k + 1);
    }
  }

  /** Exactly the lines from the beginning to the end of a terminated comment change. */
  lemma BlankedExactlyTerminatedRanges(m: seq<Mark>, k: nat)
    requires k < |m|
    ensures InComment(m, k) && EndsFrom(m, k) <==>
            exists b: nat, e: nat :: TerminatedRange(m, b, e) && b <= k <= e
  {
    if InComment(m, k) && EndsFrom(m, k) {
      var b := BeginOf(m, k);
      var e := FirstEnd(m, k);
      assert TerminatedRange(m, b, e);
    }
    if b: nat, e: nat :| TerminatedRange(m, b, e) && b <= k <= e {
      StaysOpen(m, b, k);
    }
  }

  // ----- blanking twice

  lemma DummyEndsOnly()
    ensures !Starts(DUMMY) && Ends(DUMMY)
  {
    assert TrimRight("/**/") == "/**/" && TrimLeft("/**/") == "/**/";
    assert "/**/"[2..] == "*/";
    assert OccursFrom("/**/", "*/", 2);
  }

  /** How the automaton sees a blanked line. */
  lemma BlankedMark(lines: seq<string>, k: nat)
    requires k < |lines|
    ensures Blanked(lines)[k] == BlankedLine(lines, k)
    ensures var m := Marks(lines);
      Marks(Blanked(lines))[k] == if InComment(m, k) && EndsFrom(m, k) then Mark(false, true) else m[k]
  {
    BlankedAt(lines, |lines|, k);
    MarkAt(lines, k);
    MarkAt(Blanked(lines), k);
    DummyEndsOnly();
  }

  /** In the blanked lines, only an unterminated comment is left. */
  lemma {:induction false} OnlyUnterminatedLeft(lines: seq<string>, k: nat)
    requires k < |lines|
    ensures InComment(Marks(Blanked(lines)), k) ==> InComment(Marks(lines), k) && !EndsFrom(Marks(lines), k)
  {
    BlankedMark(lines, k);
    if k > 0 {
      BlankedMark(lines, k - 1);
      OnlyUnterminatedLeft(lines, k - 1);
      if OpenBefore(Marks(Blanked(lines)), k) {
        assert InComment(Marks(Blanked(lines)), k - 1);
        assert OpenBefore(Marks(lines), k);
      }
    }
  }

  lemma NoEndLeft(lines: seq<string>, k: nat)
    requires k < |lines| && InComment(Marks(Blanked(lines)), k)
    ensures !EndsFrom(Marks(Blanked(lines)), k)
  {
    OnlyUnterminatedLeft(lines, k);
    forall e | k <= e < |lines|
      ensures !Marks(Blanked(lines))[e].ends
    {
      BlankedMark(lines, e);
      assert !EndsFrom(Marks(lines), e);
    }
  }

  /** Blanking again changes no line: an unterminated comment is all that is left, and it is kept. */
  lemma BlankedIdempotent(lines: seq<string>)
    ensures Blanked(Blanked(lines)) == Blanked(lines)
  {
    var r := Blanked(lines);
    forall j | 0 <= j < |r|
      ensures !(InComment(Marks(r), j) && EndsFrom(Marks(r), j))
    {
      if InComment(Marks(r), j) {
        NoEndLeft(lines, j);
      }
    }
    KeepLines(r, 0, |r|);
  }

  // ----- the report

  lemma {:induction false} UnterminatedStaysOpen(m: seq<Mark>, b: nat, k: nat)
    requires UnterminatedAt(m, b) && b < k <= |m|
    ensures OpenBefore(m, k)
  {
    if b < k - 1 {
      UnterminatedStaysOpen(m, b, k - 1);
    }
  }

  /** At most one report fits the lines. */
  lemma ReportedOnce(lines: seq<string>, error: Option<nat>, other: Option<nat>)
    requires Reported(lines, error) && Reported(lines, other)
    ensures error == other
  {
    var m := Marks(lines);
    if error.Some? {
      UnterminatedStaysOpen(m, error.value - 1, |m|);
    }
    if other.Some? {
      UnterminatedStaysOpen(m, other.value - 1, |m|);
    }
    if error.Some? && other.Some? && error.value < other.value {
      UnterminatedStaysOpen(m, error.value - 1, other.value - 1);
    }
    if error.Some? && other.Some? && other.value < error.value {
      UnterminatedStaysOpen(m, other.value - 1, error.value - 1);
    }
  }

  /** No comment is open where none was. */
  lemma StillClosed(lines: seq<string>, k: nat)
    requires k <= |lines| && !OpenBefore(Marks(lines), k)
    ensures !OpenBefore(Marks(Blanked(lines)), k)
  {
    if k > 0 && OpenBefore(Marks(Blanked(lines)), k) {
      OnlyUnterminatedLeft(lines, k - 1);
    }
  }

  lemma StillUnterminated(lines: seq<string>, b: nat)
    requires UnterminatedAt(Marks(lines), b)
    ensures UnterminatedAt(Marks(Blanked(lines)), b)
  {
    StillClosed(lines, b);
    forall k | b <= k < |lines|
      ensures Marks(Blanked(lines))[k] == Marks(lines)[k] && !Marks(lines)[k].ends
    {
      BlankedMark(lines, k);
    }
  }

  /** A second pass reports what the first one did. */
  lemma SameReport(lines: seq<string>, error: Option<nat>, again: Option<nat>)
    requires Reported(lines, error) && Reported(Blanked(lines), again)
    ensures again == error
  {
    if error.Some? {
      StillUnterminated(lines, error.value - 1);
    } else {
      StillClosed(lines, |lines|);
    }
    ReportedOnce(Blanked(lines), error, again);
  }
}
