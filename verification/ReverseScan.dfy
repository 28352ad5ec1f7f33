/** cpplint's backward bracket matcher, `FindStartOfExpressionInLine` and `ReverseCloseExpression`, and the
    proof that it undoes the forward one. Read from right to left with the brackets turned around, the text
    before the closing bracket is what module Brackets reads from left to right. */
module ReverseScan {
  import opened Chars
  import opened Brackets
  import opened LineText
  import opened ForwardScan

  /** `\s>=\s` at the start of s */
  predicate StartsGreaterEqual(s: string) {
    |s| >= 4 && IsSpace(s[0]) && s[1] == '>' && s[2] == '=' && IsSpace(s[3])
  }

  /** "->", " >= ", "operator>" and "<<" are skipped together with the character on their left. */
  predicate Skips(line: string, i: nat)
    requires i < |line|
  {
    i > 0 &&
    ( || (line[i] == '>' &&
          (line[i - 1] == '-' || StartsGreaterEqual(line[i - 1..]) || EndsWithOperator(line[..i])))
      || (line[i] == '<' && line[i - 1] == '<'))
  }

  /** How many characters one step consumes. */
  function Stride(line: string, i: nat): nat
    requires i < |line|
  {
    if Skips(line, i) then 2 else 1
  }

  function BackwardStep(line: string, i: nat, stack: seq<char>): Scan
    requires i < |line|
  {
    var c := line[i];
    if IsClose(c) then
      Pending(stack + [c])
    else if c == '>' then
      if Skips(line, i) then Pending(stack) else Pending(stack + ['>'])
    else if c == '<' then
      if Skips(line, i) || !TopIs(stack, '>') then Pending(stack)
      else if |stack| == 1 then Found(i)
      else Pending(Pop(stack))
    else if IsOpen(c) then
      var rest := DropTentative(stack, '>');
      if rest == [] || !Matches(c, rest[|rest| - 1]) then Dead
      else if |rest| == 1 then Found(i)
      else Pending(Pop(rest))
    else if c == ';' then
      var rest := DropTentative(stack, '>');
      if rest == [] then Dead else Pending(rest)
    else
      Pending(stack)
  }

  function BackwardLine(line: string, i: int, stack: seq<char>): Scan
    requires -1 <= i < |line|
    decreases i + 1
  {
    if i < 0 then Pending(stack)
    else
      match BackwardStep(line, i, stack)
      case Pending(next) => BackwardLine(line, i - Stride(line, i), next)
      case done => done
  }

  /** The answer once line l has been scanned with the given outcome. */
  function OpenLines(lines: seq<string>, l: nat, scan: Scan): Place
    requires l < |lines|
    decreases l
  {
    match scan
    case Found(start) => Place(lines[l], l, start)
    case Dead => Place(lines[l], 0, -1)
    case Pending(stack) =>
      if stack == [] || l == 0 then Place(lines[l], 0, -1)
      else OpenLines(lines, l - 1, BackwardLine(lines[l - 1], |lines[l - 1]| - 1, stack))
  }

  function Opening(lines: seq<string>, l: nat, p: nat): Place
    requires l < |lines| && p < |lines[l]|
  {
    if IsClose(lines[l][p]) || lines[l][p] == '>' then OpenLines(lines, l, BackwardLine(lines[l], p, []))
    else Place(lines[l], 0, -1)
  }

  // ----- erasure

  lemma OperatorEndsNeutral(s: string)
    requires EndsWithOperator(s)
    ensures s != "" && (IsSpace(s[|s| - 1]) || s[|s| - 1] == 'r')
  {
    var t := TrimRight(s);
    if s == t {
      assert t[|t| - 8..][7] == 'r';
    }
  }

  /** The character the scanner jumps over is never a bracket. */
  lemma SkippedIsNeutral(line: string, i: nat)
    requires i < |line| && Skips(line, i)
    ensures !IsOpen(line[i]) && !IsClose(line[i]) && !IsOpen(line[i - 1]) && !IsClose(line[i - 1])
  {
    if EndsWithOperator(line[..i]) {
      OperatorEndsNeutral(line[..i]);
    }
  }

  /** One turn of the loop: what becomes of the stack at position i, and the position after the turn. */
  method StepBack(line: string, i: nat, initial: seq<char>) returns (step: Scan, next: int)
    requires i < |line|
    ensures step == BackwardStep(line, i, initial) && next == i - Stride(line, i)
  {
    var c, stack := line[i], initial;
    next := i;
    if IsClose(c) {
      stack := stack + [c];
    } else if c == '>' {
      if i > 0 && (line[i - 1] == '-' || StartsGreaterEqual(line[i - 1..]) || EndsWithOperator(line[..i])) {
        next := next - 1;
      } else {
        stack := stack + ['>'];
      }
    } else if c == '<' {
      if i > 0 && line[i - 1] == '<' {
        next := next - 1;
      } else if TopIs(stack, '>') {
        stack := Pop(stack);
        if stack == [] {
          return Found(i), next - 1;
        }
      }
    } else if IsOpen(c) {
      stack := PopTentative(stack, '>');
      if stack == [] {
        return Dead, next - 1;
      }
      if Matches(c, stack[|stack| - 1]) {
        stack := Pop(stack);
        if stack == [] {
          return Found(i), next - 1;
        }
      } else {
        return Dead, next - 1;
      }
    } else if c == ';' {
      stack := PopTentative(stack, '>');
      if stack == [] {
        return Dead, next - 1;
      }
    }
    return Pending(stack), next - 1;
  }

  method FindStartOfExpressionInLine(line: string, endPos: int, initial: seq<char>) returns (r: Scan)
    requires -1 <= endPos < |line|
    ensures r == BackwardLine(line, endPos, initial)
  {
    var stack := initial;
    var i := endPos;
    while i >= 0
      invariant -1 <= i < |line|
      invariant BackwardLine(line, endPos, initial) == BackwardLine(line, i, stack)
    {
      var step, next := StepBack(line, i, stack);
      if !step.Pending? {
        return step;
      }
      stack, i := step.stack, next;
    }
    return Pending(stack);
  }

  /** Over a real bracket, no other character ends the scan. */
  lemma NeutralStepBack(line: string, i: nat, stack: seq<char>, plain: seq<char>)
    requires i < |line| && !IsOpen(line[i]) && !IsClose(line[i]) && Over(stack, plain, '>')
    ensures var step := BackwardStep(line, i, stack); step.Pending? && Over(step.stack, plain, '>')
  {
    PopSnoc(stack, '>');
    OverDropped(stack, plain, '>');
  }

  lemma MatchesFlipped(c: char, rest: seq<char>)
    requires rest != []
    ensures Matches(Flip(rest[|rest| - 1]), Flip(c)) <==> Matches(c, rest[|rest| - 1])
  {}

  /** Read backward, the step is one step of the plain reading of the mirrored text m. */
  lemma StepErasesBack(line: string, i: nat, stack: seq<char>, m: string, k: nat)
    requires i < |line| && Live(m, k, stack, '>') && k < |m| && m[k] == Flip(line[i])
    ensures match BackwardStep(line, i, stack)
      case Pending(next) => Live(m, k + 1, next, '>')
      case Found(start) => start == i && FirstReturn(m, k + 1)
      case Dead => Doomed(m)
  {
    if IsClose(line[i]) {
      OpenErases(stack, line[i], '>', m, k);
    } else if IsOpen(line[i]) {
      CloseErases(stack, '>', m, k);
      MatchesFlipped(line[i], DropTentative(stack, '>'));
    } else {
      NeutralStepBack(line, i, stack, Feed(m[..k]).value);
      NeutralErases(BackwardStep(line, i, stack).stack, '>', m, k);
    }
  }

  /** m shows the first n characters of the line in the mirror, the first of them just before position end. */
  ghost predicate Mirrored(line: string, n: nat, m: string, end: nat)
    requires n <= |line|
  {
    n <= end <= |m| && forall j :: 0 <= j < n ==> m[end - 1 - j] == Flip(line[j])
  }

  lemma StrideErasesBack(line: string, i: nat, stack: seq<char>, m: string, k: nat)
    requires i < |line| && Live(m, k, stack, '>') && Mirrored(line, i + 1, m, k + i + 1)
    ensures match BackwardStep(line, i, stack)
      case Pending(next) => Live(m, k + Stride(line, i), next, '>')
      case Found(start) => start == i && FirstReturn(m, k + 1)
      case Dead => Doomed(m)
  {
    StepErasesBack(line, i, stack, m, k);
    if Skips(line, i) {
      SkippedIsNeutral(line, i);
      NeutralErases(stack, '>', m, k);
      NeutralErases(stack, '>', m, k + 1);
    }
  }

  /** The outcome of scanning down to the start of a line that lies `end` characters into m. */
  ghost predicate LineJudged(m: string, end: nat, scan: Scan) {
    match scan
    case Pending(stack) => Live(m, end, stack, '>')
    case Found(start) => start < end <= |m| && FirstReturn(m, end - start)
    case Dead => Doomed(m)
  }

  lemma {:induction false} LineErasesBack(line: string, i: int, stack: seq<char>, m: string, k: nat, end: nat)
    requires -1 <= i < |line| && Live(m, k, stack, '>') && k + i + 1 == end
    requires Mirrored(line, i + 1, m, end)
    ensures LineJudged(m, end, BackwardLine(line, i, stack))
    ensures BackwardLine(line, i, stack).Found? ==> BackwardLine(line, i, stack).pos <= i
    decreases i + 1
  {
    if i >= 0 {
      StrideErasesBack(line, i, stack, m, k);
      var step, n := BackwardStep(line, i, stack), Stride(line, i);
      if step.Pending? {
        LineErasesBack(line, i - n, step.stack, m, k + n, end);
      }
    }
  }

  // ----- whole files

  /** The text up to and including position p of line l. */
  function Head(lines: seq<string>, l: nat, p: nat): (s: string)
    requires l < |lines| && p < |lines[l]|
    ensures |s| == Base(lines, l) + p + 1
  {
    CharAt(lines, l, p);
    Text(lines)[..Base(lines, l) + p + 1]
  }

  /** r is the start of the bracketed expression that ends at p on line l of the text; or it says that no
      bracketed expression ends there. */
  ghost predicate OpensOrNot(lines: seq<string>, l: nat, p: nat, r: Place)
    requires l < |lines| && p < |lines[l]|
  {
    var s := Head(lines, l, p);
    if r.pos == -1 then
      r.linenum == 0 && forall k :: 0 <= k <= |s| ==> !Enclosed(s[k..])
    else
      && r.linenum < |lines| && r.line == lines[r.linenum] && 0 <= r.pos < |r.line|
      && Base(lines, r.linenum) + r.pos < |s|
      && Enclosed(s[Base(lines, r.linenum) + r.pos..])
  }

  /** The outcome of scanning down to the start of line l, judged on the mirror m of the text before offset end. */
  ghost predicate JudgedBack(lines: seq<string>, end: nat, m: string, l: nat, scan: Scan)
    requires l < |lines|
  {
    match scan
    case Pending(stack) => Base(lines, l) <= end && Live(m, end - Base(lines, l), stack, '>')
    case Found(start) =>
      start < |lines[l]| && Base(lines, l) + start < end == |m| && FirstReturn(m, end - (Base(lines, l) + start))
    case Dead => Doomed(m)
  }

  /** A place found returns to the empty stack on the mirrored text. */
  ghost predicate OpensWithin(lines: seq<string>, end: nat, m: string, r: Place) {
    if r.pos == -1 then r.linenum == 0 && NothingEnclosed(m)
    else
      && r.linenum < |lines| && r.line == lines[r.linenum] && 0 <= r.pos < |r.line|
      && Base(lines, r.linenum) + r.pos < end <= |m|
      && FirstReturn(m, end - (Base(lines, r.linenum) + r.pos))
  }

  lemma JudgedInText(lines: seq<string>, end: nat, m: string, l: nat, scan: Scan)
    requires l < |lines| && Base(lines, l) <= end == |m| && LineJudged(m, end - Base(lines, l), scan)
    requires scan.Found? ==> scan.pos < |lines[l]|
    ensures JudgedBack(lines, end, m, l, scan)
  {}

  lemma PreviousLineErases(lines: seq<string>, end: nat, m: string, l: nat, stack: seq<char>)
    requires l < |lines| && Base(lines, l + 1) == Base(lines, l) + |lines[l]| <= end == |m|
    requires Mirrored(lines[l], |lines[l]|, m, end - Base(lines, l))
    requires Live(m, end - Base(lines, l + 1), stack, '>')
    ensures JudgedBack(lines, end, m, l, BackwardLine(lines[l], |lines[l]| - 1, stack))
  {
    var line, start := lines[l], Base(lines, l);
    LineErasesBack(line, |line| - 1, stack, m, end - start - |line|, end - start);
    JudgedInText(lines, end, m, l, BackwardLine(line, |line| - 1, stack));
  }

  lemma LineMirrored(lines: seq<string>, end: nat, m: string, l: nat, n: nat)
    requires end <= |Text(lines)| && m == Mirror(Text(lines)[..end])
    requires l < |lines| && n <= |lines[l]| && Base(lines, l) + n <= end
    ensures Mirrored(lines[l], n, m, end - Base(lines, l))
  {
    forall j | 0 <= j < n
      ensures Text(lines)[Base(lines, l) + j] == lines[l][j]
    {
      CharAt(lines, l, j);
    }
  }

  lemma {:induction false} LinesEraseBack(lines: seq<string>, end: nat, m: string, l: nat, scan: Scan)
    requires l < |lines| && end <= |Text(lines)| && m == Mirror(Text(lines)[..end])
    requires JudgedBack(lines, end, m, l, scan)
    ensures OpensWithin(lines, end, m, OpenLines(lines, l, scan))
    decreases l
  {
    if scan.Pending? && l > 0 {
      BaseStep(lines, l - 1);
      LineMirrored(lines, end, m, l - 1, |lines[l - 1]|);
      PreviousLineErases(lines, end, m, l - 1, scan.stack);
      LinesEraseBack(lines, end, m, l - 1, BackwardLine(lines[l - 1], |lines[l - 1]| - 1, scan.stack));
    } else if !scan.Found? {
      NeverReturns(m);
    }
  }

  lemma FirstStepBack(line: string, p: nat)
    requires p < |line| && IsClose(line[p])
    ensures BackwardLine(line, p, []) == BackwardLine(line, p - 1, [line[p]])
  {
    assert [] + [line[p]] == [line[p]];
    assert BackwardStep(line, p, []) == Pending([line[p]]);
  }

  lemma LastLineErases(lines: seq<string>, l: nat, p: nat)
    requires l < |lines| && p < |lines[l]| && IsClose(lines[l][p])
    ensures JudgedBack(lines, Base(lines, l) + p + 1, Mirror(Head(lines, l, p)), l, BackwardLine(lines[l], p, []))
  {
    var line, m := lines[l], Mirror(Head(lines, l, p));
    CharAt(lines, l, p);
    LineMirrored(lines, Base(lines, l) + p + 1, m, l, p + 1);
    FirstBracket(m, line[p], '>');
    FirstStepBack(line, p);
    LineErasesBack(line, p - 1, [line[p]], m, 1, p + 1);
  }

  lemma SuffixMirrored(s: string, a: nat)
    requires a <= |s|
    ensures Enclosed(Mirror(s)[..|s| - a]) <==> Enclosed(s[a..])
  {
    MirrorSlice(s, a, |s|);
    assert Mirror(s)[0..|s| - a] == Mirror(s)[..|s| - a] && s[a..|s|] == s[a..];
    EnclosedIffMirrorEnclosed(s[a..]);
  }

  lemma EnclosedSuffixUnique(s: string, a: nat, b: nat)
    requires a <= |s| && b <= |s| && Enclosed(s[a..]) && Enclosed(s[b..])
    ensures a == b
  {
    SuffixMirrored(s, a);
    SuffixMirrored(s, b);
    EnclosedPrefixUnique(Mirror(s), |s| - a, |s| - b);
  }

  lemma NothingEnclosedBack(s: string)
    requires NothingEnclosed(Mirror(s))
    ensures forall k :: 0 <= k <= |s| ==> !Enclosed(s[k..])
  {
    forall k | 0 <= k <= |s|
      ensures !Enclosed(s[k..])
    {
      SuffixMirrored(s, k);
    }
  }

  /** What the scan found is what the grammar demands. */
  lemma OpensWithinOpens(lines: seq<string>, l: nat, p: nat, r: Place)
    requires l < |lines| && p < |lines[l]| && IsClose(lines[l][p])
    requires OpensWithin(lines, Base(lines, l) + p + 1, Mirror(Head(lines, l, p)), r)
    ensures OpensOrNot(lines, l, p, r)
  {
    var s := Head(lines, l, p);
    CharAt(lines, l, p);
    assert Mirror(s)[0] == Flip(lines[l][p]);
    if r.pos == -1 {
      NothingEnclosedBack(s);
    } else {
      var start := Base(lines, r.linenum) + r.pos;
      EnclosedIffFirstReturn(Mirror(s), |s| - start);
      SuffixMirrored(s, start);
    }
  }

  /** Soundness and completeness: from ')', ']' or '}', ReverseCloseExpression answers exactly with the start
      of the bracketed expression ending there in the text, and with "none" exactly when there is none. */
  lemma OpeningIsSoundAndComplete(lines: seq<string>, l: nat, p: nat)
    requires l < |lines| && p < |lines[l]| && IsClose(lines[l][p])
    ensures OpensOrNot(lines, l, p, Opening(lines, l, p))
  {
    CharAt(lines, l, p);
    LastLineErases(lines, l, p);
    var m, scan := Mirror(Head(lines, l, p)), BackwardLine(lines[l], p, []);
    LinesEraseBack(lines, Base(lines, l) + p + 1, m, l, scan);
    OpensWithinOpens(lines, l, p, Opening(lines, l, p));
  }

  method ReverseCloseExpression(lines: seq<string>, startLine: nat, pos: nat) returns (r: Place)
    requires startLine < |lines| && pos < |lines[startLine]|
    ensures r == Opening(lines, startLine, pos)
    ensures IsClose(lines[startLine][pos]) ==> OpensOrNot(lines, startLine, pos, r)
  {
    if IsClose(lines[startLine][pos]) {
      OpeningIsSoundAndComplete(lines, startLine, pos);
    }
    var linenum := startLine;
    var line := lines[linenum];
    if !IsClose(line[pos]) && line[pos] != '>' {
      return Place(line, 0, -1);
    }
    var scan := FindStartOfExpressionInLine(line, pos, []);
    if scan.Found? {
      return Place(line, linenum, scan.pos);
    }
    while scan.Pending? && scan.stack != [] && linenum > 0
      invariant linenum < |lines| && line == lines[linenum] && !scan.Found?
      invariant Opening(lines, startLine, pos) == OpenLines(lines, linenum, scan)
      decreases linenum
    {
      linenum := linenum - 1;
      line := lines[linenum];
      scan := FindStartOfExpressionInLine(line, |line| - 1, scan.stack);
      if scan.Found? {
        return Place(line, linenum, scan.pos);
      }
    }
    return Place(line, 0, -1);
  }

  /** Going back from position q of line m leads to position p of line l exactly when the text in between is
      a bracketed expression. */
  lemma OpeningIsTheStart(lines: seq<string>, l: nat, p: nat, m: nat, q: nat)
    requires l < |lines| && p < |lines[l]| && m < |lines| && q < |lines[m]| && IsClose(lines[m][q])
    ensures Opening(lines, m, q) == Place(lines[l], l, p) <==>
            Base(lines, l) + p <= Base(lines, m) + q &&
            Enclosed(Head(lines, m, q)[Base(lines, l) + p..])
  {
    OpeningIsSoundAndComplete(lines, m, q);
    var r, s, start := Opening(lines, m, q), Head(lines, m, q), Base(lines, l) + p;
    if start < |s| && Enclosed(s[start..]) {
      assert r.pos != -1;
      var found := Base(lines, r.linenum) + r.pos;
      EnclosedSuffixUnique(s, start, found);
      PlaceUnique(lines, l, p, r.linenum, r.pos);
    }
  }

  lemma ClosingAtPlace(lines: seq<string>, l: nat, p: nat, m: nat, q: nat)
    requires l < |lines| && p < |lines[l]| && m < |lines| && q < |lines[m]| && IsOpen(lines[l][p])
    ensures Closing(lines, l, p) == Place(lines[m], m, q + 1) <==>
            Base(lines, l) + p <= Base(lines, m) + q + 1 <= |Text(lines)| &&
            Enclosed(Text(lines)[Base(lines, l) + p..Base(lines, m) + q + 1])
  {
    var r := Closing(lines, l, p);
    ClosingIsSoundAndComplete(lines, l, p);
    ClosingOffsetIsTheEnd(lines, l, p, Base(lines, m) + q + 1);
    if r.pos != -1 && Base(lines, r.linenum) + r.pos == Base(lines, m) + q + 1 {
      PlaceUnique(lines, m, q, r.linenum, r.pos - 1);
    }
  }

  /** The forward and the backward matcher are inverse to each other on '(', '[' and '{': from position p of
      line l CloseExpression ends behind position q of line m exactly when ReverseCloseExpression leads from
      there back to p on line l. */
  lemma MatchersAreInverse(lines: seq<string>, l: nat, p: nat, m: nat, q: nat)
    requires l < |lines| && p < |lines[l]| && m < |lines| && q < |lines[m]|
    ensures IsOpen(lines[l][p]) && Closing(lines, l, p) == Place(lines[m], m, q + 1) <==>
            IsClose(lines[m][q]) && Opening(lines, m, q) == Place(lines[l], l, p)
  {
    var start, end := Base(lines, l) + p, Base(lines, m) + q + 1;
    CharAt(lines, l, p);
    CharAt(lines, m, q);
    if start < end {
      assert Head(lines, m, q)[start..] == Text(lines)[start..end];
    }
    if IsOpen(lines[l][p]) {
      ClosingAtPlace(lines, l, p, m, q);
    }
    if IsClose(lines[m][q]) {
      OpeningIsTheStart(lines, l, p, m, q);
    }
  }
}
