/** cpplint's forward bracket matcher, `FindEndOfExpressionInLine` and `CloseExpression`.

    The scanner keeps a stack of open brackets on which a '<' is only a tentative bracket. Its loops are
    methods proved equal to functions; started on '(', '[' or '{' these functions are then proved to find
    exactly the bracketed expressions of the grammar in module Brackets. */
module ForwardScan {
  import opened Chars
  import opened Brackets
  import opened LineText

  /** Outcome of scanning one line: the position found, no answer at all, or the stack to go on with. */
  datatype Scan = Found(pos: nat) | Dead | Pending(stack: seq<char>)

  /** What the multi-line matchers return: a line, its number and a position on it (-1: no match). */
  datatype Place = Place(line: string, linenum: nat, pos: int)

  predicate TopIs(stack: seq<char>, c: char) {
    |stack| > 0 && stack[|stack| - 1] == c
  }

  function Pop(stack: seq<char>): seq<char>
    requires stack != []
  {
    stack[..|stack| - 1]
  }

  /** The stack without the tentative brackets on its top. */
  function DropTentative(stack: seq<char>, angle: char): seq<char> {
    if TopIs(stack, angle) then DropTentative(Pop(stack), angle) else stack
  }

  /** `\boperator\s*$` */
  predicate EndsWithOperator(s: string) {
    var t := TrimRight(s);
    EndsWith(t, "operator") && (|t| == 8 || !IsWord(t[|t| - 9]))
  }

  /** The word `operator` and blanks at the end of s. */
  ghost predicate OperatorAtEnd(s: string, before: string, blanks: string) {
    && s == before + ("operator" + blanks) && Blank(blanks)
    && (before == "" || !IsWord(before[|before| - 1]))
  }

  lemma OperatorTrimmed(s: string, before: string, blanks: string, after: string)
    requires OperatorAtEnd(s, before, blanks) && s == TrimRight(s) + after && Blank(after)
    requires TrimRight(s) != "" ==> !IsSpace(TrimRight(s)[|TrimRight(s)| - 1])
    ensures EndsWithOperator(s)
  {
    var t, end := TrimRight(s), |before| + 8;
    assert s[end - 1] == 'r';
    forall k | |t| <= k < |s|
      ensures IsSpace(s[k])
    {
      assert s[k] == after[k - |t|];
    }
    forall k | end <= k < |s|
      ensures IsSpace(s[k])
    {
      assert s[k] == blanks[k - end];
    }
    assert t == s[..|t|] && t[|t| - 1] == s[|t| - 1];
    assert |t| == end;
    assert t == s[..end] == before + "operator";
  }

  lemma EndsWithOperatorIff(s: string)
    ensures EndsWithOperator(s) <==> exists before, blanks :: OperatorAtEnd(s, before, blanks)
  {
    var after := TrimRightLeaves(s);
    var t := TrimRight(s);
    if EndsWithOperator(s) {
      var before := t[..|t| - 8];
      assert t == before + "operator";
      Glue(before, "operator", after);
      assert OperatorAtEnd(s, before, after);
    }
    if before, blanks :| OperatorAtEnd(s, before, blanks) {
      OperatorTrimmed(s, before, blanks, after);
    }
  }

  function ForwardStep(line: string, i: nat, stack: seq<char>): Scan
    requires i < |line|
  {
    var c := line[i];
    if IsOpen(c) then
      Pending(stack + [c])
    else if c == '<' then
      if i > 0 && line[i - 1] == '<' then
        if !TopIs(stack, '<') then Pending(stack)
        else if |stack| == 1 then Dead
        else Pending(Pop(stack))
      else if i > 0 && EndsWithOperator(line[..i]) then
        Pending(stack)
      else
        Pending(stack + ['<'])
    else if IsClose(c) then
      var rest := DropTentative(stack, '<');
      if rest == [] || !Matches(rest[|rest| - 1], c) then Dead
      else if |rest| == 1 then Found(i + 1)
      else Pending(Pop(rest))
    else if c == '>' then
      if i > 0 && (line[i - 1] == '-' || EndsWithOperator(line[..i - 1])) then Pending(stack)
      else if !TopIs(stack, '<') then Pending(stack)
      else if |stack| == 1 then Found(i + 1)
      else Pending(Pop(stack))
    else if c == ';' then
      var rest := DropTentative(stack, '<');
      if rest == [] then Dead else Pending(rest)
    else
      Pending(stack)
  }

  function ForwardLine(line: string, i: nat, stack: seq<char>): Scan
    requires i <= |line|
    decreases |line| - i
  {
    if i == |line| then Pending(stack)
    else
      match ForwardStep(line, i, stack)
      case Pending(next) => ForwardLine(line, i + 1, next)
      case done => done
  }

  /** The answer once line l has been scanned with the given outcome. */
  function CloseLines(lines: seq<string>, l: nat, scan: Scan): Place
    requires l < |lines|
    decreases |lines| - l
  {
    match scan
    case Found(end) => Place(lines[l], l, end)
    case Dead => Place(lines[l], |lines|, -1)
    case Pending(stack) =>
      if stack == [] || l == |lines| - 1 then Place(lines[l], |lines|, -1)
      else CloseLines(lines, l + 1, ForwardLine(lines[l + 1], 0, stack))
  }

  predicate StartsExpression(line: string, pos: nat)
    requires pos < |line|
  {
    || IsOpen(line[pos])
    || (line[pos] == '<' && (pos + 1 == |line| || (line[pos + 1] != '<' && line[pos + 1] != '=')))
  }

  function Closing(lines: seq<string>, l: nat, p: nat): Place
    requires l < |lines| && p < |lines[l]|
  {
    if StartsExpression(lines[l], p) then CloseLines(lines, l, ForwardLine(lines[l], p, []))
    else Place(lines[l], |lines|, -1)
  }

  // ----- the loops

  method PopTentative(initial: seq<char>, angle: char) returns (stack: seq<char>)
    ensures stack == DropTentative(initial, angle)
  {
    stack := initial;
    while TopIs(stack, angle)
      invariant DropTentative(initial, angle) == DropTentative(stack, angle)
      decreases |stack|
    {
      stack := Pop(stack);
    }
  }

  method FindEndOfExpressionInLine(line: string, startPos: nat, initial: seq<char>) returns (r: Scan)
    requires startPos <= |line|
    ensures r == ForwardLine(line, startPos, initial)
  {
    var stack := initial;
    for i := startPos to |line|
      invariant ForwardLine(line, startPos, initial) == ForwardLine(line, i, stack)
    {
      var c := line[i];
      if IsOpen(c) {
        stack := stack + [c];
      } else if c == '<' {
        if i > 0 && line[i - 1] == '<' {
          if TopIs(stack, '<') {
            stack := Pop(stack);
            if stack == [] {
              return Dead;
            }
          }
        } else if i > 0 && EndsWithOperator(line[..i]) {
          continue;
        } else {
          stack := stack + ['<'];
        }
      } else if IsClose(c) {
        stack := PopTentative(stack, '<');
        if stack == [] {
          return Dead;
        }
        if Matches(stack[|stack| - 1], c) {
          stack := Pop(stack);
          if stack == [] {
            return Found(i + 1);
          }
        } else {
          return Dead;
        }
      } else if c == '>' {
        if i > 0 && (line[i - 1] == '-' || EndsWithOperator(line[..i - 1])) {
          continue;
        }
        if TopIs(stack, '<') {
          stack := Pop(stack);
          if stack == [] {
            return Found(i + 1);
          }
        }
      } else if c == ';' {
        stack := PopTentative(stack, '<');
        if stack == [] {
          return Dead;
        }
      }
    }
    return Pending(stack);
  }

  // ----- erasure: over a real bracket, tentative brackets make no difference

  /** How the plain reading sees a bracket of the stack: turned around when the scanner reads backward. */
  function Facing(c: char, angle: char): char {
    if angle == '<' then c else Flip(c)
  }

  /** Without its tentative brackets the stack is the one of the plain three-bracket reading. */
  predicate Agree(stack: seq<char>, plain: seq<char>, angle: char) {
    if stack == [] then plain == []
    else if TopIs(stack, angle) then Agree(Pop(stack), plain, angle)
    else
      && plain != [] && plain[|plain| - 1] == Facing(stack[|stack| - 1], angle)
      && Agree(Pop(stack), Pop(plain), angle)
  }

  /** The same, with a real bracket at the bottom. */
  predicate Over(stack: seq<char>, plain: seq<char>, angle: char) {
    stack != [] && stack[0] != angle && Agree(stack, plain, angle)
  }

  lemma PopSnoc(stack: seq<char>, c: char)
    ensures Pop(stack + [c]) == stack
  {}

  lemma OverDropped(stack: seq<char>, plain: seq<char>, angle: char)
    requires Over(stack, plain, angle)
    ensures plain != []
    ensures Over(DropTentative(stack, angle), plain, angle) && !TopIs(DropTentative(stack, angle), angle)
    decreases |stack|
  {
    if TopIs(stack, angle) {
      OverDropped(Pop(stack), plain, angle);
    }
  }

  /** The scanner, k characters into s, with stack: a real bracket has been open ever since the first
      character, and up to tentative brackets the stack is that of the plain reading. */
  ghost predicate Live(s: string, k: nat, stack: seq<char>, angle: char) {
    && 0 < k <= |s| && Unclosed(s, k)
    && Feed(s[..k]).Some? && Over(stack, Feed(s[..k]).value, angle)
  }

  /** A closing bracket that does not fit came before any return. */
  ghost predicate Doomed(s: string) {
    exists k :: 0 < k <= |s| && Unclosed(s, k - 1) && Feed(s[..k]) == None
  }

  lemma FeedNext(s: string, k: nat)
    requires k < |s|
    ensures Feed(s[..k + 1]) == match Feed(s[..k]) { case None => None case Some(stack) => Push(stack, s[k]) }
  {
    assert s[..k + 1] == s[..k] + [s[k]];
    FeedSnoc(s[..k], s[k]);
  }

  lemma OpenErases(stack: seq<char>, c: char, angle: char, s: string, k: nat)
    requires Live(s, k, stack, angle) && k < |s| && s[k] == Facing(c, angle) && IsOpen(s[k]) && c != angle
    ensures Live(s, k + 1, stack + [c], angle)
  {
    FeedNext(s, k);
    PopSnoc(stack, c);
    PopSnoc(Feed(s[..k]).value, s[k]);
  }

  lemma CloseErases(stack: seq<char>, angle: char, s: string, k: nat)
    requires Live(s, k, stack, angle) && k < |s| && IsClose(s[k])
    ensures var rest := DropTentative(stack, angle);
      && rest != []
      && if !Matches(Facing(rest[|rest| - 1], angle), s[k]) then Doomed(s)
         else if |rest| == 1 then FirstReturn(s, k + 1)
         else Live(s, k + 1, Pop(rest), angle)
  {
    FeedNext(s, k);
    var rest, plain := DropTentative(stack, angle), Feed(s[..k]).value;
    OverDropped(stack, plain, angle);
    assert plain[|plain| - 1] == Facing(rest[|rest| - 1], angle) && Agree(Pop(rest), Pop(plain), angle);
    if !Matches(plain[|plain| - 1], s[k]) {
      assert Unclosed(s, k + 1 - 1) && Feed(s[..k + 1]) == None;
    } else if |rest| > 1 {
      OverDropped(Pop(rest), Pop(plain), angle);
    }
  }

  /** A character that is no bracket changes at most the tentative entries of the stack. */
  lemma NeutralErases(next: seq<char>, angle: char, s: string, k: nat)
    requires 0 < k < |s| && Unclosed(s, k) && !IsOpen(s[k]) && !IsClose(s[k])
    requires Feed(s[..k]).Some? && Over(next, Feed(s[..k]).value, angle)
    ensures Live(s, k + 1, next, angle)
  {
    FeedNext(s, k);
    OverDropped(next, Feed(s[..k]).value, angle);
  }

  /** Over a real bracket, no other character ends the scan. */
  lemma NeutralStep(line: string, i: nat, stack: seq<char>, plain: seq<char>)
    requires i < |line| && !IsOpen(line[i]) && !IsClose(line[i]) && Over(stack, plain, '<')
    ensures var step := ForwardStep(line, i, stack); step.Pending? && Over(step.stack, plain, '<')
  {
    PopSnoc(stack, '<');
    OverDropped(stack, plain, '<');
  }

  /** One step of the scanner is, up to tentative brackets, one step of the plain reading. */
  lemma StepErases(line: string, i: nat, stack: seq<char>, s: string, k: nat)
    requires i < |line| && Live(s, k, stack, '<') && k < |s| && s[k] == line[i]
    ensures match ForwardStep(line, i, stack)
      case Pending(next) => Live(s, k + 1, next, '<')
      case Found(end) => end == i + 1 && FirstReturn(s, k + 1)
      case Dead => Doomed(s)
  {
    if IsOpen(line[i]) {
      OpenErases(stack, line[i], '<', s, k);
    } else if IsClose(line[i]) {
      CloseErases(stack, '<', s, k);
    } else {
      NeutralStep(line, i, stack, Feed(s[..k]).value);
      NeutralErases(ForwardStep(line, i, stack).stack, '<', s, k);
    }
  }

  /** The outcome of scanning up to the end of a line that lies `end` characters into s, `size` characters
      of the line having been counted from its start. */
  ghost predicate LineJudged(s: string, end: nat, size: nat, scan: Scan) {
    match scan
    case Pending(stack) => Live(s, end, stack, '<')
    case Found(pos) => pos <= size && size - pos < end <= |s| && FirstReturn(s, end - (size - pos))
    case Dead => Doomed(s)
  }

  lemma {:induction false} LineErases(line: string, i: nat, stack: seq<char>, s: string, k: nat, end: nat)
    requires i <= |line| && Live(s, k, stack, '<') && k + (|line| - i) == end <= |s|
    requires line[i..] == s[k..end]
    ensures LineJudged(s, end, |line|, ForwardLine(line, i, stack))
    decreases |line| - i
  {
    if i < |line| {
      assert line[i] == line[i..][0] == s[k..end][0] == s[k];
      StepErases(line, i, stack, s, k);
      var step := ForwardStep(line, i, stack);
      if step.Pending? {
        assert line[i + 1..] == line[i..][1..] == s[k..end][1..] == s[k + 1..end];
        LineErases(line, i + 1, step.stack, s, k + 1, end);
      }
    }
  }

  // ----- whole files

  function Tail(lines: seq<string>, l: nat, p: nat): string
    requires l < |lines| && p < |lines[l]|
  {
    CharAt(lines, l, p);
    Text(lines)[Base(lines, l) + p..]
  }

  /** No prefix of s is a bracketed expression. */
  ghost predicate NothingEnclosed(s: string) {
    forall k :: 0 <= k <= |s| ==> !Enclosed(s[..k])
  }

  /** r is the end of the bracketed expression that starts at p on line l of the text; or it says that no
      bracketed expression starts there. */
  ghost predicate ClosesOrNot(lines: seq<string>, l: nat, p: nat, r: Place)
    requires l < |lines| && p < |lines[l]|
  {
    var s, g := Tail(lines, l, p), Base(lines, l) + p;
    if r.pos == -1 then
      r.linenum == |lines| && NothingEnclosed(s)
    else
      && r.linenum < |lines| && r.line == lines[r.linenum] && 0 < r.pos <= |r.line|
      && g < Base(lines, r.linenum) + r.pos <= g + |s|
      && Enclosed(s[..Base(lines, r.linenum) + r.pos - g])
  }

  /** The outcome of scanning up to the end of line l, judged on the text s that starts at offset g. */
  ghost predicate Judged(lines: seq<string>, g: nat, s: string, l: nat, scan: Scan)
    requires l < |lines|
  {
    match scan
    case Pending(stack) => Base(lines, l + 1) >= g && Live(s, Base(lines, l + 1) - g, stack, '<')
    case Found(end) =>
      0 < end <= |lines[l]| && g < Base(lines, l) + end <= g + |s| && FirstReturn(s, Base(lines, l) + end - g)
    case Dead => Doomed(s)
  }

  /** A place found returns to the empty stack on the text. */
  ghost predicate ClosesWithin(lines: seq<string>, g: nat, s: string, r: Place) {
    if r.pos == -1 then r.linenum == |lines| && NothingEnclosed(s)
    else
      && r.linenum < |lines| && r.line == lines[r.linenum] && 0 < r.pos <= |r.line|
      && g < Base(lines, r.linenum) + r.pos <= g + |s|
      && FirstReturn(s, Base(lines, r.linenum) + r.pos - g)
  }

  lemma NextLineErases(lines: seq<string>, g: nat, l: nat, stack: seq<char>)
    requires l < |lines| && g <= Base(lines, l) && g <= |Text(lines)|
    requires Live(Text(lines)[g..], Base(lines, l) - g, stack, '<')
    ensures Judged(lines, g, Text(lines)[g..], l, ForwardLine(lines[l], 0, stack))
  {
    var s, line, k := Text(lines)[g..], lines[l], Base(lines, l) - g;
    BaseStep(lines, l);
    assert line[0..] == line == s[k..k + |line|];
    LineErases(line, 0, stack, s, k, k + |line|);
  }

  lemma MismatchExcludesReturn(s: string, m: nat, k: nat)
    requires 0 < m <= |s| && Unclosed(s, m - 1) && Feed(s[..m]) == None
    requires 0 < k <= |s|
    ensures Feed(s[..k]) != Some([])
  {
    if k >= m {
      assert s[..k][..m] == s[..m];
      FailureLasts(s[..k], m);
    }
  }

  lemma NeverReturns(s: string)
    requires Doomed(s) || Unclosed(s, |s|)
    ensures NothingEnclosed(s)
  {
    forall k | 0 <= k <= |s|
      ensures !Enclosed(s[..k])
    {
      if Enclosed(s[..k]) {
        EnclosedReturns(s, k);
        if Doomed(s) {
          var m :| 0 < m <= |s| && Unclosed(s, m - 1) && Feed(s[..m]) == None;
          MismatchExcludesReturn(s, m, k);
        }
        assert false;
      }
    }
  }

  lemma {:induction false} LinesErase(lines: seq<string>, g: nat, l: nat, scan: Scan)
    requires l < |lines| && g <= |Text(lines)| && Judged(lines, g, Text(lines)[g..], l, scan)
    ensures ClosesWithin(lines, g, Text(lines)[g..], CloseLines(lines, l, scan))
    decreases |lines| - l
  {
    BaseEnd(lines);
    if scan.Pending? && l < |lines| - 1 {
      NextLineErases(lines, g, l + 1, scan.stack);
      LinesErase(lines, g, l + 1, ForwardLine(lines[l + 1], 0, scan.stack));
    } else if !scan.Found? {
      NeverReturns(Text(lines)[g..]);
    }
  }

  /** What the scan found is what the grammar demands. */
  lemma ClosesWithinCloses(lines: seq<string>, l: nat, p: nat, r: Place)
    requires l < |lines| && p < |lines[l]| && IsOpen(lines[l][p])
    requires ClosesWithin(lines, Base(lines, l) + p, Tail(lines, l, p), r)
    ensures ClosesOrNot(lines, l, p, r)
  {
    CharAt(lines, l, p);
    if r.pos != -1 {
      EnclosedIffFirstReturn(Tail(lines, l, p), Base(lines, r.linenum) + r.pos - (Base(lines, l) + p));
    }
  }

  lemma TailStarts(lines: seq<string>, l: nat, p: nat)
    requires l < |lines| && p < |lines[l]|
    ensures var line, s := lines[l], Tail(lines, l, p);
      |s| >= |line| - p && s[0] == line[p] && s[1..|line| - p] == line[p + 1..]
  {
    BaseStep(lines, l);
    assert Tail(lines, l, p)[..|lines[l]| - p] == lines[l][p..];
    assert lines[l][p..][1..] == lines[l][p + 1..];
  }

  lemma FirstUnclosed(s: string)
    requires s != "" && IsOpen(s[0])
    ensures Unclosed(s, 1) && Feed(s[..1]) == Some([s[0]])
  {
    FirstOpen(s);
  }

  lemma OneOver(c: char, angle: char)
    requires c != angle
    ensures Over([c], [Facing(c, angle)], angle)
  {
    var f := Facing(c, angle);
    assert Pop([c]) == [] && Pop([f]) == [];
  }

  lemma FirstBracket(s: string, c: char, angle: char)
    requires s != "" && IsOpen(s[0]) && s[0] == Facing(c, angle) && c != angle
    ensures Live(s, 1, [c], angle)
  {
    FirstUnclosed(s);
    OneOver(c, angle);
  }

  lemma FirstStep(line: string, p: nat)
    requires p < |line| && IsOpen(line[p])
    ensures ForwardLine(line, p, []) == ForwardLine(line, p + 1, [line[p]])
  {
    assert [] + [line[p]] == [line[p]];
    assert ForwardStep(line, p, []) == Pending([line[p]]);
  }

  lemma FirstLineErases(lines: seq<string>, l: nat, p: nat)
    requires l < |lines| && p < |lines[l]| && IsOpen(lines[l][p])
    ensures Judged(lines, Base(lines, l) + p, Tail(lines, l, p), l, ForwardLine(lines[l], p, []))
  {
    var line, s := lines[l], Tail(lines, l, p);
    BaseStep(lines, l);
    TailStarts(lines, l, p);
    FirstBracket(s, line[p], '<');
    FirstStep(line, p);
    LineErases(line, p + 1, [line[p]], s, 1, |line| - p);
  }

  /** Soundness and completeness: from '(', '[' or '{', CloseExpression answers exactly with the end of the
      bracketed expression starting there in the text, and with "none" exactly when there is none. */
  lemma ClosingIsSoundAndComplete(lines: seq<string>, l: nat, p: nat)
    requires l < |lines| && p < |lines[l]| && IsOpen(lines[l][p])
    ensures ClosesOrNot(lines, l, p, Closing(lines, l, p))
  {
    CharAt(lines, l, p);
    FirstLineErases(lines, l, p);
    LinesErase(lines, Base(lines, l) + p, l, ForwardLine(lines[l], p, []));
    ClosesWithinCloses(lines, l, p, Closing(lines, l, p));
  }

  method CloseExpression(lines: seq<string>, startLine: nat, pos: nat) returns (r: Place)
    requires startLine < |lines| && pos < |lines[startLine]|
    ensures r == Closing(lines, startLine, pos)
    ensures IsOpen(lines[startLine][pos]) ==> ClosesOrNot(lines, startLine, pos, r)
  {
    if IsOpen(lines[startLine][pos]) {
      ClosingIsSoundAndComplete(lines, startLine, pos);
    }
    var linenum := startLine;
    var line := lines[linenum];
    if !StartsExpression(line, pos) {
      return Place(line, |lines|, -1);
    }
    var scan := FindEndOfExpressionInLine(line, pos, []);
    if scan.Found? {
      return Place(line, linenum, scan.pos);
    }
    while scan.Pending? && scan.stack != [] && linenum < |lines| - 1
      invariant linenum < |lines| && line == lines[linenum] && !scan.Found?
      invariant Closing(lines, startLine, pos) == CloseLines(lines, linenum, scan)
      decreases |lines| - linenum
    {
      linenum := linenum + 1;
      line := lines[linenum];
      scan := FindEndOfExpressionInLine(line, 0, scan.stack);
      if scan.Found? {
        return Place(line, linenum, scan.pos);
      }
    }
    return Place(line, |lines|, -1);
  }

  /** Where the closing position lies in the text, if there is one. */
  function ClosingOffset(lines: seq<string>, l: nat, p: nat): Option<nat>
    requires l < |lines| && p < |lines[l]| && IsOpen(lines[l][p])
  {
    ClosingIsSoundAndComplete(lines, l, p);
    var r := Closing(lines, l, p);
    if r.pos == -1 then None else Some(Base(lines, r.linenum) + r.pos)
  }

  /** The answer is determined by the text from the bracket on: it is the only possible one. */
  lemma ClosingOffsetIsTheEnd(lines: seq<string>, l: nat, p: nat, end: nat)
    requires l < |lines| && p < |lines[l]| && IsOpen(lines[l][p])
    ensures ClosingOffset(lines, l, p) == Some(end) <==>
            Base(lines, l) + p <= end <= |Text(lines)| && Enclosed(Text(lines)[Base(lines, l) + p..end])
  {
    ClosingIsSoundAndComplete(lines, l, p);
    var g, s := Base(lines, l) + p, Tail(lines, l, p);
    var r := Closing(lines, l, p);
    CharAt(lines, l, p);
    if g <= end <= |Text(lines)| {
      assert Text(lines)[g..end] == s[..end - g];
      if r.pos != -1 && Enclosed(s[..end - g]) {
        EnclosedPrefixUnique(s, end - g, Base(lines, r.linenum) + r.pos - g);
      }
    }
  }

  lemma SameOffset(a: seq<string>, la: nat, pa: nat, b: seq<string>, lb: nat, pb: nat, end: nat)
    requires la < |a| && pa < |a[la]| && lb < |b| && pb < |b[lb]|
    requires Text(a) == Text(b) && Base(a, la) + pa == Base(b, lb) + pb && IsOpen(a[la][pa]) && IsOpen(b[lb][pb])
    requires ClosingOffset(a, la, pa) == Some(end)
    ensures ClosingOffset(b, lb, pb) == Some(end)
  {
    ClosingOffsetIsTheEnd(a, la, pa, end);
    ClosingOffsetIsTheEnd(b, lb, pb, end);
  }

  /** Where the line breaks fall cannot change the answer. */
  lemma LineBreaksDoNotMatter(a: seq<string>, la: nat, pa: nat, b: seq<string>, lb: nat, pb: nat)
    requires la < |a| && pa < |a[la]| && lb < |b| && pb < |b[lb]|
    requires Text(a) == Text(b) && Base(a, la) + pa == Base(b, lb) + pb && IsOpen(a[la][pa])
    ensures a[la][pa] == b[lb][pb] && ClosingOffset(a, la, pa) == ClosingOffset(b, lb, pb)
  {
    CharAt(a, la, pa);
    CharAt(b, lb, pb);
    var x, y := ClosingOffset(a, la, pa), ClosingOffset(b, lb, pb);
    if x.Some? {
      SameOffset(a, la, pa, b, lb, pb, x.value);
    } else if y.Some? {
      SameOffset(b, lb, pb, a, la, pa, y.value);
    }
  }
}
