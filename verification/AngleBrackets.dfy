/** cpplint's matchers where '<' and '>' are brackets, as in template argument lists: they find the partner of
    every bracket of a text over four kinds of brackets, the angle brackets included. */
module AngleBrackets {
  import opened Chars
  import opened Brackets
  import opened LineText
  import opened ForwardScan
  import opened ReverseScan

  predicate IsOpenOrLess(c: char) {
    IsOpen(c) || c == '<'
  }

  predicate IsCloseOrGreater(c: char) {
    IsClose(c) || c == '>'
  }

  predicate Pairs(open: char, close: char) {
    Matches(open, close) || (open == '<' && close == '>')
  }

  /** Text over four kinds of brackets, with single and double characters that count for nothing. */
  datatype Phrase =
    | Nothing
    | Plain(c: char)
    | Ignored(c: char)
    | Jumped(a: char, b: char)
    | Both(left: Phrase, right: Phrase)
    | Wrapped(open: char, inner: Phrase, close: char)
  {
    function Word(): string {
      match this
      case Nothing => ""
      case Plain(c) => [c]
      case Ignored(c) => [c]
      case Jumped(a, b) => [a, b]
      case Both(left, right) => left.Word() + right.Word()
      case Wrapped(open, inner, close) => [open] + inner.Word() + [close]
    }
  }

  /** No bracket of any kind and no semicolon. */
  predicate Inert(c: char) {
    !IsOpenOrLess(c) && !IsCloseOrGreater(c) && c != ';'
  }

  /** The text has the word at offset g. */
  predicate Stands(lines: seq<string>, g: nat, word: string) {
    g + |word| <= |Text(lines)| && forall k :: 0 <= k < |word| ==> Text(lines)[g + k] == word[k]
  }

  lemma StandsParts(lines: seq<string>, g: nat, a: string, b: string)
    requires Stands(lines, g, a + b)
    ensures Stands(lines, g, a) && Stands(lines, g + |a|, b)
  {
    forall k | 0 <= k < |a|
      ensures Text(lines)[g + k] == a[k]
    {
      assert (a + b)[k] == a[k];
    }
    forall k | 0 <= k < |b|
      ensures Text(lines)[g + |a| + k] == b[k]
    {
      assert (a + b)[|a| + k] == b[k];
    }
  }

  lemma StandsChar(lines: seq<string>, g: nat, word: string, k: nat)
    requires Stands(lines, g, word) && k < |word|
    ensures g + k < |Text(lines)| && Text(lines)[g + k] == word[k]
  {}

  /** Every character of the text lies on some line. */
  lemma {:induction false} PlaceOf(lines: seq<string>, g: nat, l: nat) returns (m: nat, i: nat)
    requires l <= |lines| && Base(lines, l) <= g < |Text(lines)|
    ensures l <= m < |lines| && i < |lines[m]| && Base(lines, m) + i == g
    decreases |lines| - l
  {
    BaseEnd(lines);
    BaseStep(lines, l);
    if g < Base(lines, l + 1) {
      m, i := l, g - Base(lines, l);
    } else {
      m, i := PlaceOf(lines, g, l + 1);
    }
  }

  // ----- forward

  /** '>' in "->", and '<' and '>' behind `operator`, as far as that is looked at. */
  predicate IgnoredAt(line: string, i: nat)
    requires i < |line|
  {
    || (line[i] == '<' && i > 0 && line[i - 1] != '<' && EndsWithOperator(line[..i]))
    || (line[i] == '>' && i > 0 && (line[i - 1] == '-' || EndsWithOperator(line[..i - 1])))
  }

  predicate ShiftEndsAt(line: string, i: nat)
    requires i < |line|
  {
    line[i] == '<' && i > 0 && line[i - 1] == '<'
  }

  /** A bracket of any kind: a '<' or '>' is none where it is ignored or ends a "<<". */
  predicate BracketAt(line: string, i: nat)
    requires i < |line|
  {
    (IsOpenOrLess(line[i]) || IsCloseOrGreater(line[i])) && !IgnoredAt(line, i) && !ShiftEndsAt(line, i)
  }

  ghost predicate IgnoredIn(lines: seq<string>, g: nat) {
    forall l, i :: 0 <= l < |lines| && 0 <= i < |lines[l]| && Base(lines, l) + i == g ==> IgnoredAt(lines[l], i)
  }

  ghost predicate ShiftEndsIn(lines: seq<string>, g: nat) {
    forall l, i :: 0 <= l < |lines| && 0 <= i < |lines[l]| && Base(lines, l) + i == g ==> ShiftEndsAt(lines[l], i)
  }

  ghost predicate BracketIn(lines: seq<string>, g: nat) {
    forall l, i :: 0 <= l < |lines| && 0 <= i < |lines[l]| && Base(lines, l) + i == g ==> BracketAt(lines[l], i)
  }

  /** The phrase reads the text at offset g as the forward scan does; "<<" is what it takes together. */
  ghost predicate Reads(lines: seq<string>, g: nat, t: Phrase)
    decreases t
  {
    match t
    case Nothing => true
    case Plain(c) => Inert(c)
    case Ignored(c) => IgnoredIn(lines, g)
    case Jumped(a, b) => a == '<' && b == '<' && BracketIn(lines, g) && ShiftEndsIn(lines, g + 1)
    case Both(left, right) => Reads(lines, g, left) && Reads(lines, g + |left.Word()|, right)
    case Wrapped(open, inner, close) =>
      && Pairs(open, close) && BracketIn(lines, g) && Reads(lines, g + 1, inner)
      && BracketIn(lines, g + 1 + |inner.Word()|)
  }

  /** Position i of line l, possibly its end, lies at offset g. */
  predicate At(lines: seq<string>, l: nat, i: nat, g: nat) {
    l < |lines| && i <= |lines[l]| && Base(lines, l) + i == g
  }

  /** The answer of the scan going on at position i of line l. */
  function From(lines: seq<string>, l: nat, i: nat, stack: seq<char>): Place
    requires l < |lines| && i <= |lines[l]|
  {
    CloseLines(lines, l, ForwardLine(lines[l], i, stack))
  }

  /** The end of a line and the beginning of the next one are the same place. */
  lemma {:induction false} FromSamePlace(lines: seq<string>, l: nat, i: nat, m: nat, j: nat, stack: seq<char>)
    requires l <= m < |lines| && i <= |lines[l]| && j <= |lines[m]| && stack != []
    requires Base(lines, l) + i == Base(lines, m) + j
    ensures From(lines, l, i, stack) == From(lines, m, j, stack)
    decreases m - l
  {
    if l < m {
      BaseStep(lines, l);
      BaseMonotone(lines, l + 1, m);
      FromSamePlace(lines, l + 1, 0, m, j, stack);
    }
  }

  /** The scan at offset g is about to read the character there. */
  lemma Arrive(lines: seq<string>, g: nat, l: nat, i: nat, stack: seq<char>) returns (m: nat, k: nat)
    requires At(lines, l, i, g) && g < |Text(lines)| && stack != []
    ensures l <= m < |lines| && k < |lines[m]| && Base(lines, m) + k == g && lines[m][k] == Text(lines)[g]
    ensures From(lines, l, i, stack) == From(lines, m, k, stack)
  {
    m, k := PlaceOf(lines, g, l);
    CharAt(lines, m, k);
    FromSamePlace(lines, l, i, m, k, stack);
  }

  lemma NeutralAt(lines: seq<string>, g: nat, l: nat, i: nat, stack: seq<char>) returns (m: nat, j: nat)
    requires At(lines, l, i, g) && g < |Text(lines)| && stack != []
    requires Inert(Text(lines)[g]) || IgnoredIn(lines, g)
    ensures l <= m && At(lines, m, j, g + 1)
    ensures From(lines, l, i, stack) == From(lines, m, j, stack)
  {
    m, j := Arrive(lines, g, l, i, stack);
    assert Inert(lines[m][j]) || IgnoredAt(lines[m], j);
    j := j + 1;
  }

  lemma OpenAt(lines: seq<string>, g: nat, l: nat, i: nat, stack: seq<char>) returns (m: nat, j: nat)
    requires At(lines, l, i, g) && g < |Text(lines)| && stack != []
    requires BracketIn(lines, g) && IsOpenOrLess(Text(lines)[g])
    ensures l <= m && At(lines, m, j, g + 1)
    ensures From(lines, l, i, stack) == From(lines, m, j, stack + [Text(lines)[g]])
  {
    m, j := Arrive(lines, g, l, i, stack);
    assert BracketAt(lines[m], j);
    j := j + 1;
  }

  lemma CloseAt(lines: seq<string>, g: nat, l: nat, i: nat, stack: seq<char>, open: char) returns (m: nat, j: nat)
    requires At(lines, l, i, g) && g < |Text(lines)| && stack != []
    requires (BracketIn(lines, g) && Pairs(open, Text(lines)[g])) || (ShiftEndsIn(lines, g) && open == '<')
    ensures l <= m && At(lines, m, j, g + 1)
    ensures From(lines, l, i, stack + [open]) == From(lines, m, j, stack)
  {
    PopSnoc(stack, open);
    m, j := Arrive(lines, g, l, i, stack + [open]);
    assert BracketAt(lines[m], j) || ShiftEndsAt(lines[m], j);
    assert ForwardStep(lines[m], j, stack + [open]) == Pending(stack);
    j := j + 1;
  }

  lemma StandsWrapped(lines: seq<string>, g: nat, open: char, word: string, close: char)
    requires Stands(lines, g, [open] + word + [close])
    ensures Stands(lines, g + 1, word) && g + 1 + |word| < |Text(lines)|
    ensures Text(lines)[g] == open && Text(lines)[g + 1 + |word|] == close
  {
    StandsParts(lines, g, [open] + word, [close]);
    StandsParts(lines, g, [open], word);
    StandsChar(lines, g, [open], 0);
    StandsChar(lines, g + |[open] + word|, [close], 0);
  }

  lemma ShiftAt(lines: seq<string>, g: nat, l: nat, i: nat, stack: seq<char>) returns (m: nat, j: nat)
    requires At(lines, l, i, g) && stack != []
    requires Stands(lines, g, "<<") && BracketIn(lines, g) && ShiftEndsIn(lines, g + 1)
    ensures l <= m && At(lines, m, j, g + 2)
    ensures From(lines, l, i, stack) == From(lines, m, j, stack)
  {
    StandsChar(lines, g, "<<", 0);
    StandsChar(lines, g, "<<", 1);
    m, j := OpenAt(lines, g, l, i, stack);
    m, j := CloseAt(lines, g + 1, m, j, stack, '<');
  }

  lemma LeafScanned(lines: seq<string>, g: nat, t: Phrase, l: nat, i: nat, stack: seq<char>)
      returns (m: nat, j: nat)
    requires Stands(lines, g, t.Word()) && Reads(lines, g, t) && stack != [] && !t.Both? && !t.Wrapped?
    requires At(lines, l, i, g)
    ensures l <= m && At(lines, m, j, g + |t.Word()|)
    ensures From(lines, l, i, stack) == From(lines, m, j, stack)
  {
    match t
    case Nothing =>
      m, j := l, i;
    case Plain(c) =>
      StandsChar(lines, g, [c], 0);
      m, j := NeutralAt(lines, g, l, i, stack);
    case Ignored(c) =>
      m, j := NeutralAt(lines, g, l, i, stack);
    case Jumped(a, b) =>
      m, j := ShiftAt(lines, g, l, i, stack);
  }

  /** Over a phrase, the scan comes back to the stack it started with. */
  lemma {:induction false} WordScanned(lines: seq<string>, g: nat, t: Phrase, l: nat, i: nat, stack: seq<char>)
      returns (m: nat, j: nat)
    requires Stands(lines, g, t.Word()) && Reads(lines, g, t) && stack != []
    requires At(lines, l, i, g)
    ensures l <= m && At(lines, m, j, g + |t.Word()|)
    ensures From(lines, l, i, stack) == From(lines, m, j, stack)
    decreases t
  {
    match t
    case Both(left, right) =>
      StandsParts(lines, g, left.Word(), right.Word());
      m, j := WordScanned(lines, g, left, l, i, stack);
      m, j := WordScanned(lines, g + |left.Word()|, right, m, j, stack);
    case Wrapped(open, inner, close) =>
      StandsWrapped(lines, g, open, inner.Word(), close);
      m, j := OpenAt(lines, g, l, i, stack);
      m, j := WordScanned(lines, g + 1, inner, m, j, stack + [open]);
      m, j := CloseAt(lines, g + 1 + |inner.Word()|, m, j, stack, open);
    case _ =>
      m, j := LeafScanned(lines, g, t, l, i, stack);
  }

  /** Between position p of line l and position q of line m stands the phrase. */
  ghost predicate Between(lines: seq<string>, l: nat, p: nat, m: nat, q: nat, t: Phrase)
    requires l < |lines| && p < |lines[l]| && m < |lines| && q < |lines[m]|
  {
    && Base(lines, m) + q == Base(lines, l) + p + 1 + |t.Word()|
    && Stands(lines, Base(lines, l) + p + 1, t.Word())
  }

  lemma FirstStepForward(line: string, p: nat)
    requires p < |line| && BracketAt(line, p) && IsOpenOrLess(line[p])
    ensures ForwardLine(line, p, []) == ForwardLine(line, p + 1, [line[p]])
  {
    assert [] + [line[p]] == [line[p]];
    assert ForwardStep(line, p, []) == Pending([line[p]]);
  }

  /** The end of an earlier line may be the place of a character, not the other way round. */
  lemma SamePlaces(lines: seq<string>, n: nat, j: nat, m: nat, q: nat)
    requires n < |lines| && j <= |lines[n]| && m < |lines| && q < |lines[m]|
    requires Base(lines, n) + j == Base(lines, m) + q
    ensures n <= m
  {
    if m < n {
      BaseStep(lines, m);
      BaseMonotone(lines, m + 1, n);
    }
  }

  /** "<<" or "<=" */
  predicate StartsOperator(line: string, p: nat)
    requires p < |line|
  {
    line[p] == '<' && p + 1 < |line| && (line[p + 1] == '<' || line[p + 1] == '=')
  }

  /** From any of the four opening brackets of such an expression, CloseExpression finds its end. */
  lemma FindsAngleEnd(lines: seq<string>, l: nat, p: nat, m: nat, q: nat, t: Phrase)
    requires l < |lines| && p < |lines[l]| && m < |lines| && q < |lines[m]| && Between(lines, l, p, m, q, t)
    requires Reads(lines, Base(lines, l) + p + 1, t) && Pairs(lines[l][p], lines[m][q])
    requires BracketAt(lines[l], p) && BracketAt(lines[m], q) && !StartsOperator(lines[l], p)
    ensures Closing(lines, l, p) == Place(lines[m], m, q + 1)
  {
    var open := lines[l][p];
    FirstStepForward(lines[l], p);
    var n, j := WordScanned(lines, Base(lines, l) + p + 1, t, l, p + 1, [open]);
    CharAt(lines, m, q);
    SamePlaces(lines, n, j, m, q);
    FromSamePlace(lines, n, j, m, q, [open]);
    assert open != '<' ==> DropTentative([open], '<') == [open];
    assert ForwardStep(lines[m], q, [open]) == Found(q + 1);
  }

  /** From anything but the four opening brackets, and from "<<" and "<=", CloseExpression finds nothing; from
      anything but the four closing ones, neither does ReverseCloseExpression. */
  lemma NothingToMatch(lines: seq<string>, l: nat, p: nat)
    requires l < |lines| && p < |lines[l]|
    ensures !IsOpenOrLess(lines[l][p]) || StartsOperator(lines[l], p) ==>
            Closing(lines, l, p) == Place(lines[l], |lines|, -1)
    ensures !IsCloseOrGreater(lines[l][p]) ==> Opening(lines, l, p) == Place(lines[l], 0, -1)
  {}

  lemma DeadStep(line: string, i: nat)
    requires i < |line| && (line[i] == ';' || IsClose(line[i]))
    ensures ForwardStep(line, i, ['<']) == Dead
  {
    assert Pop(['<']) == [];
  }

  /** A '<' is no bracket if, behind a word, a semicolon or the end of something larger comes. */
  lemma NoAngleEnd(lines: seq<string>, l: nat, p: nat, m: nat, q: nat, t: Phrase)
    requires l < |lines| && p < |lines[l]| && m < |lines| && q < |lines[m]|
    requires lines[l][p] == '<' && !StartsOperator(lines[l], p) && (lines[m][q] == ';' || IsClose(lines[m][q]))
    requires Between(lines, l, p, m, q, t) && Reads(lines, Base(lines, l) + p + 1, t) && BracketAt(lines[l], p)
    ensures Closing(lines, l, p) == Place(lines[m], |lines|, -1)
  {
    FirstStepForward(lines[l], p);
    var n, j := WordScanned(lines, Base(lines, l) + p + 1, t, l, p + 1, ['<']);
    CharAt(lines, m, q);
    SamePlaces(lines, n, j, m, q);
    FromSamePlace(lines, n, j, m, q, ['<']);
    DeadStep(lines[m], q);
  }

  // ----- backward

  /** '>' in "->", behind `operator`, or in " >= " with blanks around; the second '<' of "<<". */
  predicate JumpAt(line: string, i: nat)
    requires i < |line|
  {
    && i > 0
    && ( || (line[i] == '<' && line[i - 1] == '<')
         || (line[i] == '>' && line[i - 1] == '-')
         || (line[i] == '>' && EndsWithOperator(line[..i]))
         || (line[i] == '>' && IsSpace(line[i - 1]) && i + 2 < |line| && line[i + 1] == '=' && IsSpace(line[i + 2])))
  }

  lemma JumpIff(line: string, i: nat)
    requires i < |line|
    ensures JumpAt(line, i) <==> Skips(line, i)
  {}

  ghost predicate JumpsIn(lines: seq<string>, g: nat, jumps: bool) {
    forall l, i :: 0 <= l < |lines| && 0 <= i < |lines[l]| && Base(lines, l) + i == g ==> JumpAt(lines[l], i) == jumps
  }

  /** The phrase reads the text at offset g as the backward scan does: "->", " >=", "operator>" and "<<" are
      jumped over together with the character on the left; every other '<' and '>' is a bracket. */
  ghost predicate ReadsBack(lines: seq<string>, g: nat, t: Phrase)
    decreases t
  {
    match t
    case Nothing => true
    case Plain(c) => Inert(c)
    case Ignored(_) => false
    case Jumped(_, _) => JumpsIn(lines, g + 1, true)
    case Both(left, right) => ReadsBack(lines, g, left) && ReadsBack(lines, g + |left.Word()|, right)
    case Wrapped(open, inner, close) =>
      && Pairs(open, close) && JumpsIn(lines, g, false) && ReadsBack(lines, g + 1, inner)
      && JumpsIn(lines, g + 1 + |inner.Word()|, false)
  }

  /** Position i of line l, possibly just before it, lies at offset g. */
  predicate AtBack(lines: seq<string>, l: nat, i: int, g: int) {
    l < |lines| && -1 <= i < |lines[l]| && Base(lines, l) + i == g
  }

  /** The answer of the backward scan going on at position i of line l. */
  function BackFrom(lines: seq<string>, l: nat, i: int, stack: seq<char>): Place
    requires l < |lines| && -1 <= i < |lines[l]|
  {
    OpenLines(lines, l, BackwardLine(lines[l], i, stack))
  }

  lemma {:induction false} BackFromSamePlace(lines: seq<string>, l: nat, i: int, m: nat, j: int, stack: seq<char>)
    requires m <= l < |lines| && -1 <= i < |lines[l]| && -1 <= j < |lines[m]| && stack != []
    requires Base(lines, l) + i == Base(lines, m) + j
    ensures BackFrom(lines, l, i, stack) == BackFrom(lines, m, j, stack)
    decreases l
  {
    if m < l {
      BaseStep(lines, m);
      BaseMonotone(lines, m + 1, l);
      BaseStep(lines, l - 1);
      BackFromSamePlace(lines, l - 1, |lines[l - 1]| - 1, m, j, stack);
    }
  }

  /** A place at or before a given one. */
  lemma PlaceBefore(lines: seq<string>, g: nat, l: nat, i: int) returns (m: nat, k: nat)
    requires AtBack(lines, l, i, g) && g < |Text(lines)|
    ensures m <= l && k < |lines[m]| && Base(lines, m) + k == g
  {
    assert Base(lines, 0) == 0;
    m, k := PlaceOf(lines, g, 0);
    if l < m {
      BaseStep(lines, l);
      BaseMonotone(lines, l + 1, m);
    }
  }

  /** The backward scan at offset g is about to read the character there. */
  lemma ArriveBack(lines: seq<string>, g: nat, l: nat, i: int, stack: seq<char>) returns (m: nat, k: nat)
    requires AtBack(lines, l, i, g) && g < |Text(lines)| && stack != []
    ensures m <= l && k < |lines[m]| && Base(lines, m) + k == g && lines[m][k] == Text(lines)[g]
    ensures BackFrom(lines, l, i, stack) == BackFrom(lines, m, k, stack)
  {
    m, k := PlaceBefore(lines, g, l, i);
    CharAt(lines, m, k);
    BackFromSamePlace(lines, l, i, m, k, stack);
  }

  lemma NeutralBackAt(lines: seq<string>, g: nat, l: nat, i: int, stack: seq<char>) returns (m: nat, j: int)
    requires AtBack(lines, l, i, g) && g < |Text(lines)| && stack != []
    requires Inert(Text(lines)[g])
    ensures m <= l && AtBack(lines, m, j, g - 1)
    ensures BackFrom(lines, l, i, stack) == BackFrom(lines, m, j, stack)
  {
    m, j := ArriveBack(lines, g, l, i, stack);
    j := j - 1;
  }

  lemma JumpBackAt(lines: seq<string>, g: nat, l: nat, i: int, stack: seq<char>) returns (m: nat, j: int)
    requires AtBack(lines, l, i, g) && g < |Text(lines)| && stack != []
    requires JumpsIn(lines, g, true)
    ensures m <= l && AtBack(lines, m, j, g - 2)
    ensures BackFrom(lines, l, i, stack) == BackFrom(lines, m, j, stack)
  {
    m, j := ArriveBack(lines, g, l, i, stack);
    assert JumpAt(lines[m], j);
    JumpIff(lines[m], j);
    j := j - 2;
  }

  lemma CloseBackAt(lines: seq<string>, g: nat, l: nat, i: int, stack: seq<char>) returns (m: nat, j: int)
    requires AtBack(lines, l, i, g) && g < |Text(lines)| && stack != []
    requires JumpsIn(lines, g, false) && IsCloseOrGreater(Text(lines)[g])
    ensures m <= l && AtBack(lines, m, j, g - 1)
    ensures BackFrom(lines, l, i, stack) == BackFrom(lines, m, j, stack + [Text(lines)[g]])
  {
    m, j := ArriveBack(lines, g, l, i, stack);
    assert !JumpAt(lines[m], j);
    JumpIff(lines[m], j);
    j := j - 1;
  }

  lemma OpenBackAt(lines: seq<string>, g: nat, l: nat, i: int, stack: seq<char>, close: char) returns (m: nat, j: int)
    requires AtBack(lines, l, i, g) && g < |Text(lines)| && stack != []
    requires JumpsIn(lines, g, false) && Pairs(Text(lines)[g], close)
    ensures m <= l && AtBack(lines, m, j, g - 1)
    ensures BackFrom(lines, l, i, stack + [close]) == BackFrom(lines, m, j, stack)
  {
    PopSnoc(stack, close);
    m, j := ArriveBack(lines, g, l, i, stack + [close]);
    assert !JumpAt(lines[m], j);
    JumpIff(lines[m], j);
    assert BackwardStep(lines[m], j, stack + [close]) == Pending(stack);
    j := j - 1;
  }

  lemma LeafScannedBack(lines: seq<string>, g: nat, t: Phrase, l: nat, i: int, stack: seq<char>)
      returns (m: nat, j: int)
    requires Stands(lines, g, t.Word()) && ReadsBack(lines, g, t) && stack != [] && !t.Both? && !t.Wrapped?
    requires AtBack(lines, l, i, g + |t.Word()| - 1)
    ensures m <= l && AtBack(lines, m, j, g - 1)
    ensures BackFrom(lines, l, i, stack) == BackFrom(lines, m, j, stack)
  {
    match t
    case Nothing =>
      m, j := l, i;
    case Plain(c) =>
      StandsChar(lines, g, [c], 0);
      m, j := NeutralBackAt(lines, g, l, i, stack);
    case Jumped(a, b) =>
      m, j := JumpBackAt(lines, g + 1, l, i, stack);
  }

  lemma {:induction false} WordScannedBack(lines: seq<string>, g: nat, t: Phrase, l: nat, i: int, stack: seq<char>)
      returns (m: nat, j: int)
    requires Stands(lines, g, t.Word()) && ReadsBack(lines, g, t) && stack != []
    requires AtBack(lines, l, i, g + |t.Word()| - 1)
    ensures m <= l && AtBack(lines, m, j, g - 1)
    ensures BackFrom(lines, l, i, stack) == BackFrom(lines, m, j, stack)
    decreases t
  {
    match t
    case Both(left, right) =>
      StandsParts(lines, g, left.Word(), right.Word());
      m, j := WordScannedBack(lines, g + |left.Word()|, right, l, i, stack);
      m, j := WordScannedBack(lines, g, left, m, j, stack);
    case Wrapped(open, inner, close) =>
      StandsWrapped(lines, g, open, inner.Word(), close);
      m, j := CloseBackAt(lines, g + 1 + |inner.Word()|, l, i, stack);
      m, j := WordScannedBack(lines, g + 1, inner, m, j, stack + [close]);
      m, j := OpenBackAt(lines, g, m, j, stack, close);
    case _ =>
      m, j := LeafScannedBack(lines, g, t, l, i, stack);
  }

  lemma FirstStepBackward(line: string, q: nat)
    requires q < |line| && !JumpAt(line, q) && IsCloseOrGreater(line[q])
    ensures BackwardLine(line, q, []) == BackwardLine(line, q - 1, [line[q]])
  {
    JumpIff(line, q);
    assert [] + [line[q]] == [line[q]];
    assert BackwardStep(line, q, []) == Pending([line[q]]);
  }

  lemma SamePlacesBack(lines: seq<string>, n: nat, j: int, l: nat, p: nat)
    requires n < |lines| && -1 <= j < |lines[n]| && l < |lines| && p < |lines[l]|
    requires Base(lines, n) + j == Base(lines, l) + p
    ensures l <= n
  {
    if n < l {
      BaseStep(lines, n);
      BaseMonotone(lines, n + 1, l);
    }
  }

  /** And from any of the four closing brackets, ReverseCloseExpression finds its start. */
  lemma FindsAngleStart(lines: seq<string>, l: nat, p: nat, m: nat, q: nat, t: Phrase)
    requires l < |lines| && p < |lines[l]| && m < |lines| && q < |lines[m]| && Between(lines, l, p, m, q, t)
    requires ReadsBack(lines, Base(lines, l) + p + 1, t) && Pairs(lines[l][p], lines[m][q])
    requires !JumpAt(lines[l], p) && !JumpAt(lines[m], q)
    ensures Opening(lines, m, q) == Place(lines[l], l, p)
  {
    var close := lines[m][q];
    FirstStepBackward(lines[m], q);
    var n, j := WordScannedBack(lines, Base(lines, l) + p + 1, t, m, q - 1, [close]);
    CharAt(lines, l, p);
    SamePlacesBack(lines, n, j, l, p);
    BackFromSamePlace(lines, n, j, l, p, [close]);
    assert close != '>' ==> DropTentative([close], '>') == [close];
    JumpIff(lines[l], p);
    assert BackwardStep(lines[l], p, [close]) == Found(p);
  }

  lemma DeadStepBack(line: string, i: nat)
    requires i < |line| && (line[i] == ';' || IsOpen(line[i]))
    ensures BackwardStep(line, i, ['>']) == Dead
  {
    assert Pop(['>']) == [];
  }

  /** Back from a '>', behind a word, a semicolon or the start of something larger ends the search. */
  lemma NoAngleStart(lines: seq<string>, l: nat, p: nat, m: nat, q: nat, t: Phrase)
    requires l < |lines| && p < |lines[l]| && m < |lines| && q < |lines[m]|
    requires lines[m][q] == '>' && (lines[l][p] == ';' || IsOpen(lines[l][p]))
    requires Between(lines, l, p, m, q, t) && ReadsBack(lines, Base(lines, l) + p + 1, t) && !JumpAt(lines[m], q)
    ensures Opening(lines, m, q) == Place(lines[l], 0, -1)
  {
    FirstStepBackward(lines[m], q);
    var n, j := WordScannedBack(lines, Base(lines, l) + p + 1, t, m, q - 1, ['>']);
    CharAt(lines, l, p);
    SamePlacesBack(lines, n, j, l, p);
    BackFromSamePlace(lines, n, j, l, p, ['>']);
    DeadStepBack(lines[l], p);
  }
}
