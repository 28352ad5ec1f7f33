/** The quote-collapsing loop of cpplint's `CleansedLines._CollapseStrings`: string and character literals
    shrink to `""` and `''`, and digit separators disappear from numbers. */
module CollapseStrings {
  import opened Chars

  predicate IsQuote(c: char) {
    c == '"' || c == '\''
  }

  predicate IsHex(c: char) {
    IsDigit(c) || 'a' <= c <= 'f' || 'A' <= c <= 'F'
  }

  predicate AllHex(s: string) {
    forall k :: 0 <= k < |s| ==> IsHex(s[k])
  }

  /** `(?:0[bBxX]?|[1-9])[0-9a-fA-F]*` */
  predicate IsNumberHead(s: string) {
    s != "" &&
    if s[0] == '0' then AllHex(s[1..]) || (|s| >= 2 && s[1] in "bBxX" && AllHex(s[2..]))
    else '1' <= s[0] <= '9' && AllHex(s[1..])
  }

  predicate NumberFrom(head: string, k: nat)
    requires k < |head|
  {
    (k == 0 || !IsWord(head[k - 1])) && IsNumberHead(head[k..])
  }

  /** `\b(?:0[bBxX]?|[1-9])[0-9a-fA-F]*$`: the text ends in the beginning of a number. */
  predicate EndsInNumber(head: string) {
    exists k :: 0 <= k < |head| && NumberFrom(head, k)
  }

  /** One of the beginnings of a number, then hexadecimal digits. */
  predicate NumberSpelled(s: string, beginning: string, digits: string) {
    && s == beginning + digits
    && beginning in {"0", "0b", "0B", "0x", "0X", "1", "2", "3", "4", "5", "6", "7", "8", "9"}
    && forall k :: 0 <= k < |digits| ==> digits[k] in "0123456789abcdefABCDEF"
  }

  /** From k on, behind a word boundary, the head is such a number. */
  ghost predicate NumberAtEnd(head: string, k: nat) {
    && k <= |head| && (k == 0 || !IsWord(head[k - 1]))
    && exists beginning, digits :: NumberSpelled(head[k..], beginning, digits)
  }

  lemma HexIs(c: char)
    ensures IsHex(c) <==> c in "0123456789abcdefABCDEF"
  {
    var all := "0123456789abcdefABCDEF";
    if '0' <= c <= '9' {
      assert all[c as int - '0' as int] == c;
    } else if 'a' <= c <= 'f' {
      assert all[10 + (c as int - 'a' as int)] == c;
    } else if 'A' <= c <= 'F' {
      assert all[16 + (c as int - 'A' as int)] == c;
    }
  }

  lemma AllHexIs(s: string)
    ensures AllHex(s) <==> forall k :: 0 <= k < |s| ==> s[k] in "0123456789abcdefABCDEF"
  {
    forall k | 0 <= k < |s|
      ensures IsHex(s[k]) <==> s[k] in "0123456789abcdefABCDEF"
    {
      HexIs(s[k]);
    }
  }

  lemma NumberHeadSplits(s: string) returns (beginning: string, digits: string)
    requires IsNumberHead(s)
    ensures NumberSpelled(s, beginning, digits)
  {
    var n := if s[0] == '0' && !AllHex(s[1..]) then 2 else 1;
    beginning, digits := s[..n], s[n..];
    AllHexIs(digits);
    if n == 2 {
      assert beginning == ['0', s[1]];
    } else {
      assert beginning == [s[0]];
    }
  }

  lemma InMarks(c: char)
    ensures c in "bBxX" <==> c == 'b' || c == 'B' || c == 'x' || c == 'X'
  {
    var marks := "bBxX";
    assert marks[0] == 'b' && marks[1] == 'B' && marks[2] == 'x' && marks[3] == 'X';
  }

  lemma NumberHeadJoins(s: string, beginning: string, digits: string)
    requires NumberSpelled(s, beginning, digits)
    ensures IsNumberHead(s)
  {
    AllHexIs(digits);
    assert s[|beginning|..] == digits;
    if |beginning| == 2 {
      InMarks(s[1]);
    }
  }

  lemma EndsInNumberIff(head: string)
    ensures EndsInNumber(head) <==> exists k: nat :: NumberAtEnd(head, k)
  {
    if EndsInNumber(head) {
      var k :| 0 <= k < |head| && NumberFrom(head, k);
      var beginning, digits := NumberHeadSplits(head[k..]);
      assert NumberAtEnd(head, k);
    }
    if k: nat :| NumberAtEnd(head, k) {
      var beginning, digits :| NumberSpelled(head[k..], beginning, digits);
      NumberHeadJoins(head[k..], beginning, digits);
      assert NumberFrom(head, k);
    }
  }

  /** The position of the first c in s, or |s|. */
  function Find(s: string, c: char): (k: nat)
    ensures k <= |s|
  {
    if s == "" || s[0] == c then 0 else 1 + Find(s[1..], c)
  }

  /** The position of the first quote of either kind, or |s|. */
  function FirstQuote(s: string): (k: nat)
    ensures k <= |s|
  {
    if s == "" || IsQuote(s[0]) then 0 else 1 + FirstQuote(s[1..])
  }

  /** Does `'?[0-9a-zA-Z_]` match at the start of s, and over how many characters? */
  function DigitUnit(s: string): (n: nat)
    ensures n <= |s| && n <= 2
  {
    if s != "" && IsWord(s[0]) then 1
    else if |s| >= 2 && s[0] == '\'' && IsWord(s[1]) then 2
    else 0
  }

  /** `(?:'?[0-9a-zA-Z_])*`: how far it reaches. */
  function LiteralEnd(s: string): (n: nat)
    ensures n <= |s|
    decreases |s|
  {
    var n := DigitUnit(s);
    if n == 0 then 0 else n + LiteralEnd(s[n..])
  }

  /** `replace("'", '')` */
  function WithoutQuotes(s: string): string {
    if s == "" then ""
    else if s[0] == '\'' then WithoutQuotes(s[1..])
    else [s[0]] + WithoutQuotes(s[1..])
  }

  /** One round of the loop: what is emitted and what is left, or the rest of the line as it is. */
  datatype Round = Emit(text: string, rest: string) | Stop

  function NextRound(s: string): (r: Round)
    ensures r.Emit? ==> |r.rest| < |s|
  {
    var h := FirstQuote(s);
    if h == |s| then Stop
    else
      var head, quote, tail := s[..h], s[h], s[h + 1..];
      var q := Find(tail, quote);
      if quote == '\'' && EndsInNumber(head) then
        var n := LiteralEnd(s[h..]);
        Emit(head + WithoutQuotes(s[h..][..n]), s[h..][n..])
      else if q < |tail| then
        Emit(head + [quote, quote], tail[q + 1..])
      else
        Stop
  }

  /** What becomes of the rest of a line. */
  function Collapse(s: string): string
    decreases |s|
  {
    match NextRound(s)
    case Stop => s
    case Emit(text, rest) => text + Collapse(rest)
  }

  lemma RoundKept(collapsed: string, elided: string)
    ensures match NextRound(elided)
      case Stop => Collapse(elided) == elided
      case Emit(text, rest) => collapsed + text + Collapse(rest) == collapsed + Collapse(elided)
  {
    match NextRound(elided)
    case Stop =>
    case Emit(text, rest) => Glue(collapsed, text, Collapse(rest));
  }

  // ----- the normal form

  /** A collapsed line: every literal is empty, except that a last quote may have no partner; and no quote
      separates the digits of a number. */
  predicate Collapsed(s: string)
    decreases |s|
  {
    var h := FirstQuote(s);
    h == |s| ||
    var head, quote, tail := s[..h], s[h], s[h + 1..];
    if tail != "" && tail[0] == quote then
      Collapsed(tail[1..])
    else
      quote !in tail && !(quote == '\'' && EndsInNumber(head) && tail != "" && IsWord(tail[0]))
  }

  ghost predicate NoQuotes(s: string) {
    forall j :: 0 <= j < |s| ==> s[j] != '"' && s[j] != '\''
  }

  lemma FindFirst(s: string, c: char)
    ensures Find(s, c) == |s| <==> c !in s
    ensures s != "" && s[0] == c ==> Find(s, c) == 0
  {}

  lemma {:induction false} FirstQuoteSplits(s: string)
    ensures NoQuotes(s[..FirstQuote(s)])
    ensures FirstQuote(s) < |s| ==> IsQuote(s[FirstQuote(s)])
  {
    if s != "" && !IsQuote(s[0]) {
      FirstQuoteSplits(s[1..]);
      assert s[..FirstQuote(s)] == [s[0]] + s[1..][..FirstQuote(s[1..])];
    }
  }

  /** The body of the loop: looks at the first quote character of what is left of the line. */
  method CollapseRound(elided: string) returns (r: Round)
    ensures r == NextRound(elided)
  {
    FirstQuoteSplits(elided);
    var h := FirstQuote(elided);
    if h == |elided| {
      return Stop;
    }
    var head, quote, tail := elided[..h], elided[h], elided[h + 1..];
    if quote == '"' {
      var secondQuote := Find(tail, '"');
      if secondQuote < |tail| {
        return Emit(head + ['"', '"'], tail[secondQuote + 1..]);
      }
      return Stop;
    }
    if EndsInNumber(head) {
      var literal := elided[h..];
      var n := LiteralEnd(literal);
      return Emit(head + WithoutQuotes(literal[..n]), literal[n..]);
    }
    var secondQuote := Find(tail, '\'');
    if secondQuote < |tail| {
      return Emit(head + ['\'', '\''], tail[secondQuote + 1..]);
    }
    return Stop;
  }

  lemma {:induction false} FirstQuoteAfter(head: string, rest: string)
    requires NoQuotes(head) && (rest == "" || IsQuote(rest[0]))
    ensures FirstQuote(head + rest) == |head|
  {
    if head == "" {
      assert head + rest == rest;
    } else {
      assert (head + rest)[0] == head[0] && (head + rest)[1..] == head[1..] + rest;
      FirstQuoteAfter(head[1..], rest);
    }
  }

  /** Text without quotes in front of a line, and the line not going on with the text's last word. */
  ghost predicate Separated(before: string, s: string) {
    && NoQuotes(before)
    && (before == "" || DigitUnit(s) == 0)
  }

  lemma NumberFromShifts(before: string, head: string, k: nat)
    requires k < |head| && !IsWord(head[0])
    ensures NumberFrom(before + head, |before| + k) <==> NumberFrom(head, k)
  {
    assert (before + head)[|before| + k..] == head[k..];
  }

  lemma NumberIsWord(s: string)
    requires IsNumberHead(s)
    ensures forall k :: 0 <= k < |s| ==> IsWord(s[k])
  {
    assert forall k :: 1 <= k < |s| ==> s[k] == s[1..][k - 1];
    assert forall k :: 2 <= k < |s| ==> s[k] == s[2..][k - 2];
  }

  lemma WordAt(s: string, k: nat, n: nat)
    requires k <= n < |s| && IsNumberHead(s[k..])
    ensures IsWord(s[n])
  {
    NumberIsWord(s[k..]);
    assert s[k..][n - k] == s[n];
  }

  /** A number at the end of the text is the same number with more text in front of it, if a word boundary
      lies in between. */
  lemma NumberUnaffected(before: string, head: string)
    requires before == "" || (head != "" && !IsWord(head[0]))
    ensures EndsInNumber(before + head) <==> EndsInNumber(head)
  {
    var n := |before|;
    if before == "" {
      assert before + head == head;
    } else if EndsInNumber(head) {
      var k :| 0 <= k < |head| && NumberFrom(head, k);
      NumberFromShifts(before, head, k);
      assert EndsInNumber(before + head);
    } else if EndsInNumber(before + head) {
      var k :| 0 <= k < n + |head| && NumberFrom(before + head, k);
      if k <= n {
        WordAt(before + head, k, n);
      } else {
        NumberFromShifts(before, head, k - n);
      }
      assert false;
    }
  }

  lemma {:induction false} LiteralEndMaximal(s: string)
    ensures DigitUnit(s[LiteralEnd(s)..]) == 0
    decreases |s|
  {
    var n := DigitUnit(s);
    if n == 0 {
      assert s[0..] == s;
    } else {
      LiteralEndMaximal(s[n..]);
      assert s[n..][LiteralEnd(s[n..])..] == s[LiteralEnd(s)..];
    }
  }

  lemma {:induction false} LiteralChar(s: string, j: nat)
    requires j < LiteralEnd(s)
    ensures s[j] == '\'' || IsWord(s[j])
    decreases |s|
  {
    var n := DigitUnit(s);
    if j >= n {
      LiteralChar(s[n..], j - n);
    }
  }

  lemma {:induction false} WithoutQuotesWords(s: string)
    requires forall j :: 0 <= j < |s| ==> s[j] == '\'' || IsWord(s[j])
    ensures NoQuotes(WithoutQuotes(s))
  {
    if s != "" {
      WithoutQuotesWords(s[1..]);
    }
  }

  lemma LiteralHasNoQuotes(s: string)
    ensures NoQuotes(WithoutQuotes(s[..LiteralEnd(s)]))
  {
    forall j | 0 <= j < LiteralEnd(s)
      ensures s[..LiteralEnd(s)][j] == '\'' || IsWord(s[..LiteralEnd(s)][j])
    {
      LiteralChar(s, j);
    }
    WithoutQuotesWords(s[..LiteralEnd(s)]);
  }

  lemma NoQuotesConcat(a: string, b: string)
    requires NoQuotes(a) && NoQuotes(b)
    ensures NoQuotes(a + b)
  {}

  /** A quote at a number leaves quote-free text, and what follows does not continue its last word. */
  lemma NumberRound(before: string, s: string)
    requires Separated(before, s) && NextRound(s).Emit?
    requires s[FirstQuote(s)] == '\'' && EndsInNumber(s[..FirstQuote(s)])
    ensures Separated(before + NextRound(s).text, NextRound(s).rest)
  {
    var h := FirstQuote(s);
    FirstQuoteSplits(s);
    LiteralEndMaximal(s[h..]);
    LiteralHasNoQuotes(s[h..]);
    NoQuotesConcat(s[..h], WithoutQuotes(s[h..][..LiteralEnd(s[h..])]));
    NoQuotesConcat(before, NextRound(s).text);
  }

  lemma PairStep(head: string, quote: char, rest: string)
    requires IsQuote(quote) && NoQuotes(head) && Collapsed(rest)
    ensures Collapsed(head + [quote, quote] + rest)
  {
    var s, h := head + [quote, quote] + rest, |head|;
    assert s == head + ([quote, quote] + rest);
    FirstQuoteAfter(head, [quote, quote] + rest);
    assert s[h + 1..][1..] == rest;
  }

  lemma PairRound(before: string, s: string)
    requires Separated(before, s) && NextRound(s).Emit? && Collapsed(Collapse(NextRound(s).rest))
    requires s[FirstQuote(s)] == '"' || !EndsInNumber(s[..FirstQuote(s)])
    ensures Collapsed(before + Collapse(s))
  {
    var head, quote, rest := s[..FirstQuote(s)], s[FirstQuote(s)], NextRound(s).rest;
    FirstQuoteSplits(s);
    NoQuotesConcat(before, head);
    PairStep(before + head, quote, Collapse(rest));
    Glue(before, head, [quote, quote]);
    Glue(before, head + [quote, quote], Collapse(rest));
  }

  lemma UnmatchedStep(before: string, head: string, quote: char, tail: string)
    requires IsQuote(quote) && NoQuotes(before + head) && quote !in tail
    requires Separated(before, head + [quote] + tail) && (quote == '\'' ==> !EndsInNumber(head))
    ensures Collapsed(before + (head + [quote] + tail))
  {
    var s, h := before + (head + [quote] + tail), |before + head|;
    assert s[..h] == before + head && s[h + 1..] == tail && s == before + head + ([quote] + tail);
    FirstQuoteAfter(before + head, [quote] + tail);
    if head == "" {
      assert before + head == before && "" + [quote] + tail == [quote] + tail;
      assert before == "" ==> !EndsInNumber(before + head);
    } else {
      NumberUnaffected(before, head);
    }
  }

  lemma LastRound(before: string, s: string)
    requires Separated(before, s) && NextRound(s).Stop?
    ensures Collapsed(before + s)
  {
    var h := FirstQuote(s);
    FirstQuoteSplits(s);
    NoQuotesConcat(before, s[..h]);
    if h == |s| {
      assert s[..h] == s && before + s == before + s + "";
      FirstQuoteAfter(before + s, "");
    } else {
      FindFirst(s[h + 1..], s[h]);
      assert s == s[..h] + [s[h]] + s[h + 1..];
      UnmatchedStep(before, s[..h], s[h], s[h + 1..]);
    }
  }

  /** The loop's result is in normal form, also behind text already emitted. */
  lemma {:induction false} CollapseIsCollapsed(before: string, s: string)
    requires Separated(before, s)
    ensures Collapsed(before + Collapse(s))
    decreases |s|
  {
    FirstQuoteSplits(s);
    match NextRound(s)
    case Stop => LastRound(before, s);
    case Emit(text, rest) =>
      if s[FirstQuote(s)] == '\'' && EndsInNumber(s[..FirstQuote(s)]) {
        NumberRound(before, s);
        CollapseIsCollapsed(before + text, rest);
        Glue(before, text, Collapse(rest));
      } else {
        CollapseIsCollapsed("", rest);
        assert "" + Collapse(rest) == Collapse(rest);
        PairRound(before, s);
      }
  }

  lemma PairKept(head: string, quote: char, rest: string)
    requires IsQuote(quote) && NoQuotes(head) && (quote == '\'' ==> !EndsInNumber(head))
    ensures Collapse(head + [quote, quote] + rest) == head + [quote, quote] + Collapse(rest)
  {
    var s, h := head + [quote, quote] + rest, |head|;
    assert s[..h] == head && s[h + 1..] == [quote] + rest && s == head + ([quote, quote] + rest);
    FirstQuoteAfter(head, [quote, quote] + rest);
    FindFirst(s[h + 1..], quote);
    assert s[h + 1..][1..] == rest;
  }

  lemma UnmatchedKept(head: string, quote: char, tail: string)
    requires IsQuote(quote) && NoQuotes(head) && (quote == '\'' ==> !EndsInNumber(head)) && quote !in tail
    ensures Collapse(head + [quote] + tail) == head + [quote] + tail
  {
    var s, h := head + [quote] + tail, |head|;
    assert s[..h] == head && s[h + 1..] == tail && s == head + ([quote] + tail);
    FirstQuoteAfter(head, [quote] + tail);
    FindFirst(tail, quote);
  }

  /** A number followed by a quote that separates no digits: the number is emitted, the quote looked at again. */
  lemma NumberKept(head: string, rest: string)
    requires NoQuotes(head) && EndsInNumber(head) && rest != "" && rest[0] == '\'' && DigitUnit(rest) == 0
    ensures Collapse(head + rest) == head + Collapse(rest)
  {
    var s, h := head + rest, |head|;
    assert s[..h] == head && s[h..] == rest;
    FirstQuoteAfter(head, rest);
    assert rest[..0] == "" && rest[0..] == rest && head + "" == head;
  }

  lemma PairFixed(head: string, quote: char, rest: string)
    requires IsQuote(quote) && NoQuotes(head) && Collapse(rest) == rest
    ensures Collapse(head + [quote, quote] + rest) == head + [quote, quote] + rest
  {
    if quote == '\'' && EndsInNumber(head) {
      PairKept("", quote, rest);
      NumberKept(head, [quote, quote] + rest);
      Glue(head, [quote, quote], rest);
      assert "" + [quote, quote] == [quote, quote];
    } else {
      PairKept(head, quote, rest);
    }
  }

  lemma UnmatchedFixed(head: string, quote: char, tail: string)
    requires IsQuote(quote) && NoQuotes(head) && quote !in tail
    requires quote == '\'' && EndsInNumber(head) ==> tail == "" || !IsWord(tail[0])
    ensures Collapse(head + [quote] + tail) == head + [quote] + tail
  {
    if quote == '\'' && EndsInNumber(head) {
      UnmatchedKept("", quote, tail);
      NumberKept(head, [quote] + tail);
      Glue(head, [quote], tail);
      assert "" + [quote] == [quote];
    } else {
      UnmatchedKept(head, quote, tail);
    }
  }

  /** A line in normal form is left alone. */
  lemma {:induction false} CollapsedIsFixed(s: string)
    requires Collapsed(s)
    ensures Collapse(s) == s
    decreases |s|
  {
    var h := FirstQuote(s);
    if h < |s| {
      FirstQuoteSplits(s);
      var head, quote, tail := s[..h], s[h], s[h + 1..];
      assert s == head + [quote] + tail;
      if tail != "" && tail[0] == quote {
        assert s == head + [quote, quote] + tail[1..];
        CollapsedIsFixed(tail[1..]);
        PairFixed(head, quote, tail[1..]);
      } else {
        UnmatchedFixed(head, quote, tail);
      }
    }
  }

  lemma CollapseGivesCollapsed(s: string)
    ensures Collapsed(Collapse(s))
  {
    CollapseIsCollapsed("", s);
    assert "" + Collapse(s) == Collapse(s);
  }

  method CollapseQuotes(line: string) returns (collapsed: string)
    ensures collapsed == Collapse(line)
    ensures Collapsed(collapsed)
  {
    var elided := line;
    collapsed := "";
    while true
      invariant collapsed + Collapse(elided) == Collapse(line)
      decreases |elided|
    {
      var round := CollapseRound(elided);
      RoundKept(collapsed, elided);
      if round == Stop {
        collapsed := collapsed + elided;
        break;
      }
      collapsed := collapsed + round.text;
      elided := round.rest;
    }
    CollapseGivesCollapsed(line);
  }

  /** Main result: the loop leaves exactly the lines in normal form alone, and its result is one of them. */
  lemma FixedIffCollapsed(s: string)
    ensures Collapse(s) == s <==> Collapsed(s)
  {
    if Collapse(s) == s {
      CollapseGivesCollapsed(s);
    }
    if Collapsed(s) {
      CollapsedIsFixed(s);
    }
  }

  /** Collapsing a collapsed line changes nothing. */
  lemma CollapseIdempotent(s: string)
    ensures Collapse(Collapse(s)) == Collapse(s)
  {
    CollapseGivesCollapsed(s);
    CollapsedIsFixed(Collapse(s));
  }

  // ----- what is kept

  predicate StartsWithSingleQuote(s: string) {
    s != "" && s[0] == '\''
  }

  /** A character of a number that goes on, with or without a separator in front. */
  datatype Unit = Unit(separated: bool, c: char) {
    function Text(): string {
      if separated then ['\'', c] else [c]
    }
  }

  function Spelled(units: seq<Unit>): string {
    if units == [] then "" else units[0].Text() + Spelled(units[1..])
  }

  /** The characters without the separators. */
  function Characters(units: seq<Unit>): string {
    seq(|units|, i requires 0 <= i < |units| => units[i].c)
  }

  ghost predicate AllWords(units: seq<Unit>) {
    forall i :: 0 <= i < |units| ==> IsWord(units[i].c)
  }

  /** A word character, or a separator and a word character. */
  predicate ContinuesNumber(s: string) {
    (s != "" && IsWord(s[0])) || (|s| >= 2 && s[0] == '\'' && IsWord(s[1]))
  }

  /** A line taken apart: code without quotes, in turn with literals, the remainders of numbers that contain
      separators, and possibly at the end a quote without a partner. */
  datatype Layout =
    | Last(code: string)
    | Unmatched(code: string, quote: char, open: string)
    | Literal(code: string, quote: char, content: string, rest: Layout)
    | Number(code: string, units: seq<Unit>, rest: Layout)
  {
    function Raw(): string {
      match this
      case Last(code) => code
      case Unmatched(code, quote, open) => code + [quote] + open
      case Literal(code, quote, content, rest) => code + [quote] + content + [quote] + rest.Raw()
      case Number(code, units, rest) => code + Spelled(units) + rest.Raw()
    }

    /** Literals emptied, separators removed, all else kept. */
    function Shrunk(): string {
      match this
      case Last(code) => code
      case Unmatched(code, quote, open) => code + [quote] + open
      case Literal(code, quote, content, rest) => code + [quote, quote] + rest.Shrunk()
      case Number(code, units, rest) => code + Characters(units) + rest.Shrunk()
    }

    /** A single quote right behind a number begins no literal but continues the number as far as words,
        possibly with single quotes inside, reach. */
    ghost predicate Fits() {
      NoQuotes(code) &&
      match this
      case Last(code) => true
      case Unmatched(code, quote, open) =>
        (quote == '"' || quote == '\'') && quote !in open && !(quote == '\'' && EndsInNumber(code))
      case Literal(code, quote, content, rest) =>
        && (quote == '"' || quote == '\'') && quote !in content && !(quote == '\'' && EndsInNumber(code))
        && rest.Fits()
      case Number(code, units, rest) =>
        && EndsInNumber(code) && StartsWithSingleQuote(Spelled(units) + rest.Raw())
        && AllWords(units) && !ContinuesNumber(rest.Raw()) && rest.Fits()
    }
  }

  lemma {:induction false} FindAfter(content: string, c: char, rest: string)
    requires c !in content
    ensures Find(content + [c] + rest, c) == |content|
  {
    if content == "" {
      assert content + [c] + rest == [c] + rest;
    } else {
      var s := content + [c] + rest;
      assert s[0] == content[0] && s[1..] == content[1..] + [c] + rest;
      FindAfter(content[1..], c, rest);
    }
  }

  lemma UnitAt(u: Unit, rest: string)
    requires IsWord(u.c)
    ensures DigitUnit(u.Text() + rest) == |u.Text()|
    ensures (u.Text() + rest)[|u.Text()|..] == rest
  {}

  lemma {:induction false} LiteralEndAt(units: seq<Unit>, rest: string)
    requires AllWords(units) && !ContinuesNumber(rest)
    ensures LiteralEnd(Spelled(units) + rest) == |Spelled(units)|
  {
    if units == [] {
      assert "" + rest == rest;
    } else {
      Glue(units[0].Text(), Spelled(units[1..]), rest);
      UnitAt(units[0], Spelled(units[1..]) + rest);
      LiteralEndAt(units[1..], rest);
    }
  }

  lemma WithoutQuotesUnit(u: Unit, rest: string)
    requires IsWord(u.c)
    ensures WithoutQuotes(u.Text() + rest) == [u.c] + WithoutQuotes(rest)
  {
    var s := u.Text() + rest;
    if u.separated {
      assert s[1..] == [u.c] + rest && ([u.c] + rest)[1..] == rest;
    } else {
      assert s[1..] == rest;
    }
  }

  lemma {:induction false} WithoutQuotesUnits(units: seq<Unit>)
    requires AllWords(units)
    ensures WithoutQuotes(Spelled(units)) == Characters(units)
  {
    if units != [] {
      WithoutQuotesUnit(units[0], Spelled(units[1..]));
      WithoutQuotesUnits(units[1..]);
      assert Characters(units) == [units[0].c] + Characters(units[1..]);
    }
  }

  lemma PrefixSplits(s: string, n: nat, m: nat)
    requires n + m <= |s|
    ensures s[..n + m] == s[..n] + s[n..][..m]
  {}

  lemma {:induction false} UnitsOf(s: string) returns (units: seq<Unit>)
    ensures AllWords(units) && Spelled(units) == s[..LiteralEnd(s)]
    decreases |s|
  {
    var n := DigitUnit(s);
    if n == 0 {
      units := [];
    } else {
      var rest := UnitsOf(s[n..]);
      var u := Unit(n == 2, s[n - 1]);
      units := [u] + rest;
      assert units[1..] == rest && s[..n] == u.Text();
      PrefixSplits(s, n, LiteralEnd(s[n..]));
    }
  }

  lemma SplitAt(a: string, b: string)
    ensures (a + b)[..|a|] == a && (a + b)[|a|..] == b
  {}

  lemma LiteralRound(code: string, quote: char, content: string, rest: string)
    requires NoQuotes(code) && IsQuote(quote) && quote !in content && !(quote == '\'' && EndsInNumber(code))
    ensures NextRound(code + [quote] + content + [quote] + rest) == Emit(code + [quote, quote], rest)
  {
    var s, h, tail := code + [quote] + content + [quote] + rest, |code|, content + [quote] + rest;
    assert s == code + ([quote] + tail);
    FirstQuoteAfter(code, [quote] + tail);
    SplitAt(code, [quote] + tail);
    SplitAt([quote], tail);
    assert s[h + 1..] == tail;
    FindAfter(content, quote, rest);
    SplitAt(content + [quote], rest);
  }

  lemma DigitsRound(code: string, units: seq<Unit>, rest: string)
    requires NoQuotes(code) && EndsInNumber(code) && StartsWithSingleQuote(Spelled(units) + rest)
    requires AllWords(units) && !ContinuesNumber(rest)
    ensures NextRound(code + Spelled(units) + rest) == Emit(code + Characters(units), rest)
  {
    var digits := Spelled(units);
    Glue(code, digits, rest);
    FirstQuoteAfter(code, digits + rest);
    SplitAt(code, digits + rest);
    LiteralEndAt(units, rest);
    WithoutQuotesUnits(units);
    SplitAt(digits, rest);
  }

  /** However a line is laid out, the loop empties its literals, drops its separators and keeps the rest. */
  lemma {:induction false} CollapseShrinksLayout(l: Layout)
    requires l.Fits()
    ensures Collapse(l.Raw()) == l.Shrunk()
  {
    match l
    case Last(code) =>
      assert code + "" == code;
      FirstQuoteAfter(code, "");
    case Unmatched(code, quote, open) =>
      UnmatchedKept(code, quote, open);
    case Literal(code, quote, content, rest) =>
      LiteralRound(code, quote, content, rest.Raw());
      CollapseShrinksLayout(rest);
    case Number(code, units, rest) =>
      DigitsRound(code, units, rest.Raw());
      CollapseShrinksLayout(rest);
  }

  lemma {:induction false} FindSplits(s: string, c: char)
    ensures c !in s[..Find(s, c)]
    ensures Find(s, c) < |s| ==> s[Find(s, c)] == c
  {
    if s != "" && s[0] != c {
      FindSplits(s[1..], c);
      assert s[..Find(s, c)] == [s[0]] + s[1..][..Find(s[1..], c)];
    }
  }

  lemma NumberLayout(code: string, literal: string, inner: Layout) returns (l: Layout)
    requires NoQuotes(code) && EndsInNumber(code) && StartsWithSingleQuote(literal)
    requires inner.Fits() && inner.Raw() == literal[LiteralEnd(literal)..]
    ensures l.Fits() && l.Raw() == code + literal
  {
    var units := UnitsOf(literal);
    LiteralEndMaximal(literal);
    assert literal == Spelled(units) + inner.Raw();
    Glue(code, Spelled(units), inner.Raw());
    l := Number(code, units, inner);
  }

  lemma LiteralLayout(code: string, quote: char, content: string, inner: Layout)
    requires NoQuotes(code) && IsQuote(quote) && quote !in content && !(quote == '\'' && EndsInNumber(code))
    requires inner.Fits()
    ensures var l := Literal(code, quote, content, inner);
      l.Fits() && l.Raw() == code + [quote] + (content + [quote] + inner.Raw())
  {
    var raw := inner.Raw();
    assert code + [quote] + content + [quote] + raw == code + [quote] + (content + [quote] + raw);
  }

  lemma SplitAround(s: string, n: nat)
    requires n < |s|
    ensures s == s[..n] + ([s[n]] + s[n + 1..]) == s[..n] + [s[n]] + s[n + 1..]
  {}

  lemma LiteralLayoutOf(s: string, inner: Layout) returns (l: Layout)
    requires NextRound(s).Emit? && inner.Fits() && inner.Raw() == NextRound(s).rest
    requires s[FirstQuote(s)] == '"' || !EndsInNumber(s[..FirstQuote(s)])
    ensures l.Fits() && l.Raw() == s
  {
    FirstQuoteSplits(s);
    var code, quote, tail := s[..FirstQuote(s)], s[FirstQuote(s)], s[FirstQuote(s) + 1..];
    var q := Find(tail, quote);
    FindSplits(tail, quote);
    LiteralLayout(code, quote, tail[..q], inner);
    SplitAround(tail, q);
    SplitAround(s, FirstQuote(s));
    l := Literal(code, quote, tail[..q], inner);
  }

  lemma SplitJoin(s: string, n: nat)
    requires n <= |s|
    ensures s[..n] + s[n..] == s
  {}

  lemma NumberLayoutOf(s: string, inner: Layout) returns (l: Layout)
    requires NextRound(s).Emit? && inner.Fits() && inner.Raw() == NextRound(s).rest
    requires s[FirstQuote(s)] == '\'' && EndsInNumber(s[..FirstQuote(s)])
    ensures l.Fits() && l.Raw() == s
  {
    FirstQuoteSplits(s);
    var code, literal := s[..FirstQuote(s)], s[FirstQuote(s)..];
    l := NumberLayout(code, literal, inner);
    SplitJoin(s, FirstQuote(s));
  }

  /** Every line has such a layout. */
  lemma {:induction false} LayoutOf(s: string) returns (l: Layout)
    ensures l.Fits() && l.Raw() == s
    decreases |s|
  {
    match NextRound(s)
    case Emit(text, rest) =>
      var inner := LayoutOf(rest);
      if s[FirstQuote(s)] == '\'' && EndsInNumber(s[..FirstQuote(s)]) {
        l := NumberLayoutOf(s, inner);
      } else {
        FirstQuoteSplits(s);
        l := LiteralLayoutOf(s, inner);
      }
    case Stop =>
      var h := FirstQuote(s);
      FirstQuoteSplits(s);
      if h == |s| {
        l := Last(s);
      } else {
        FindFirst(s[h + 1..], s[h]);
        SplitAround(s, h);
        l := Unmatched(s[..h], s[h], s[h + 1..]);
      }
  }
}
