/** cpplint's second, independent bracket matcher: `_GetTextInside` runs on one string, keeps a stack of the
    closing brackets it expects, and knows no tentative brackets. It agrees with CloseExpression. */
module TextInside {
  import opened Chars
  import opened Brackets
  import opened LineText
  import opened ForwardScan

  /** closers are the closing brackets to come, for a stack of open ones. */
  predicate Expects(stack: seq<char>, closers: seq<char>) {
    |closers| == |stack| && forall i :: 0 <= i < |stack| ==> closers[i] == Flip(stack[i])
  }

  /** k characters into s, the loop expects the closing brackets in `closers`. */
  ghost predicate Reading(s: string, k: nat, closers: seq<char>) {
    && 0 < k <= |s| && Unclosed(s, k - 1)
    && Feed(s[..k]).Some? && Expects(Feed(s[..k]).value, closers)
  }

  lemma StackIsOpen(s: string)
    ensures Feed(s).Some? ==> forall k :: 0 <= k < |Feed(s).value| ==> IsOpen(Feed(s).value[k])
  {}

  lemma StepExpected(s: string, k: nat, closers: seq<char>)
    requires Reading(s, k, closers) && closers != [] && k < |s|
    ensures var c := s[k];
      if c == closers[|closers| - 1] then Reading(s, k + 1, Pop(closers))
      else if IsClose(c) then Doomed(s)
      else if IsOpen(c) then Reading(s, k + 1, closers + [Flip(c)])
      else Reading(s, k + 1, closers)
  {
    var stack, c := Feed(s[..k]).value, s[k];
    FeedNext(s, k);
    StackIsOpen(s[..k]);
    assert Unclosed(s, k);
    assert IsOpen(stack[|stack| - 1]);
    assert Matches(stack[|stack| - 1], c) <==> c == closers[|closers| - 1];
  }

  lemma StartExpected(s: string)
    requires s != "" && IsOpen(s[0])
    ensures Reading(s, 1, [Flip(s[0])])
  {
    FirstOpen(s);
  }

  /** text[p..end] is the bracketed expression that starts at p, by the grammar and by CloseExpression. */
  ghost predicate EndsAt(text: string, p: nat, end: nat)
    requires p < |text| && IsOpen(text[p])
  {
    p < end <= |text| && Enclosed(text[p..end]) && ClosingOffset([text], 0, p) == Some(end)
  }

  /** No bracketed expression starts at p. */
  ghost predicate EndsNowhere(text: string, p: nat)
    requires p < |text| && IsOpen(text[p])
  {
    NothingEnclosed(text[p..]) && ClosingOffset([text], 0, p) == None
  }

  lemma OneLineClosing(text: string, p: nat, end: nat)
    requires p < |text| && IsOpen(text[p])
    ensures ClosingOffset([text], 0, p) == Some(end) <==> p <= end <= |text| && Enclosed(text[p..][..end - p])
  {
    if p <= end <= |text| {
      assert text[p..][..end - p] == text[p..end];
    }
    assert Text([text]) == text + Text([]) == text;
    assert Base([text], 0) == 0;
    ClosingOffsetIsTheEnd([text], 0, p, end);
  }

  lemma Accept(text: string, p: nat, k: nat)
    requires p < |text| && IsOpen(text[p]) && k <= |text| - p && Reading(text[p..], k, [])
    ensures EndsAt(text, p, p + k)
  {
    EnclosedIffFirstReturn(text[p..], k);
    assert text[p..][..k] == text[p..p + k];
    OneLineClosing(text, p, p + k);
  }

  lemma Refuse(text: string, p: nat)
    requires p < |text| && IsOpen(text[p]) && (Doomed(text[p..]) || Unclosed(text[p..], |text| - p))
    ensures EndsNowhere(text, p)
  {
    NeverReturns(text[p..]);
    var offset := ClosingOffset([text], 0, p);
    if offset.Some? {
      OneLineClosing(text, p, offset.value);
      assert false;
    }
  }

  lemma RefuseUnclosed(text: string, p: nat, closers: seq<char>)
    requires p < |text| && IsOpen(text[p]) && Reading(text[p..], |text| - p, closers) && closers != []
    ensures EndsNowhere(text, p)
  {
    Refuse(text, p);
  }

  /** r is the text between the bracket just before position p and its partner; or there is no partner. */
  ghost predicate IsInside(text: string, p: nat, r: Option<string>)
    requires 0 < p <= |text| && IsOpen(text[p - 1])
  {
    match r
    case Some(inside) => EndsAt(text, p - 1, p + |inside| + 1) && inside == text[p..p + |inside|]
    case None => EndsNowhere(text, p - 1)
  }

  /** The search for the start pattern is given by the position just behind its first match, if there is one;
      the pattern must end in an opening bracket. */
  method GetTextInside(text: string, matchEnd: Option<nat>) returns (r: Option<string>)
    requires matchEnd.Some? ==> 0 < matchEnd.value <= |text| && IsOpen(text[matchEnd.value - 1])
    ensures if matchEnd.Some? then IsInside(text, matchEnd.value, r) else r == None
  {
    if matchEnd == None {
      return None;
    }
    var startPosition := matchEnd.value;
    ghost var p := startPosition - 1;
    ghost var s := text[p..];
    var stack := [Flip(text[startPosition - 1])];
    var position := startPosition;
    StartExpected(s);
    while stack != [] && position < |text|
      invariant startPosition <= position <= |text|
      invariant Reading(s, position - p, stack)
      decreases |text| - position
    {
      var c := text[position];
      StepExpected(s, position - p, stack);
      if c == stack[|stack| - 1] {
        stack := Pop(stack);
      } else if IsClose(c) {
        Refuse(text, p);
        return None;
      } else if IsOpen(c) {
        stack := stack + [Flip(c)];
      }
      position := position + 1;
    }
    if stack != [] {
      RefuseUnclosed(text, p, stack);
      return None;
    }
    Accept(text, p, position - p);
    return Some(text[startPosition..position - 1]);
  }
}
