/** The language of balanced words over the brackets `()`, `[]` and `{}`, every other character being
    neutral: a grammar, the pushdown reading of it, and the proof that the two agree. */
module Brackets {
  import opened Chars

  predicate IsOpen(c: char) {
    c == '(' || c == '[' || c == '{'
  }

  predicate IsClose(c: char) {
    c == ')' || c == ']' || c == '}'
  }

  predicate Matches(open: char, close: char) {
    || (open == '(' && close == ')')
    || (open == '[' && close == ']')
    || (open == '{' && close == '}')
  }

  // ----- the grammar

  function Flip(c: char): char {
    match c
    case '(' => ')'
    case ')' => '('
    case '[' => ']'
    case ']' => '['
    case '{' => '}'
    case '}' => '{'
    case _ => c
  }

  /** A derivation of a balanced word. */
  datatype Tree =
    | Empty
    | Neutral(c: char)
    | Join(left: Tree, right: Tree)
    | Wrap(open: char, inner: Tree, close: char)
  {
    predicate WellFormed() {
      match this
      case Empty => true
      case Neutral(c) => !IsOpen(c) && !IsClose(c)
      case Join(left, right) => left.WellFormed() && right.WellFormed()
      case Wrap(open, inner, close) => Matches(open, close) && inner.WellFormed()
    }

    function Word(): string {
      match this
      case Empty => ""
      case Neutral(c) => [c]
      case Join(left, right) => left.Word() + right.Word()
      case Wrap(open, inner, close) => [open] + inner.Word() + [close]
    }

    function Mirrored(): Tree {
      match this
      case Empty => Empty
      case Neutral(c) => Neutral(c)
      case Join(left, right) => Join(right.Mirrored(), left.Mirrored())
      case Wrap(open, inner, close) => Wrap(Flip(close), inner.Mirrored(), Flip(open))
    }
  }

  ghost predicate Balanced(s: string) {
    exists t: Tree :: t.WellFormed() && t.Word() == s
  }

  /** A bracketed expression: an opening bracket, a balanced word, the matching closing bracket. */
  ghost predicate Enclosed(s: string) {
    |s| >= 2 && Matches(s[0], s[|s| - 1]) && Balanced(s[1..|s| - 1])
  }

  // ----- the pushdown reading

  function Push(stack: seq<char>, c: char): Option<seq<char>> {
    if IsOpen(c) then Some(stack + [c])
    else if IsClose(c) then
      if |stack| > 0 && Matches(stack[|stack| - 1], c) then Some(stack[..|stack| - 1]) else None
    else Some(stack)
  }

  /** The stack of open brackets after reading s, or None once a closing bracket did not fit. */
  function Feed(s: string): Option<seq<char>> {
    if s == "" then Some([])
    else
      match Feed(s[..|s| - 1])
      case None => None
      case Some(stack) => Push(stack, s[|s| - 1])
  }

  /** Throughout the first n characters, from the first one on, some bracket is open. */
  ghost predicate Unclosed(s: string, n: nat)
    requires n <= |s|
  {
    forall j :: 0 < j <= n ==> Feed(s[..j]).Some? && Feed(s[..j]).value != []
  }

  /** The bracket opened first is closed by character k - 1 and not before. */
  ghost predicate FirstReturn(s: string, k: nat)
    requires k <= |s|
  {
    k > 0 && Unclosed(s, k - 1) && Feed(s[..k]) == Some([])
  }

  lemma FeedSnoc(s: string, c: char)
    ensures Feed(s + [c]) == match Feed(s) { case None => None case Some(stack) => Push(stack, c) }
  {
    assert (s + [c])[..|s|] == s;
  }

  lemma {:induction false} FailureLasts(s: string, j: nat)
    requires j <= |s| && Feed(s[..j]) == None
    ensures Feed(s) == None
  {
    if j == |s| {
      assert s[..j] == s;
    } else {
      assert s[..|s| - 1][..j] == s[..j];
      FailureLasts(s[..|s| - 1], j);
    }
  }

  lemma FeedWrapped(before: string, open: char, inner: string, close: char)
    requires Feed(before).Some? && Matches(open, close)
    requires Feed(before + [open] + inner) == Some(Feed(before).value + [open])
    ensures Feed(before + ([open] + inner + [close])) == Feed(before)
  {
    FeedSnoc(before + [open] + inner, close);
    Glue(before + [open], inner, [close]);
    Glue(before, [open], inner + [close]);
    Glue([open], inner, [close]);
  }

  /** Reading a balanced word leaves the stack as it was. */
  lemma {:induction false} FeedTree(before: string, t: Tree)
    requires t.WellFormed() && Feed(before).Some?
    ensures Feed(before + t.Word()) == Feed(before)
    decreases t
  {
    match t
    case Empty =>
      assert before + t.Word() == before;
    case Neutral(c) =>
      FeedSnoc(before, c);
    case Join(left, right) =>
      FeedTree(before, left);
      FeedTree(before + left.Word(), right);
      Glue(before, left.Word(), right.Word());
    case Wrap(open, inner, close) =>
      FeedSnoc(before, open);
      FeedTree(before + [open], inner);
      FeedWrapped(before, open, inner.Word(), close);
  }

  lemma PrefixOfConcat(a: string, b: string, k: nat)
    requires k <= |a + b|
    ensures (a + b)[..k] == if k <= |a| then a[..k] else a + b[..k - |a|]
    ensures k == |a| ==> a[..k] == a + b[..0]
  {}

  /** While a balanced word is being read, the stack it started on is never touched. */
  lemma {:induction false} FeedInsideTree(before: string, t: Tree, k: nat)
    requires t.WellFormed() && Feed(before).Some? && k <= |t.Word()|
    ensures Feed(before + t.Word()[..k]).Some?
    ensures Feed(before).value <= Feed(before + t.Word()[..k]).value
    decreases t
  {
    if k == 0 {
      assert before + t.Word()[..k] == before;
    } else if k == |t.Word()| {
      assert t.Word()[..k] == t.Word();
      FeedTree(before, t);
    } else {
      match t
      case Join(left, right) =>
        var n := |left.Word()|;
        PrefixOfConcat(left.Word(), right.Word(), k);
        if k <= n {
          FeedInsideTree(before, left, k);
        } else {
          FeedTree(before, left);
          FeedInsideTree(before + left.Word(), right, k - n);
          Glue(before, left.Word(), right.Word()[..k - n]);
        }
      case Wrap(open, inner, close) =>
        PrefixOfConcat([open] + inner.Word(), [close], k);
        PrefixOfConcat([open], inner.Word(), k);
        Glue(before, [open], inner.Word()[..k - 1]);
        FeedSnoc(before, open);
        FeedInsideTree(before + [open], inner, k - 1);
    }
  }

  // ----- from the pushdown reading back to a derivation

  /** trees[0] stack[0] trees[1] stack[1] ... trees[n] */
  function Weave(trees: seq<Tree>, stack: seq<char>): string
    requires |trees| == |stack| + 1
  {
    if stack == [] then trees[0].Word()
    else
      var n := |stack| - 1;
      Weave(trees[..n + 1], stack[..n]) + [stack[n]] + trees[n + 1].Word()
  }

  lemma WeaveSnoc(trees: seq<Tree>, stack: seq<char>, o: char, t: Tree)
    requires |trees| == |stack| + 1
    ensures Weave(trees + [t], stack + [o]) == Weave(trees, stack) + [o] + t.Word()
  {
    var n := |stack|;
    assert (trees + [t])[..n + 1] == trees && (stack + [o])[..n] == stack;
  }

  lemma WeaveGrow(trees: seq<Tree>, stack: seq<char>, last: Tree, t: Tree)
    requires |trees| == |stack|
    ensures Weave(trees + [Join(last, t)], stack) == Weave(trees + [last], stack) + t.Word()
  {
    if stack != [] {
      var n := |stack| - 1;
      assert (trees + [Join(last, t)])[..n + 1] == trees == (trees + [last])[..n + 1];
      Glue(Weave(trees, stack[..n]) + [stack[n]], last.Word(), t.Word());
    }
  }

  lemma SnocTake<T>(s: seq<T>, n: nat)
    requires n < |s|
    ensures s[..n] + [s[n]] == s[..n + 1]
    ensures n + 1 == |s| ==> s[..n] + [s[n]] == s
  {}

  lemma DeriveStep(ts: seq<Tree>, stack: seq<char>, c: char) returns (trees: seq<Tree>)
    requires |ts| == |stack| + 1
    requires forall k :: 0 <= k < |ts| ==> ts[k].WellFormed()
    requires Push(stack, c).Some?
    ensures |trees| == |Push(stack, c).value| + 1
    ensures forall k :: 0 <= k < |trees| ==> trees[k].WellFormed()
    ensures Weave(trees, Push(stack, c).value) == Weave(ts, stack) + [c]
  {
    var n := |stack|;
    if IsOpen(c) {
      trees := ts + [Empty];
      WeaveSnoc(ts, stack, c, Empty);
    } else if IsClose(c) {
      var o := stack[n - 1];
      var wrapped := Wrap(o, ts[n], c);
      trees := ts[..n - 1] + [Join(ts[n - 1], wrapped)];
      WeaveGrow(ts[..n - 1], stack[..n - 1], ts[n - 1], wrapped);
      SnocTake(ts, n - 1);
    } else {
      trees := ts[..n] + [Join(ts[n], Neutral(c))];
      WeaveGrow(ts[..n], stack, ts[n], Neutral(c));
      SnocTake(ts, n);
    }
  }

  /** What has been read is balanced words separated by the brackets still open. */
  lemma {:induction false} Derive(s: string) returns (trees: seq<Tree>)
    requires Feed(s).Some?
    ensures |trees| == |Feed(s).value| + 1
    ensures forall k :: 0 <= k < |trees| ==> trees[k].WellFormed()
    ensures Weave(trees, Feed(s).value) == s
  {
    if s == "" {
      trees := [Empty];
    } else {
      var c := s[|s| - 1];
      var ts := Derive(s[..|s| - 1]);
      var stack := Feed(s[..|s| - 1]).value;
      trees := DeriveStep(ts, stack, c);
    }
  }

  /** The grammar and the pushdown reading accept the same words. */
  lemma BalancedIffFedToEmpty(s: string)
    ensures Balanced(s) <==> Feed(s) == Some([])
  {
    if Balanced(s) {
      var t: Tree :| t.WellFormed() && t.Word() == s;
      FeedTree("", t);
      assert "" + t.Word() == s;
    }
    if Feed(s) == Some([]) {
      var trees := Derive(s);
      assert trees[0].WellFormed() && trees[0].Word() == s;
    }
  }

  lemma FirstOpen(s: string)
    requires s != "" && IsOpen(s[0])
    ensures Feed(s[..1]) == Some([s[0]])
  {
    assert s[..1] == "" + [s[0]];
    FeedSnoc("", s[0]);
  }

  lemma PrefixSplits(s: string, k: nat, j: nat)
    requires 0 < j < k <= |s|
    ensures s[..1] + s[1..k - 1][..j - 1] == s[..j]
  {}

  lemma StaysUnclosed(s: string, k: nat, t: Tree)
    requires 2 <= k <= |s| && t.WellFormed() && t.Word() == s[1..k - 1] && Feed(s[..1]) == Some([s[0]])
    ensures Unclosed(s, k - 1) && Feed(s[..k - 1]) == Some([s[0]])
  {
    forall j | 0 < j <= k - 1
      ensures Feed(s[..j]).Some? && Feed(s[..j]).value != []
    {
      FeedInsideTree(s[..1], t, j - 1);
      PrefixSplits(s, k, j);
    }
    FeedTree(s[..1], t);
    PrefixSplits(s, k, k - 1);
    assert t.Word()[..k - 2] == t.Word();
  }

  /** The derivation between the two outer brackets. */
  lemma InnerTree(s: string, k: nat) returns (t: Tree)
    requires k <= |s| && Enclosed(s[..k])
    ensures t.WellFormed() && k >= 2 && t.Word() == s[1..k - 1] && Matches(s[0], s[k - 1])
  {
    assert s[..k][1..k - 1] == s[1..k - 1];
    t :| t.WellFormed() && t.Word() == s[1..k - 1];
  }

  lemma EnclosedReturns(s: string, k: nat)
    requires k <= |s| && Enclosed(s[..k])
    ensures FirstReturn(s, k)
  {
    var t := InnerTree(s, k);
    FirstOpen(s);
    StaysUnclosed(s, k, t);
    assert s[..k] == s[..k - 1] + [s[k - 1]];
    FeedSnoc(s[..k - 1], s[k - 1]);
  }

  lemma ReturnEncloses(s: string, k: nat)
    requires k <= |s| && FirstReturn(s, k) && IsOpen(s[0])
    ensures Enclosed(s[..k])
  {
    assert s[..k] == s[..k - 1] + [s[k - 1]];
    FeedSnoc(s[..k - 1], s[k - 1]);
    var trees := Derive(s[..k - 1]);
    var stack := Feed(s[..k - 1]).value;
    assert |stack| == 1;
    var before, o, inner := trees[0].Word(), stack[0], trees[1].Word();
    assert trees[..1] == [trees[0]];
    assert s[..k - 1] == before + [o] + inner;
    assert s[..|before|] == before;
    FeedTree("", trees[0]);
    assert "" + before == before;
    assert before == "";
    assert s[..k][1..k - 1] == inner && trees[1].WellFormed();
  }

  /** A bracketed expression is exactly a word that returns to the empty stack at its end and not before. */
  lemma EnclosedIffFirstReturn(s: string, k: nat)
    requires k <= |s| && s != "" && IsOpen(s[0])
    ensures Enclosed(s[..k]) <==> FirstReturn(s, k)
  {
    if Enclosed(s[..k]) {
      EnclosedReturns(s, k);
    }
    if FirstReturn(s, k) {
      ReturnEncloses(s, k);
    }
  }

  /** From one opening bracket at most one bracketed expression starts. */
  lemma EnclosedPrefixUnique(s: string, j: nat, k: nat)
    requires j <= |s| && k <= |s| && Enclosed(s[..j]) && Enclosed(s[..k])
    ensures j == k
  {
    EnclosedReturns(s, j);
    EnclosedReturns(s, k);
  }

  /** A prefix that starts with an opening bracket is a bracketed expression exactly when it is the
      shortest nonempty balanced prefix. */
  lemma EnclosedIffShortestBalancedPrefix(s: string, k: nat)
    requires 0 < k <= |s| && IsOpen(s[0])
    ensures Enclosed(s[..k]) <==> Balanced(s[..k]) && forall j :: 0 < j < k ==> !Balanced(s[..j])
  {
    EnclosedIffFirstReturn(s, k);
    BalancedIffFedToEmpty(s[..k]);
    forall j | 0 < j < k
      ensures Balanced(s[..j]) <==> Feed(s[..j]) == Some([])
      ensures Feed(s[..k]).Some? ==> Feed(s[..j]).Some?
    {
      BalancedIffFedToEmpty(s[..j]);
      assert s[..k][..j] == s[..j];
      if Feed(s[..j]) == None {
        FailureLasts(s[..k], j);
      }
    }
  }

  // ----- mirror images

  /** s read from right to left, every bracket turned around. */
  function Mirror(s: string): (m: string)
    ensures |m| == |s|
  {
    seq(|s|, i requires 0 <= i < |s| => Flip(s[|s| - 1 - i]))
  }

  lemma MirrorConcat(a: string, b: string)
    ensures Mirror(a + b) == Mirror(b) + Mirror(a)
  {}

  lemma MirrorSnoc(s: string, c: char)
    ensures Mirror(s + [c]) == [Flip(c)] + Mirror(s)
  {
    MirrorConcat(s, [c]);
  }

  lemma MirrorSlice(s: string, a: nat, b: nat)
    requires a <= b <= |s|
    ensures Mirror(s)[|s| - b..|s| - a] == Mirror(s[a..b])
  {
    var m := Mirror(s[a..b]);
    forall i | 0 <= i < b - a
      ensures Mirror(s)[|s| - b..|s| - a][i] == m[i]
    {
      assert m[i] == Flip(s[a..b][b - a - 1 - i]);
    }
  }

  lemma MirrorTwice(s: string)
    ensures Mirror(Mirror(s)) == s
  {
    forall i | 0 <= i < |s|
      ensures Mirror(Mirror(s))[i] == s[i]
    {
      assert Flip(Flip(s[i])) == s[i];
    }
  }

  lemma MirrorWrapped(open: char, inner: string, close: char)
    ensures Mirror([open] + inner + [close]) == [Flip(close)] + Mirror(inner) + [Flip(open)]
  {
    MirrorSnoc([open] + inner, close);
    MirrorConcat([open], inner);
  }

  lemma {:induction false} MirrorTree(t: Tree)
    requires t.WellFormed()
    ensures t.Mirrored().WellFormed() && t.Mirrored().Word() == Mirror(t.Word())
  {
    match t
    case Empty =>
    case Neutral(c) =>
      assert Flip(c) == c;
    case Join(left, right) =>
      MirrorTree(left);
      MirrorTree(right);
      MirrorConcat(left.Word(), right.Word());
    case Wrap(open, inner, close) =>
      MirrorTree(inner);
      MirrorWrapped(open, inner.Word(), close);
  }

  lemma Between(a: char, x: string, b: char)
    ensures var s := [a] + x + [b]; s[0] == a && s[|s| - 1] == b && s[1..|s| - 1] == x
  {}

  lemma WrappedMirrors(open: char, t: Tree, close: char)
    requires t.WellFormed() && Matches(open, close)
    ensures Enclosed(Mirror([open] + t.Word() + [close]))
  {
    MirrorTree(t);
    MirrorWrapped(open, t.Word(), close);
    Between(Flip(close), Mirror(t.Word()), Flip(open));
    assert t.Mirrored().WellFormed() && t.Mirrored().Word() == Mirror(t.Word());
  }

  lemma EnclosedMirrors(s: string)
    requires Enclosed(s)
    ensures Enclosed(Mirror(s))
  {
    var n := |s| - 1;
    var t: Tree :| t.WellFormed() && t.Word() == s[1..n];
    WrappedMirrors(s[0], t, s[n]);
    assert s == [s[0]] + s[1..n] + [s[n]];
  }

  /** Being a bracketed expression does not depend on the reading direction. */
  lemma EnclosedIffMirrorEnclosed(s: string)
    ensures Enclosed(s) <==> Enclosed(Mirror(s))
  {
    if Enclosed(s) { EnclosedMirrors(s); }
    if Enclosed(Mirror(s)) {
      EnclosedMirrors(Mirror(s));
      MirrorTwice(s);
    }
  }
}
