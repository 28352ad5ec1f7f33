/** cpplint's handling of `#if` / `#else` / `#endif` in `NestingState`: a stack of checkpoints of the nesting
    stack. Everything else a line does to the nesting stack is an arbitrary function of it. */
module Preprocessor {
  import opened Chars

  datatype Directive = BeginIf | ElseOrElif | EndIf | NoDirective

  function LeadingWord(s: string): string {
    if s != "" && IsWord(s[0]) then [s[0]] + LeadingWord(s[1..]) else ""
  }

  function DirectiveOf(line: string): Directive {
    var trimmed := TrimLeft(line);
    if trimmed == "" || trimmed[0] != '#' then NoDirective
    else
      var word := LeadingWord(TrimLeft(trimmed[1..]));
      if word == "if" || word == "ifdef" || word == "ifndef" then BeginIf
      else if word == "else" || word == "elif" then ElseOrElif
      else if word == "endif" then EndIf
      else NoDirective
  }

  ghost predicate Reads(line: string, before: string, between: string, word: string, rest: string) {
    && line == before + ("#" + (between + (word + rest))) && Blank(before) && Blank(between)
    && (rest == "" || !IsWord(rest[0]))
  }

  /** `^\s*#\s*(words)\b` */
  ghost predicate Matches(line: string, words: set<string>) {
    exists before, between, word, rest :: Reads(line, before, between, word, rest) && word in words
  }

  predicate AllWord(s: string) {
    forall k :: 0 <= k < |s| ==> IsWord(s[k])
  }

  lemma {:induction false} LeadingWordStops(word: string, rest: string)
    requires AllWord(word) && (rest == "" || !IsWord(rest[0]))
    ensures LeadingWord(word + rest) == word
  {
    if word == "" {
      assert word + rest == rest;
    } else {
      assert (word + rest)[1..] == word[1..] + rest;
      LeadingWordStops(word[1..], rest);
    }
  }

  lemma {:induction false} LeadingWordLeaves(s: string) returns (rest: string)
    ensures s == LeadingWord(s) + rest && (rest == "" || !IsWord(rest[0]))
  {
    if s != "" && IsWord(s[0]) {
      rest := LeadingWordLeaves(s[1..]);
      assert s == [s[0]] + s[1..];
    } else {
      rest := s;
    }
  }

  /** The word of a directive, if the line has the form of one. */
  function DirectiveWord(line: string): Option<string> {
    var trimmed := TrimLeft(line);
    if trimmed == "" || trimmed[0] != '#' then None else Some(LeadingWord(TrimLeft(trimmed[1..])))
  }

  lemma WordIsRead(line: string, before: string, between: string, word: string, rest: string)
    requires Reads(line, before, between, word, rest) && word != "" && AllWord(word)
    ensures DirectiveWord(line) == Some(word)
  {
    var tail := between + (word + rest);
    TrimLeftSkips(before, "#" + tail);
    assert ("#" + tail)[1..] == tail;
    assert !IsSpace(word[0]) && (word + rest)[0] == word[0];
    TrimLeftSkips(between, word + rest);
    LeadingWordStops(word, rest);
  }

  lemma ReadIsWord(line: string) returns (before: string, between: string, rest: string)
    requires DirectiveWord(line).Some?
    ensures Reads(line, before, between, DirectiveWord(line).value, rest)
  {
    before := TrimLeftLeaves(line);
    var trimmed := TrimLeft(line);
    between := TrimLeftLeaves(trimmed[1..]);
    rest := LeadingWordLeaves(TrimLeft(trimmed[1..]));
    assert trimmed == "#" + trimmed[1..];
  }

  /** A line has one of the words, none of them empty, exactly if it matches the expression. */
  lemma MatchesIffWord(line: string, words: set<string>)
    requires forall w :: w in words ==> w != "" && AllWord(w)
    ensures Matches(line, words) <==> DirectiveWord(line).Some? && DirectiveWord(line).value in words
  {
    if Matches(line, words) {
      var before, between, word, rest :| Reads(line, before, between, word, rest) && word in words;
      WordIsRead(line, before, between, word, rest);
    }
    if DirectiveWord(line).Some? {
      var before, between, rest := ReadIsWord(line);
    }
  }

  /** The three regular expressions of `UpdatePreprocessor`. */
  lemma DirectiveIs(line: string)
    ensures DirectiveOf(line) == BeginIf <==> Matches(line, {"if", "ifdef", "ifndef"})
    ensures DirectiveOf(line) == ElseOrElif <==> Matches(line, {"else", "elif"})
    ensures DirectiveOf(line) == EndIf <==> Matches(line, {"endif"})
  {
    MatchesIffWord(line, {"if", "ifdef", "ifndef"});
    MatchesIffWord(line, {"else", "elif"});
    MatchesIffWord(line, {"endif"});
  }

  datatype Checkpoint<T> = Checkpoint(stackBeforeIf: seq<T>, stackBeforeElse: seq<T>, seenElse: bool)

  datatype State<T> = State(stack: seq<T>, checkpoints: seq<Checkpoint<T>>)

  /** A line of the file: its text, and what the rest of `Update` makes of the nesting stack on it. */
  datatype Line<!T> = Line(text: string, effect: seq<T> -> seq<T>)

  function UpdateCheckpoints<T>(s: State<T>, d: Directive): State<T> {
    var n := |s.checkpoints|;
    match d
    case BeginIf => s.(checkpoints := s.checkpoints + [Checkpoint(s.stack, [], false)])
    case ElseOrElif =>
      if n == 0 then s
      else
        var top := s.checkpoints[n - 1];
        var seen := if top.seenElse then top else top.(seenElse := true, stackBeforeElse := s.stack);
        State(top.stackBeforeIf, s.checkpoints[n - 1 := seen])
    case EndIf =>
      if n == 0 then s
      else
        var top := s.checkpoints[n - 1];
        State(if top.seenElse then top.stackBeforeElse else s.stack, s.checkpoints[..n - 1])
    case NoDirective => s
  }

  function Step<T>(s: State<T>, line: Line<T>): State<T> {
    var t := UpdateCheckpoints(s, DirectiveOf(line.text));
    t.(stack := line.effect(t.stack))
  }

  function Run<T>(s: State<T>, lines: seq<Line<T>>): State<T> {
    if lines == [] then s else Step(Run(s, lines[..|lines| - 1]), lines[|lines| - 1])
  }

  // ----- which lines count: those in no alternative branch

  /** For each conditional open after the lines, outermost first: has an alternative branch begun? */
  function Branches<T>(lines: seq<Line<T>>): seq<bool> {
    if lines == [] then []
    else
      var open := Branches(lines[..|lines| - 1]);
      var n := |open|;
      match DirectiveOf(lines[|lines| - 1].text)
      case BeginIf => open + [false]
      case ElseOrElif => if n == 0 then open else open[n - 1 := true]
      case EndIf => if n == 0 then open else open[..n - 1]
      case NoDirective => open
  }

  /** The lines outside all alternative branches: of every conditional only `#if` up to the first `#elif`
      or `#else`, and its `#endif`. */
  function Kept<T>(lines: seq<Line<T>>): seq<Line<T>> {
    if lines == [] then []
    else
      var n := |lines| - 1;
      if true in Branches(lines) then Kept(lines[..n]) else Kept(lines[..n]) + [lines[n]]
  }

  /** What the lines do to the stack when directives are ignored. */
  function Apply<T>(lines: seq<Line<T>>, stack: seq<T>): seq<T> {
    if lines == [] then stack
    else lines[|lines| - 1].effect(Apply(lines[..|lines| - 1], stack))
  }

  /** Every `#else`, `#elif` and `#endif` belongs to an open `#if`. */
  ghost predicate NoStray<T>(lines: seq<Line<T>>) {
    forall k :: 0 <= k < |lines| && DirectiveOf(lines[k].text) in {ElseOrElif, EndIf} ==> Branches(lines[..k]) != []
  }

  ghost predicate ProperlyNested<T>(lines: seq<Line<T>>) {
    NoStray(lines) && Branches(lines) == []
  }

  function ResumedFrom<T>(s: State<T>, k: nat): seq<T>
    requires k <= |s.checkpoints|
    decreases |s.checkpoints| - k
  {
    if k == |s.checkpoints| then s.stack
    else if s.checkpoints[k].seenElse then s.checkpoints[k].stackBeforeElse
    else ResumedFrom(s, k + 1)
  }

  /** The stack to continue with after the open conditionals: if some alternative branch is being read, the
      stack saved before the outermost one. */
  function Resumed<T>(s: State<T>): seq<T> {
    ResumedFrom(s, 0)
  }

  lemma {:induction false} ResumedAt<T>(s: State<T>, from: nat, k: nat)
    requires from <= k <= |s.checkpoints|
    requires forall j :: from <= j < k ==> !s.checkpoints[j].seenElse
    ensures ResumedFrom(s, from) == ResumedFrom(s, k)
    decreases k - from
  {
    if from < k {
      ResumedAt(s, from + 1, k);
    }
  }

  /** Only the checkpoints up to the outermost alternative branch matter. */
  lemma ResumedDependsOn<T>(s: State<T>, k: nat)
    requires k < |s.checkpoints| && s.checkpoints[k].seenElse
    requires forall j :: 0 <= j < k ==> !s.checkpoints[j].seenElse
    ensures Resumed(s) == s.checkpoints[k].stackBeforeElse
  {
    ResumedAt(s, 0, k);
  }

  lemma ResumedIsStack<T>(s: State<T>)
    requires forall j :: 0 <= j < |s.checkpoints| ==> !s.checkpoints[j].seenElse
    ensures Resumed(s) == s.stack
  {
    ResumedAt(s, 0, |s.checkpoints|);
  }

  /** The checkpoints record exactly the open conditionals. */
  ghost predicate Records<T>(s: State<T>, open: seq<bool>) {
    |s.checkpoints| == |open| && forall k :: 0 <= k < |open| ==> s.checkpoints[k].seenElse == open[k]
  }

  lemma FirstTrue(open: seq<bool>) returns (k: nat)
    requires true in open
    ensures k < |open| && open[k] && forall j :: 0 <= j < k ==> !open[j]
  {
    k := 0;
    while !open[k]
      invariant k < |open| && forall j :: 0 <= j < k ==> !open[j]
      decreases |open| - k
    {
      assert exists j :: k < j < |open| && open[j];
      k := k + 1;
    }
  }

  lemma StepResumes<T>(s: State<T>, line: Line<T>, open: seq<bool>, next: seq<bool>)
    requires Records(s, open) && Records(Step(s, line), next)
    requires match DirectiveOf(line.text)
      case BeginIf => next == open + [false]
      case ElseOrElif => next == if open == [] then open else open[|open| - 1 := true]
      case EndIf => next == if open == [] then open else open[..|open| - 1]
      case NoDirective => next == open
    ensures Resumed(Step(s, line)) == if true in next then Resumed(s) else line.effect(Resumed(s))
  {
    var t := Step(s, line);
    if true in open {
      var k := FirstTrue(open);
      ResumedDependsOn(s, k);
      if k < |next| {
        assert next[k];
        ResumedDependsOn(t, k);
      } else {
        assert next == open[..k];
        ResumedIsStack(t);
      }
    } else {
      ResumedIsStack(s);
      if true in next {
        assert next[|next| - 1];
        ResumedDependsOn(t, |next| - 1);
      } else {
        assert open != [] ==> !open[|open| - 1] && (DirectiveOf(line.text) == ElseOrElif ==> next[|open| - 1]);
        ResumedIsStack(t);
      }
    }
  }

  /** Main result, for every file, well nested or not: after any lines the checkpoints mirror the open
      conditionals, and the stack to continue with is what the lines outside all alternative branches alone
      make of the initial stack. */
  lemma {:induction false} RunKeepsFirstBranches<T>(stack: seq<T>, lines: seq<Line<T>>)
    ensures Records(Run(State(stack, []), lines), Branches(lines))
    ensures Resumed(Run(State(stack, []), lines)) == Apply(Kept(lines), stack)
    ensures true !in Branches(lines) ==> Run(State(stack, []), lines).stack == Apply(Kept(lines), stack)
  {
    var s := Run(State(stack, []), lines);
    if lines != [] {
      var n := |lines| - 1;
      RunKeepsFirstBranches(stack, lines[..n]);
      StepResumes(Run(State(stack, []), lines[..n]), lines[n], Branches(lines[..n]), Branches(lines));
      if true !in Branches(lines) {
        assert Kept(lines)[..|Kept(lines)| - 1] == Kept(lines[..n]);
      }
    }
    if true !in Branches(lines) {
      ResumedIsStack(s);
    }
  }

  lemma StepAbove<T>(r: State<T>, outer: seq<Checkpoint<T>>, line: Line<T>)
    requires DirectiveOf(line.text) in {ElseOrElif, EndIf} ==> r.checkpoints != []
    ensures var t := Step(r, line);
      Step(State(r.stack, outer + r.checkpoints), line) == State(t.stack, outer + t.checkpoints)
  {
    var all, n := outer + r.checkpoints, |r.checkpoints|;
    match DirectiveOf(line.text)
    case BeginIf =>
      var c := Checkpoint(r.stack, [], false);
      assert all + [c] == outer + (r.checkpoints + [c]);
    case ElseOrElif =>
      var c := Step(r, line).checkpoints[n - 1];
      assert all[|all| - 1 := c] == outer + r.checkpoints[n - 1 := c];
    case EndIf =>
      assert all[..|all| - 1] == outer + r.checkpoints[..n - 1];
    case NoDirective =>
  }

  /** Lines without stray directives never look at the checkpoints that were there before. */
  lemma {:induction false} OuterCheckpointsUntouched<T>(s: State<T>, lines: seq<Line<T>>)
    requires NoStray(lines)
    ensures var r := Run(State(s.stack, []), lines); Run(s, lines) == State(r.stack, s.checkpoints + r.checkpoints)
  {
    if lines == [] {
      assert s.checkpoints + [] == s.checkpoints;
    } else {
      var n := |lines| - 1;
      assert forall k :: 0 <= k < n ==> lines[..n][..k] == lines[..k];
      OuterCheckpointsUntouched(s, lines[..n]);
      RunKeepsFirstBranches(s.stack, lines[..n]);
      StepAbove(Run(State(s.stack, []), lines[..n]), s.checkpoints, lines[n]);
    }
  }

  /** A properly nested stretch of lines, met in any state, restores the checkpoints and does to the stack
      what the first branches of its conditionals do. */
  lemma NestedLinesTakeFirstBranches<T>(s: State<T>, lines: seq<Line<T>>)
    requires ProperlyNested(lines)
    ensures Run(s, lines) == s.(stack := Apply(Kept(lines), s.stack))
  {
    OuterCheckpointsUntouched(s, lines);
    RunKeepsFirstBranches(s.stack, lines);
    assert s.checkpoints + [] == s.checkpoints;
  }

  // ----- where the stack of every line comes from

  /** An open conditional: the positions of its `#if` and of its first `#elif` or `#else`. */
  datatype Open = Open(begin: nat, alternative: Option<nat>) {
    predicate Within(n: nat) {
      begin < n && alternative.GetOr(0) < n
    }

    /** With an alternative at line n, unless there has been one before. */
    function WithAlternative(n: nat): Open {
      if alternative.Some? then this else Open(begin, Some(n))
    }
  }

  /** What a directive at line n makes of the open conditionals. */
  function OpensNext(open: seq<Open>, n: nat, d: Directive): seq<Open> {
    var last := |open| - 1;
    match d
    case BeginIf => open + [Open(n, None)]
    case ElseOrElif => if open == [] then open else open[last := open[last].WithAlternative(n)]
    case EndIf => if open == [] then open else open[..last]
    case NoDirective => open
  }

  /** The conditionals open after the lines, outermost first. */
  function Opens<T>(lines: seq<Line<T>>): (open: seq<Open>)
    ensures forall k :: 0 <= k < |open| ==> open[k].Within(|lines|)
  {
    if lines == [] then []
    else
      var n := |lines| - 1;
      OpensNext(Opens(lines[..n]), n, DirectiveOf(lines[n].text))
  }

  /** How many lines lie before the point whose stack the last line goes on with: an alternative starts over
      where its `#if` stood; the `#endif` of a conditional with alternatives goes on where the first of them
      stood. */
  function GoesOnFrom<T>(lines: seq<Line<T>>): (m: nat)
    requires lines != []
    ensures m < |lines|
  {
    var n := |lines| - 1;
    var open := Opens(lines[..n]);
    match DirectiveOf(lines[n].text)
    case ElseOrElif => if open == [] then n else open[|open| - 1].begin
    case EndIf => if open == [] then n else open[|open| - 1].alternative.GetOr(n)
    case _ => n
  }

  /** The lines that make the current stack, also inside alternative branches. */
  function Path<T>(lines: seq<Line<T>>): seq<Line<T>>
    decreases |lines|
  {
    if lines == [] then [] else Path(lines[..GoesOnFrom(lines)]) + [lines[|lines| - 1]]
  }

  /** The checkpoint holds the stacks from the places where its conditional and its first alternative began. */
  ghost predicate Recalls<T>(stack: seq<T>, lines: seq<Line<T>>, c: Checkpoint<T>, o: Open) {
    && o.Within(|lines|) && c.stackBeforeIf == Run(State(stack, []), lines[..o.begin]).stack
    && (c.seenElse <==> o.alternative.Some?)
    && (c.seenElse ==> c.stackBeforeElse == Run(State(stack, []), lines[..o.alternative.value]).stack)
  }

  lemma RecallsLonger<T>(stack: seq<T>, lines: seq<Line<T>>, n: nat, c: Checkpoint<T>, o: Open)
    requires n <= |lines| && Recalls(stack, lines[..n], c, o)
    ensures Recalls(stack, lines, c, o)
  {
    assert lines[..n][..o.begin] == lines[..o.begin];
    if o.alternative.Some? {
      assert lines[..n][..o.alternative.value] == lines[..o.alternative.value];
    }
  }

  ghost predicate AllRecall<T>(stack: seq<T>, lines: seq<Line<T>>, cs: seq<Checkpoint<T>>, open: seq<Open>) {
    |cs| == |open| && forall k :: 0 <= k < |open| ==> Recalls(stack, lines, cs[k], open[k])
  }

  lemma AllRecallLonger<T>(stack: seq<T>, lines: seq<Line<T>>, n: nat, cs: seq<Checkpoint<T>>, open: seq<Open>)
    requires n <= |lines| && AllRecall(stack, lines[..n], cs, open)
    ensures AllRecall(stack, lines, cs, open)
  {
    forall k | 0 <= k < |open|
      ensures Recalls(stack, lines, cs[k], open[k])
    {
      RecallsLonger(stack, lines, n, cs[k], open[k]);
    }
  }

  lemma RecallOneMore<T>(stack: seq<T>, lines: seq<Line<T>>, cs: seq<Checkpoint<T>>, open: seq<Open>,
                         c: Checkpoint<T>, o: Open)
    requires AllRecall(stack, lines, cs, open) && Recalls(stack, lines, c, o)
    ensures AllRecall(stack, lines, cs + [c], open + [o])
  {}

  lemma RecallChanged<T>(stack: seq<T>, lines: seq<Line<T>>, cs: seq<Checkpoint<T>>, open: seq<Open>,
                         c: Checkpoint<T>, o: Open)
    requires AllRecall(stack, lines, cs, open) && open != [] && Recalls(stack, lines, c, o)
    ensures AllRecall(stack, lines, cs[|cs| - 1 := c], open[|open| - 1 := o])
  {}

  lemma AlternativeRecalls<T>(stack: seq<T>, lines: seq<Line<T>>, n: nat, c: Checkpoint<T>, o: Open)
    requires n < |lines| && Recalls(stack, lines, c, o)
    ensures var seen := if c.seenElse then c
                        else c.(seenElse := true, stackBeforeElse := Run(State(stack, []), lines[..n]).stack);
      Recalls(stack, lines, seen, o.WithAlternative(n))
  {}

  lemma StepRecalls<T>(stack: seq<T>, lines: seq<Line<T>>, n: nat, s: State<T>, open: seq<Open>, d: Directive)
    requires n < |lines| && s.stack == Run(State(stack, []), lines[..n]).stack
    requires AllRecall(stack, lines, s.checkpoints, open)
    ensures AllRecall(stack, lines, UpdateCheckpoints(s, d).checkpoints, OpensNext(open, n, d))
  {
    match d
    case BeginIf =>
      RecallOneMore(stack, lines, s.checkpoints, open, Checkpoint(s.stack, [], false), Open(n, None));
    case ElseOrElif =>
      if open != [] {
        var c, o := s.checkpoints[|open| - 1], open[|open| - 1];
        var seen := if c.seenElse then c else c.(seenElse := true, stackBeforeElse := s.stack);
        AlternativeRecalls(stack, lines, n, c, o);
        RecallChanged(stack, lines, s.checkpoints, open, seen, o.WithAlternative(n));
      }
    case EndIf =>
    case NoDirective =>
  }

  lemma {:induction false} CheckpointsRecall<T>(stack: seq<T>, lines: seq<Line<T>>)
    ensures AllRecall(stack, lines, Run(State(stack, []), lines).checkpoints, Opens(lines))
  {
    if lines != [] {
      var n := |lines| - 1;
      var s := Run(State(stack, []), lines[..n]);
      CheckpointsRecall(stack, lines[..n]);
      AllRecallLonger(stack, lines, n, s.checkpoints, Opens(lines[..n]));
      StepRecalls(stack, lines, n, s, Opens(lines[..n]), DirectiveOf(lines[n].text));
    }
  }

  lemma StepGoesOn<T>(s: State<T>, line: Line<T>)
    ensures var n := |s.checkpoints|;
      Step(s, line).stack == line.effect(
        match DirectiveOf(line.text)
        case ElseOrElif => if n == 0 then s.stack else s.checkpoints[n - 1].stackBeforeIf
        case EndIf => if n > 0 && s.checkpoints[n - 1].seenElse then s.checkpoints[n - 1].stackBeforeElse else s.stack
        case _ => s.stack)
  {}

  /** The stack after a line is what the line makes of the stack at that point. */
  lemma StackGoesOn<T>(stack: seq<T>, lines: seq<Line<T>>)
    requires lines != []
    ensures Run(State(stack, []), lines).stack ==
            lines[|lines| - 1].effect(Run(State(stack, []), lines[..GoesOnFrom(lines)]).stack)
  {
    var n := |lines| - 1;
    var s, open := Run(State(stack, []), lines[..n]), Opens(lines[..n]);
    StepGoesOn(s, lines[n]);
    CheckpointsRecall(stack, lines[..n]);
    if open != [] {
      RecallsLonger(stack, lines, n, s.checkpoints[|open| - 1], open[|open| - 1]);
    }
  }

  /** For every file, and at every line of it: the current stack is what the lines on the path make of the
      initial one. */
  lemma {:induction false} StackFollowsPath<T>(stack: seq<T>, lines: seq<Line<T>>)
    ensures Run(State(stack, []), lines).stack == Apply(Path(lines), stack)
    decreases |lines|
  {
    if lines != [] {
      var m := GoesOnFrom(lines);
      StackGoesOn(stack, lines);
      StackFollowsPath(stack, lines[..m]);
      assert Path(lines)[..|Path(lines)| - 1] == Path(lines[..m]);
    }
  }

  /** How many conditionals are open. */
  function Depth<T>(lines: seq<Line<T>>): nat {
    |Branches(lines)|
  }

  /** The innermost open conditional began at line b: no deeper one is open, and it has been open since. */
  ghost predicate Innermost<T>(lines: seq<Line<T>>, b: nat) {
    && b < |lines| && Depth(lines) == Depth(lines[..b]) + 1
    && forall k :: b < k <= |lines| ==> Depth(lines[..k]) > Depth(lines[..b])
  }

  ghost predicate OpenSince<T>(lines: seq<Line<T>>, b: nat, depth: nat) {
    b < |lines| && Depth(lines[..b]) == depth && forall k :: b < k <= |lines| ==> Depth(lines[..k]) > depth
  }

  lemma StaysOpen<T>(lines: seq<Line<T>>, b: nat, depth: nat)
    requires lines != [] && OpenSince(lines[..|lines| - 1], b, depth) && Depth(lines) > depth
    ensures OpenSince(lines, b, depth)
  {
    var n := |lines| - 1;
    assert lines[..n][..b] == lines[..b] && lines[..|lines|] == lines;
    forall k | b < k <= n
      ensures Depth(lines[..k]) > depth
    {
      assert lines[..n][..k] == lines[..k];
    }
  }

  lemma JustOpened<T>(lines: seq<Line<T>>)
    requires lines != [] && DirectiveOf(lines[|lines| - 1].text) == BeginIf
    ensures OpenSince(lines, |lines| - 1, Depth(lines[..|lines| - 1]))
  {
    assert lines[..|lines|] == lines;
  }

  lemma {:induction false} OpensAreOpen<T>(lines: seq<Line<T>>)
    ensures |Opens(lines)| == Depth(lines)
    ensures forall k :: 0 <= k < |Opens(lines)| ==> OpenSince(lines, Opens(lines)[k].begin, k)
  {
    if lines != [] {
      var n := |lines| - 1;
      OpensAreOpen(lines[..n]);
      forall k | 0 <= k < |Opens(lines)|
        ensures OpenSince(lines, Opens(lines)[k].begin, k)
      {
        if k < |Opens(lines[..n])| {
          assert Opens(lines)[k].begin == Opens(lines[..n])[k].begin;
          StaysOpen(lines, Opens(lines)[k].begin, k);
        } else {
          JustOpened(lines);
        }
      }
    }
  }

  /** The example of the source, in general: whatever stands in the branches before, an alternative goes on
      with the stack from before the `#if` line. */
  lemma AlternativeStartsOver<T>(stack: seq<T>, lines: seq<Line<T>>, b: nat, e: Line<T>)
    requires Innermost(lines, b) && DirectiveOf(e.text) == ElseOrElif
    ensures Run(State(stack, []), lines + [e]).stack == e.effect(Run(State(stack, []), lines[..b]).stack)
  {
    var all := lines + [e];
    OpensAreOpen(lines);
    assert all[..|lines|] == lines;
    var begin := Opens(lines)[|Opens(lines)| - 1].begin;
    assert OpenSince(lines, begin, |Opens(lines)| - 1);
    assert lines[..|lines|] == lines;
    assert begin == b;
    StackGoesOn(stack, all);
    assert all[..b] == lines[..b];
  }

  class NestingState<T> {
    var stack: seq<T>
    var ppStack: seq<Checkpoint<T>>

    function Current(): State<T>
      reads this
    {
      State(stack, ppStack)
    }

    constructor ()
      ensures Current() == State([], [])
    {
      stack, ppStack := [], [];
    }

    method UpdatePreprocessor(line: string)
      modifies this
      ensures Current() == UpdateCheckpoints(old(Current()), DirectiveOf(line))
    {
      var n := |ppStack|;
      match DirectiveOf(line)
      case BeginIf =>
        ppStack := ppStack + [Checkpoint(stack, [], false)];
      case ElseOrElif =>
        if ppStack != [] {
          if !ppStack[n - 1].seenElse {
            ppStack := ppStack[n - 1 := ppStack[n - 1].(seenElse := true)];
            ppStack := ppStack[n - 1 := ppStack[n - 1].(stackBeforeElse := stack)];
          }
          stack := ppStack[n - 1].stackBeforeIf;
        }
      case EndIf =>
        if ppStack != [] {
          if ppStack[n - 1].seenElse {
            stack := ppStack[n - 1].stackBeforeElse;
          }
          ppStack := ppStack[..n - 1];
        }
      case NoDirective =>
    }

    method Update(line: Line<T>)
      modifies this
      ensures Current() == Step(old(Current()), line)
    {
      UpdatePreprocessor(line.text);
      stack := line.effect(stack);
    }

    method UpdateAll(lines: seq<Line<T>>)
      modifies this
      ensures Current() == Run(old(Current()), lines)
      ensures ProperlyNested(lines) ==> Current() == old(Current()).(stack := Apply(Kept(lines), old(stack)))
      ensures old(ppStack) == [] ==> stack == Apply(Path(lines), old(stack))
    {
      var start := Current();
      for i := 0 to |lines|
        invariant Current() == Run(start, lines[..i])
      {
        assert lines[..i + 1][..i] == lines[..i];
        Update(lines[i]);
      }
      assert lines[..|lines|] == lines;
      if ProperlyNested(lines) {
        NestedLinesTakeFirstBranches(start, lines);
      }
      StackFollowsPath(start.stack, lines);
    }
  }

  /** An `#else`, `#elif` or `#endif` without an `#if` changes nothing. */
  lemma StrayDirectiveIgnored<T>(s: State<T>, line: Line<T>)
    requires s.checkpoints == [] && DirectiveOf(line.text) != BeginIf
    ensures Step(s, line) == s.(stack := line.effect(s.stack))
  {}
}
