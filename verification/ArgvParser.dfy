/** cxxopts' `Options::parse`: it walks over argv, acts on the flags, and moves the arguments it does not use
    to the front of the same array. How an argument is recognised as a flag, and which texts an option accepts
    as its value, is left open. */
module ArgvParser {
  import opened Chars

  /** What the regular expression for options makes of an argument. */
  datatype Form = NoFlag | ShortFlags(names: string) | LongFlag(name: string, value: string)

  datatype Spec = Spec(hasArg: bool, hasImplicit: bool)

  datatype Setup = Setup(
    options: map<string, Spec>,
    positional: string,
    form: string -> Form,
    accepts: (string, string) -> bool)

  datatype Failure =
    | OptionNotExists(name: string)
    | MissingArgument(name: string)
    | RequiresArgument(name: string)
    | TakesNoArgument(name: string, value: string)
    | IncorrectValue(name: string, value: string)

  /** An option has been parsed with a text; this is what changes the option's value and count. */
  datatype Event = Event(name: string, value: string)

  /** What one argument leads to: the options parsed, whether the next argument was used up as a value, and a
      failure that ends the parse. */
  datatype Effect = Effect(events: seq<Event>, tookNext: bool, failure: Option<Failure>)

  function ParseOption(setup: Setup, name: string, value: string): Effect {
    if setup.accepts(name, value) then Effect([Event(name, value)], false, None)
    else Effect([], false, Some(IncorrectValue(name, value)))
  }

  predicate StartsWithDash(s: string) {
    s != "" && s[0] == '-'
  }

  /** Does an option that needs a value and has none in its own argument take the next argument? */
  predicate TakesNext(next: Option<string>, spec: Spec) {
    next.Some? && !(StartsWithDash(next.value) && spec.hasImplicit)
  }

  function CheckedParse(setup: Setup, next: Option<string>, name: string, spec: Spec): Effect {
    if TakesNext(next, spec) then ParseOption(setup, name, next.value).(tookNext := true)
    else if spec.hasImplicit then ParseOption(setup, name, "")
    else Effect([], false, Some(MissingArgument(name)))
  }

  /** The k-th letter of a group of short flags. */
  function ShortFlag(setup: Setup, next: Option<string>, names: string, k: nat): Effect
    requires k < |names|
  {
    var name := [names[k]];
    if name !in setup.options then Effect([], false, Some(OptionNotExists(name)))
    else
      var spec := setup.options[name];
      if !spec.hasArg then ParseOption(setup, name, "")
      else if k + 1 == |names| then CheckedParse(setup, next, name, spec)
      else if spec.hasImplicit then ParseOption(setup, name, "")
      else Effect([], false, Some(RequiresArgument(name)))
  }

  /** The letters of a group before letter k. */
  function ShortFlagsUpTo(setup: Setup, next: Option<string>, names: string, k: nat): Effect
    requires k <= |names|
  {
    if k == 0 then Effect([], false, None)
    else
      var before := ShortFlagsUpTo(setup, next, names, k - 1);
      if before.failure.Some? then before
      else
        var last := ShortFlag(setup, next, names, k - 1);
        last.(events := before.events + last.events)
  }

  function LongOption(setup: Setup, next: Option<string>, name: string, value: string): Effect {
    if name !in setup.options then Effect([], false, Some(OptionNotExists(name)))
    else
      var spec := setup.options[name];
      if value != "" then
        if !spec.hasArg then Effect([], false, Some(TakesNoArgument(name, value)))
        else ParseOption(setup, name, value)
      else if spec.hasArg then CheckedParse(setup, next, name, spec)
      else ParseOption(setup, name, "")
  }

  function Positional(setup: Setup, arg: string): Effect {
    if setup.positional == "" then Effect([], false, None)
    else if setup.positional !in setup.options then Effect([], false, Some(OptionNotExists(setup.positional)))
    else ParseOption(setup, setup.positional, arg)
  }

  function EffectOf(setup: Setup, arg: string, next: Option<string>): Effect {
    match setup.form(arg)
    case NoFlag => Positional(setup, arg)
    case ShortFlags(names) => ShortFlagsUpTo(setup, next, names, |names|)
    case LongFlag(name, value) => LongOption(setup, next, name, value)
  }

  function NextArg(args: seq<string>, current: nat): Option<string> {
    if current + 1 < |args| then Some(args[current + 1]) else None
  }

  lemma {:induction false} ShortTookNextExists(setup: Setup, next: Option<string>, names: string, k: nat)
    requires k <= |names|
    ensures ShortFlagsUpTo(setup, next, names, k).tookNext ==> k == |names| && next.Some?
  {
    if k > 0 {
      ShortTookNextExists(setup, next, names, k - 1);
    }
  }

  /** An argument that is used up as a value exists. */
  lemma TookNextExists(setup: Setup, arg: string, next: Option<string>)
    ensures EffectOf(setup, arg, next).tookNext ==> next.Some?
  {
    match setup.form(arg)
    case ShortFlags(names) => ShortTookNextExists(setup, next, names, |names|);
    case _ =>
  }

  function EffectAt(setup: Setup, args: seq<string>, current: nat): (e: Effect)
    requires current < |args|
    ensures e.tookNext ==> current + 1 < |args|
  {
    TookNextExists(setup, args[current], NextArg(args, current));
    EffectOf(setup, args[current], NextArg(args, current))
  }

  predicate IsKept(setup: Setup, arg: string) {
    setup.form(arg) == NoFlag && setup.positional == ""
  }

  /** How many arguments are used up. */
  function Stride(e: Effect): nat {
    if e.tookNext then 2 else 1
  }

  /** The outcome of parsing the arguments from `current` on: the arguments kept and the options parsed. */
  datatype Outcome = Outcome(kept: seq<string>, events: seq<Event>, failure: Option<Failure>)

  function KeptHere(setup: Setup, arg: string): seq<string> {
    if IsKept(setup, arg) then [arg] else []
  }

  function Before(kept: seq<string>, events: seq<Event>, rest: Outcome): Outcome {
    Outcome(kept + rest.kept, events + rest.events, rest.failure)
  }

  function Walk(setup: Setup, args: seq<string>, current: nat): Outcome
    requires current <= |args|
    decreases |args| - current
  {
    if current == |args| then Outcome([], [], None)
    else
      var e := EffectAt(setup, args, current);
      if e.failure.Some? then Outcome([], e.events, e.failure)
      else Before(KeptHere(setup, args[current]), e.events, Walk(setup, args, current + Stride(e)))
  }

  lemma BeforeTwice(k: seq<string>, e: seq<Event>, k': seq<string>, e': seq<Event>, rest: Outcome)
    ensures Before(k, e, Before(k', e', rest)) == Before(k + k', e + e', rest)
  {
    Glue(k, k', rest.kept);
    Glue(e, e', rest.events);
  }

  // ----- the methods

  /** The letters before letter k of a group have been acted on. */
  ghost predicate Acted(setup: Setup, next: Option<string>, names: string, k: nat, start: seq<Event>,
                        events: seq<Event>) {
    k <= |names| && events == start + ShortFlagsUpTo(setup, next, names, k).events
  }

  lemma ActedNext(setup: Setup, next: Option<string>, names: string, k: nat, start: seq<Event>, events: seq<Event>)
    requires k < |names| && Acted(setup, next, names, k, start, events)
    requires ShortFlagsUpTo(setup, next, names, k).failure == None
    ensures Acted(setup, next, names, k + 1, start, events + ShortFlag(setup, next, names, k).events)
  {
    Glue(start, ShortFlagsUpTo(setup, next, names, k).events, ShortFlag(setup, next, names, k).events);
  }

  /** The kept arguments stand in front, behind the program name; everything else is as it was. */
  ghost predicate Compacted(was: seq<string>, now: seq<string>, kept: seq<string>, end: nat) {
    && |now| == |was| && end == 1 + |kept|
    && forall k :: 0 <= k < |was| ==> now[k] == if 1 <= k < end then kept[k - 1] else was[k]
  }

  lemma CompactedNext(was: seq<string>, now: seq<string>, next: seq<string>, kept: seq<string>, end: nat, current: nat)
    requires Compacted(was, now, kept, end) && end <= current < |was| == |next|
    requires forall k :: 0 <= k < |next| ==> next[k] == if k == end then now[current] else now[k]
    ensures Compacted(was, next, kept + [was[current]], end + 1)
  {}

  /** Arguments not yet read are unchanged. */
  lemma Unread(was: seq<string>, now: seq<string>, kept: seq<string>, end: nat, argc: nat, current: nat)
    requires Compacted(was, now, kept, end) && end <= current < argc <= |was|
    ensures now[current] == was[current] && NextArg(now[..argc], current) == NextArg(was[..argc], current)
  {}

  /** Parsing on from `current`, behind what has been kept and parsed already, leads to the outcome goal. */
  ghost predicate Leads(setup: Setup, args: seq<string>, current: nat, kept: seq<string>, parsed: seq<Event>,
                        goal: Outcome) {
    current <= |args| && goal == Before(kept, parsed, Walk(setup, args, current))
  }

  /** One argument of the walk, behind what has been kept and parsed already. */
  lemma WalkStep(setup: Setup, args: seq<string>, current: nat, kept: seq<string>, parsed: seq<Event>,
                 next: nat, nextKept: seq<string>, nextParsed: seq<Event>, goal: Outcome)
    requires current < |args| && Leads(setup, args, current, kept, parsed, goal)
    requires EffectAt(setup, args, current).failure == None
    requires next == current + Stride(EffectAt(setup, args, current))
    requires nextKept == if IsKept(setup, args[current]) then kept + [args[current]] else kept
    requires nextParsed == parsed + EffectAt(setup, args, current).events
    ensures Leads(setup, args, next, nextKept, nextParsed, goal)
  {
    var e, here := EffectAt(setup, args, current), KeptHere(setup, args[current]);
    BeforeTwice(kept, parsed, here, e.events, Walk(setup, args, next));
    assert kept + [] == kept;
  }

  lemma WalkFails(setup: Setup, args: seq<string>, current: nat, kept: seq<string>, parsed: seq<Event>)
    requires current < |args| && EffectAt(setup, args, current).failure.Some?
    ensures var e := EffectAt(setup, args, current);
      Before(kept, parsed, Walk(setup, args, current)) == Outcome(kept, parsed + e.events, e.failure)
  {
    assert kept + [] == kept;
  }

  lemma WalkBegins(setup: Setup, args: seq<string>, events: seq<Event>)
    requires args != []
    ensures var goal, o := Before([], events, Walk(setup, args, 1)), Walk(setup, args, 1);
      goal.kept == o.kept && goal.events == events + o.events && goal.failure == o.failure
  {}

  lemma WalkEnds(setup: Setup, args: seq<string>, kept: seq<string>, parsed: seq<Event>)
    ensures Before(kept, parsed, Walk(setup, args, |args|)) == Outcome(kept, parsed, None)
  {
    assert kept + [] == kept && parsed + [] == parsed;
  }

  /** A failure at some letter is the failure of the group. */
  lemma {:induction false} FailureLasts(setup: Setup, next: Option<string>, names: string, k: nat, n: nat)
    requires k <= n <= |names|
    ensures ShortFlagsUpTo(setup, next, names, k).failure.Some? ==>
            ShortFlagsUpTo(setup, next, names, n) == ShortFlagsUpTo(setup, next, names, k)
  {
    if k < n {
      FailureLasts(setup, next, names, k, n - 1);
    }
  }

  class Options {
    const setup: Setup
    var events: seq<Event>

    constructor (setup: Setup)
      ensures this.setup == setup && events == []
    {
      this.setup := setup;
      events := [];
    }

    method ParseOne(name: string, value: string) returns (failure: Option<Failure>)
      modifies this
      ensures var e := ParseOption(setup, name, value); events == old(events) + e.events && failure == e.failure
    {
      if !setup.accepts(name, value) {
        return Some(IncorrectValue(name, value));
      }
      events := events + [Event(name, value)];
      return None;
    }

    method CheckedParseArg(argc: nat, argv: array<string>, current: nat, name: string, spec: Spec)
        returns (failure: Option<Failure>, now: nat)
      requires current < argc <= argv.Length
      modifies this
      ensures var e := CheckedParse(setup, NextArg(argv[..argc], current), name, spec);
        && events == old(events) + e.events && failure == e.failure
        && (failure == None ==> now == current + if e.tookNext then 1 else 0)
    {
      now := current;
      if current + 1 >= argc {
        if spec.hasImplicit {
          failure := ParseOne(name, "");
        } else {
          failure := Some(MissingArgument(name));
        }
      } else {
        if StartsWithDash(argv[current + 1]) && spec.hasImplicit {
          failure := ParseOne(name, "");
        } else {
          failure := ParseOne(name, argv[current + 1]);
          if failure == None {
            now := now + 1;
          }
        }
      }
    }

    method ConsumePositional(arg: string) returns (consumed: bool, failure: Option<Failure>)
      modifies this
      ensures var e := Positional(setup, arg); events == old(events) + e.events && failure == e.failure
      ensures consumed == (setup.positional != "")
    {
      if |setup.positional| > 0 {
        consumed := true;
        if setup.positional !in setup.options {
          failure := Some(OptionNotExists(setup.positional));
        } else {
          failure := ParseOne(setup.positional, arg);
        }
      } else {
        consumed, failure := false, None;
      }
    }

    method ParseShort(argc: nat, argv: array<string>, current: nat, names: string)
        returns (failure: Option<Failure>, now: nat)
      requires current < argc <= argv.Length
      modifies this
      ensures var e := ShortFlagsUpTo(setup, NextArg(argv[..argc], current), names, |names|);
        && events == old(events) + e.events && failure == e.failure
        && (failure == None ==> now == current + if e.tookNext then 1 else 0)
    {
      ghost var next := NextArg(argv[..argc], current);
      ghost var start := events;
      now := current;
      failure := None;
      for k := 0 to |names|
        invariant Acted(setup, next, names, k, start, events)
        invariant failure == None == ShortFlagsUpTo(setup, next, names, k).failure
        invariant now == current + if ShortFlagsUpTo(setup, next, names, k).tookNext then 1 else 0
      {
        ShortTookNextExists(setup, next, names, k);
        FailureLasts(setup, next, names, k + 1, |names|);
        ActedNext(setup, next, names, k, start, events);
        var name := [names[k]];
        if name !in setup.options {
          return Some(OptionNotExists(name)), now;
        }
        var spec := setup.options[name];
        if !spec.hasArg {
          failure := ParseOne(name, "");
        } else if k + 1 == |names| {
          failure, now := CheckedParseArg(argc, argv, now, name, spec);
        } else if spec.hasImplicit {
          failure := ParseOne(name, "");
        } else {
          return Some(RequiresArgument(name)), now;
        }
        if failure.Some? {
          return;
        }
      }
    }

    method ParseLong(argc: nat, argv: array<string>, current: nat, name: string, value: string)
        returns (failure: Option<Failure>, now: nat)
      requires current < argc <= argv.Length
      modifies this
      ensures var e := LongOption(setup, NextArg(argv[..argc], current), name, value);
        && events == old(events) + e.events && failure == e.failure
        && (failure == None ==> now == current + if e.tookNext then 1 else 0)
    {
      now := current;
      if name !in setup.options {
        return Some(OptionNotExists(name)), now;
      }
      var spec := setup.options[name];
      if |value| != 0 {
        if !spec.hasArg {
          return Some(TakesNoArgument(name, value)), now;
        }
        failure := ParseOne(name, value);
      } else if spec.hasArg {
        failure, now := CheckedParseArg(argc, argv, now, name, spec);
      } else {
        failure := ParseOne(name, "");
      }
    }

    /** Acts on one argument; keep says that the argument is not used. */
    method ParseArgument(argc: nat, argv: array<string>, current: nat)
        returns (failure: Option<Failure>, now: nat, keep: bool)
      requires current < argc <= argv.Length
      modifies this
      ensures var e := EffectAt(setup, argv[..argc], current);
        && events == old(events) + e.events && failure == e.failure
        && (failure == None ==> now == current + if e.tookNext then 1 else 0)
        && (failure == None ==> keep == IsKept(setup, argv[current]))
    {
      now, keep := current, false;
      TookNextExists(setup, argv[current], NextArg(argv[..argc], current));
      match setup.form(argv[current]) {
        case NoFlag =>
          var consumed;
          consumed, failure := ConsumePositional(argv[current]);
          keep := !consumed;
        case ShortFlags(names) =>
          failure, now := ParseShort(argc, argv, current, names);
        case LongFlag(name, value) =>
          failure, now := ParseLong(argc, argv, current, name, value);
      }
    }

    /** The same, seen as one step of the walk over the original arguments, which leads to goal. */
    method WalkArgument(argc: nat, argv: array<string>, current: nat,
                        ghost args: seq<string>, ghost kept: seq<string>, ghost goal: Outcome)
        returns (failure: Option<Failure>, now: nat, keep: bool)
      requires current < argc == |args| <= argv.Length
      requires argv[current] == args[current] && NextArg(argv[..argc], current) == NextArg(args, current)
      requires Leads(setup, args, current, kept, events, goal)
      modifies this
      ensures if failure.Some? then goal == Outcome(kept, events, failure)
              else
                && Leads(setup, args, now + 1, if keep then kept + [args[current]] else kept, events, goal)
                && current <= now && (keep ==> now == current)
    {
      ghost var parsed := events;
      failure, now, keep := ParseArgument(argc, argv, current);
      if failure.Some? {
        WalkFails(setup, args, current, kept, parsed);
      } else {
        WalkStep(setup, args, current, kept, parsed, now + 1,
                 if keep then kept + [args[current]] else kept, events, goal);
      }
    }

    /** Parses argv[1..argc] and compacts it in place; newArgc is what argc becomes. A failure ends the parse
        with argv compacted as far as it got. */
    method Parse(argc: nat, argv: array<string>) returns (failure: Option<Failure>, newArgc: nat)
      requires 1 <= argc <= argv.Length
      modifies this, argv
      ensures var o := Walk(setup, old(argv[..argc]), 1);
        && failure == o.failure && events == old(events) + o.events
        && Compacted(old(argv[..]), argv[..], o.kept, 1 + |o.kept|)
        && newArgc == (if failure == None then 1 + |o.kept| else argc) && newArgc <= argc
    {
      ghost var was, args := argv[..], argv[..argc];
      ghost var goal := Before([], events, Walk(setup, args, 1));
      ghost var kept: seq<string> := [];
      WalkBegins(setup, args, events);
      var current, nextKeep := 1, 1;
      while current != argc
        invariant 1 <= nextKeep <= current <= argc
        invariant Compacted(was, argv[..], kept, nextKeep)
        invariant Leads(setup, args, current, kept, events, goal)
        decreases argc - current
      {
        ghost var before, now := current, argv[..];
        Unread(was, now, kept, nextKeep, argc, current);
        var keep;
        failure, current, keep := WalkArgument(argc, argv, current, args, kept, goal);
        if failure.Some? {
          return failure, argc;
        }
        if keep {
          argv[nextKeep] := argv[current];
          CompactedNext(was, now, argv[..], kept, nextKeep, before);
          kept := kept + [args[before]];
          nextKeep := nextKeep + 1;
        }
        current := current + 1;
      }
      WalkEnds(setup, args, kept, events);
      return None, nextKeep;
    }
  }

  // ----- what becomes of every argument

  datatype Role = Flag | FlagValue | PositionalValue | Kept

  /** The option needs a value, and the next argument exists and is not refused as a flag. */
  predicate NeedsNext(setup: Setup, args: seq<string>, k: nat, name: string) {
    && name in setup.options && setup.options[name].hasArg && k + 1 < |args|
    && !(setup.options[name].hasImplicit && args[k + 1] != "" && args[k + 1][0] == '-')
  }

  /** Does the flag at position k, whose last option needs a value, take the next argument for it? */
  predicate TakesValue(setup: Setup, args: seq<string>, k: nat)
    requires k < |args|
  {
    match setup.form(args[k])
    case NoFlag => false
    case ShortFlags(names) => names != "" && NeedsNext(setup, args, k, names[|names| - 1..])
    case LongFlag(name, value) => value == "" && NeedsNext(setup, args, k, name)
  }

  /** The role of an argument that is not used up as a value. */
  function OwnRole(setup: Setup, arg: string): Role {
    if setup.form(arg) != NoFlag then Flag
    else if setup.positional != "" then PositionalValue
    else Kept
  }

  /** The role of argument k, when reading started at `from`. */
  ghost predicate RoleFits(setup: Setup, args: seq<string>, from: nat, roles: seq<Role>, k: nat)
    requires from <= k < |args| == |roles|
  {
    roles[k] == if k > from && roles[k - 1] == Flag && TakesValue(setup, args, k - 1) then FlagValue
                else OwnRole(setup, args[k])
  }

  /** roles[k] is the role of args[k], for every argument from `from` up to `to`. */
  ghost predicate Fits(setup: Setup, args: seq<string>, from: nat, to: nat, roles: seq<Role>) {
    from <= to <= |args| == |roles| && forall k :: from <= k < to ==> RoleFits(setup, args, from, roles, k)
  }

  /** The argument at `to`, if there is one, is not used up as a value. */
  predicate ReadsAt(setup: Setup, args: seq<string>, from: nat, to: nat, roles: seq<Role>) {
    from < to <= |args| == |roles| ==> !(roles[to - 1] == Flag && TakesValue(setup, args, to - 1))
  }

  /** The arguments kept, in order. */
  function Select(args: seq<string>, from: nat, to: nat, roles: seq<Role>): seq<string>
    requires from <= to <= |args| == |roles|
    decreases |args| - from
  {
    if from == to then []
    else (if roles[from] == Kept then [args[from]] else []) + Select(args, from + 1, to, roles)
  }

  // ----- which options an argument sets, and what is wrong with it

  /** How many options an argument that is not used up as a value sets. */
  function Uses(setup: Setup, arg: string): nat {
    match setup.form(arg)
    case NoFlag => if setup.positional == "" then 0 else 1
    case ShortFlags(names) => |names|
    case LongFlag(_, _) => 1
  }

  /** The name of the i-th of them. */
  function NameAt(setup: Setup, args: seq<string>, k: nat, i: nat): string
    requires k < |args| && i < Uses(setup, args[k])
  {
    match setup.form(args[k])
    case NoFlag => setup.positional
    case ShortFlags(names) => [names[i]]
    case LongFlag(name, _) => name
  }

  /** Its text: a positional argument itself; the value of a long flag behind '='; the next argument, for the
      last option of a flag that takes it; otherwise nothing. */
  function TextAt(setup: Setup, args: seq<string>, k: nat, i: nat): string
    requires k < |args| && i < Uses(setup, args[k])
  {
    match setup.form(args[k])
    case NoFlag => args[k]
    case ShortFlags(names) => if i + 1 == |names| && TakesValue(setup, args, k) then args[k + 1] else ""
    case LongFlag(_, value) =>
      if value != "" then value else if TakesValue(setup, args, k) then args[k + 1] else ""
  }

  /** The first n options of argument k with their texts. */
  function UseEvents(setup: Setup, args: seq<string>, k: nat, n: nat): (events: seq<Event>)
    requires k < |args| && n <= Uses(setup, args[k])
    ensures |events| == n
  {
    seq(n, i requires 0 <= i < n => Event(NameAt(setup, args, k, i), TextAt(setup, args, k, i)))
  }

  /** The option insists on a value. */
  predicate Insists(setup: Setup, name: string) {
    name in setup.options && setup.options[name].hasArg && !setup.options[name].hasImplicit
  }

  /** The i-th option of argument k exists, is given no value it does not take, and has one it insists on. */
  predicate Suitable(setup: Setup, args: seq<string>, k: nat, i: nat)
    requires k < |args| && i < Uses(setup, args[k])
  {
    var name := NameAt(setup, args, k, i);
    name in setup.options &&
    match setup.form(args[k])
    case NoFlag => true
    case ShortFlags(names) => Insists(setup, name) ==> i + 1 == |names| && k + 1 < |args|
    case LongFlag(_, value) =>
      if value != "" then setup.options[name].hasArg else Insists(setup, name) ==> k + 1 < |args|
  }

  /** f is what is wrong with the i-th option of argument k. */
  predicate Fault(setup: Setup, args: seq<string>, k: nat, i: nat, f: Failure)
    requires k < |args| && i < Uses(setup, args[k])
  {
    var form, name := setup.form(args[k]), NameAt(setup, args, k, i);
    match f
    case OptionNotExists(n) => n == name && n !in setup.options
    case TakesNoArgument(n, v) => form == LongFlag(n, v) && v != "" && n in setup.options && !setup.options[n].hasArg
    case RequiresArgument(n) => n == name && Insists(setup, n) && form.ShortFlags? && i + 1 < |form.names|
    case MissingArgument(n) =>
      && n == name && Insists(setup, n) && k + 1 == |args|
      && (form == LongFlag(n, "") || (form.ShortFlags? && i + 1 == |form.names|))
    case IncorrectValue(n, v) =>
      n == name && Suitable(setup, args, k, i) && v == TextAt(setup, args, k, i) && !setup.accepts(n, v)
  }

  ghost predicate Faultless(setup: Setup, args: seq<string>, k: nat, i: nat)
    requires k < |args| && i < Uses(setup, args[k])
  {
    forall f :: !Fault(setup, args, k, i, f)
  }

  /** An option has at most one fault; it has none if it is suitable and its text is accepted. */
  lemma FaultlessIff(setup: Setup, args: seq<string>, k: nat, i: nat)
    requires k < |args| && i < Uses(setup, args[k])
    ensures Faultless(setup, args, k, i) <==>
            Suitable(setup, args, k, i) && setup.accepts(NameAt(setup, args, k, i), TextAt(setup, args, k, i))
    ensures forall f, g :: Fault(setup, args, k, i, f) && Fault(setup, args, k, i, g) ==> f == g
  {
    var name, text := NameAt(setup, args, k, i), TextAt(setup, args, k, i);
    if Faultless(setup, args, k, i) {
      assert !Fault(setup, args, k, i, OptionNotExists(name));
      assert !Fault(setup, args, k, i, RequiresArgument(name));
      assert !Fault(setup, args, k, i, MissingArgument(name));
      assert !Fault(setup, args, k, i, TakesNoArgument(name, text));
      assert !Fault(setup, args, k, i, IncorrectValue(name, text));
    }
  }

  /** e is what comes of the i-th option of argument k: it is set to its text, or has the fault reported. */
  ghost predicate UseExplained(setup: Setup, args: seq<string>, k: nat, i: nat, e: Effect)
    requires k < |args| && i < Uses(setup, args[k])
  {
    if e.failure.Some? then e.events == [] && Fault(setup, args, k, i, e.failure.value)
    else
      && e.events == [Event(NameAt(setup, args, k, i), TextAt(setup, args, k, i))]
      && Faultless(setup, args, k, i)
  }

  /** The first faulty option of argument k is the i-th, and f is its fault. */
  ghost predicate FailsAt(setup: Setup, args: seq<string>, k: nat, i: nat, f: Failure)
    requires k < |args|
  {
    && i < Uses(setup, args[k]) && Fault(setup, args, k, i, f)
    && forall j :: 0 <= j < i ==> Faultless(setup, args, k, j)
  }

  /** e is what comes of the first n options of argument k. */
  ghost predicate UsesExplained(setup: Setup, args: seq<string>, k: nat, n: nat, e: Effect)
    requires k < |args| && n <= Uses(setup, args[k])
  {
    if e.failure.Some? then
      exists i: nat ::
        i < n && FailsAt(setup, args, k, i, e.failure.value) && e.events == UseEvents(setup, args, k, i)
    else
      e.events == UseEvents(setup, args, k, n) && forall j :: 0 <= j < n ==> Faultless(setup, args, k, j)
  }

  lemma PositionalExplained(setup: Setup, args: seq<string>, k: nat)
    requires k < |args| && setup.form(args[k]) == NoFlag && setup.positional != ""
    ensures UseExplained(setup, args, k, 0, Positional(setup, args[k]))
  {
    FaultlessIff(setup, args, k, 0);
  }

  lemma LongExplained(setup: Setup, args: seq<string>, k: nat, name: string, value: string)
    requires k < |args| && setup.form(args[k]) == LongFlag(name, value)
    ensures UseExplained(setup, args, k, 0, LongOption(setup, NextArg(args, k), name, value))
  {
    FaultlessIff(setup, args, k, 0);
  }

  lemma ShortExplained(setup: Setup, args: seq<string>, k: nat, names: string, i: nat)
    requires k < |args| && setup.form(args[k]) == ShortFlags(names) && i < |names|
    ensures UseExplained(setup, args, k, i, ShortFlag(setup, NextArg(args, k), names, i))
  {
    FaultlessIff(setup, args, k, i);
    assert names[|names| - 1..] == [names[|names| - 1]];
  }

  /** One more option: e is what comes of the first n, last of the n-th. */
  lemma OneMoreUse(setup: Setup, args: seq<string>, k: nat, n: nat, e: Effect, last: Effect)
    requires k < |args| && n < Uses(setup, args[k]) && e.failure == None
    requires UsesExplained(setup, args, k, n, e) && UseExplained(setup, args, k, n, last)
    ensures UsesExplained(setup, args, k, n + 1, last.(events := e.events + last.events))
  {
    if last.failure.Some? {
      assert e.events + [] == UseEvents(setup, args, k, n);
      assert FailsAt(setup, args, k, n, last.failure.value);
    }
  }

  lemma {:induction false} GroupExplained(setup: Setup, args: seq<string>, k: nat, names: string, n: nat)
    requires k < |args| && setup.form(args[k]) == ShortFlags(names) && n <= |names|
    ensures UsesExplained(setup, args, k, n, ShortFlagsUpTo(setup, NextArg(args, k), names, n))
  {
    if n > 0 {
      GroupExplained(setup, args, k, names, n - 1);
      ShortExplained(setup, args, k, names, n - 1);
      var before := ShortFlagsUpTo(setup, NextArg(args, k), names, n - 1);
      if before.failure == None {
        OneMoreUse(setup, args, k, n - 1, before, ShortFlag(setup, NextArg(args, k), names, n - 1));
      }
    }
  }

  /** What an argument leads to, without the functions that follow the code. */
  lemma ArgumentExplained(setup: Setup, args: seq<string>, k: nat)
    requires k < |args|
    ensures UsesExplained(setup, args, k, Uses(setup, args[k]), EffectAt(setup, args, k))
  {
    var none := Effect([], false, None);
    assert UsesExplained(setup, args, k, 0, none);
    match setup.form(args[k])
    case NoFlag =>
      if setup.positional != "" {
        PositionalExplained(setup, args, k);
        OneMoreUse(setup, args, k, 0, none, EffectAt(setup, args, k));
        assert [] + EffectAt(setup, args, k).events == EffectAt(setup, args, k).events;
      }
    case ShortFlags(names) =>
      GroupExplained(setup, args, k, names, |names|);
    case LongFlag(name, value) =>
      LongExplained(setup, args, k, name, value);
      OneMoreUse(setup, args, k, 0, none, EffectAt(setup, args, k));
      assert [] + EffectAt(setup, args, k).events == EffectAt(setup, args, k).events;
  }

  lemma {:induction false} ShortTakesValue(setup: Setup, args: seq<string>, k: nat, names: string, n: nat)
    requires k < |args| && n <= |names| && ShortFlagsUpTo(setup, NextArg(args, k), names, n).failure == None
    ensures ShortFlagsUpTo(setup, NextArg(args, k), names, n).tookNext <==>
            n > 0 && n == |names| && NeedsNext(setup, args, k, names[n - 1..])
  {
    if n > 0 {
      ShortTakesValue(setup, args, k, names, n - 1);
      if n == |names| {
        assert names[n - 1..] == [names[n - 1]];
      }
    }
  }

  lemma TookNextIffTakesValue(setup: Setup, args: seq<string>, k: nat)
    requires k < |args| && EffectAt(setup, args, k).failure == None
    ensures EffectAt(setup, args, k).tookNext <==> TakesValue(setup, args, k)
  {
    match setup.form(args[k])
    case ShortFlags(names) => ShortTakesValue(setup, args, k, names, |names|);
    case _ =>
  }

  // ----- the whole walk

  /** All options of the arguments from `from` up to `to`, in order, with their texts. */
  function AllEvents(setup: Setup, args: seq<string>, from: nat, to: nat, roles: seq<Role>): seq<Event>
    requires from <= to <= |args| == |roles|
    decreases |args| - from
  {
    if from == to then []
    else
      (if roles[from] == FlagValue then [] else UseEvents(setup, args, from, Uses(setup, args[from])))
      + AllEvents(setup, args, from + 1, to, roles)
  }

  /** Nothing is wrong with any argument from `from` up to `to`. */
  ghost predicate Sound(setup: Setup, args: seq<string>, from: nat, to: nat, roles: seq<Role>)
    requires to <= |args| == |roles|
  {
    forall k, i :: from <= k < to && roles[k] != FlagValue && 0 <= i < Uses(setup, args[k]) ==>
      Faultless(setup, args, k, i)
  }

  lemma {:induction false} DependsOnRoles(setup: Setup, args: seq<string>, from: nat, to: nat,
                                          a: seq<Role>, b: seq<Role>)
    requires from <= to <= |args| == |a| == |b| && forall k :: from <= k < to ==> a[k] == b[k]
    ensures Select(args, from, to, a) == Select(args, from, to, b)
    ensures AllEvents(setup, args, from, to, a) == AllEvents(setup, args, from, to, b)
    decreases |args| - from
  {
    if from < to {
      DependsOnRoles(setup, args, from + 1, to, a, b);
    }
  }

  /** In front of roles that fit, an argument that takes no value leaves them fitting. */
  lemma OwnRoleFits(setup: Setup, args: seq<string>, from: nat, next: nat, to: nat, a: seq<Role>, b: seq<Role>)
    requires from < next && Fits(setup, args, next, to, b)
    requires |a| == |args| && forall k :: next <= k < to ==> a[k] == b[k]
    requires a[next - 1] == Flag ==> !TakesValue(setup, args, next - 1)
    ensures forall k :: next <= k < to ==> RoleFits(setup, args, from, a, k)
  {
    forall k | next <= k < to
      ensures RoleFits(setup, args, from, a, k)
    {
      assert RoleFits(setup, args, next, b, k);
    }
  }

  /** The roles explain what the walk has kept and parsed from `current` up to `to`. */
  ghost predicate Explain(setup: Setup, args: seq<string>, current: nat, to: nat, roles: seq<Role>,
                          kept: seq<string>, events: seq<Event>) {
    && Fits(setup, args, current, to, roles) && ReadsAt(setup, args, current, to, roles)
    && Sound(setup, args, current, to, roles)
    && kept == Select(args, current, to, roles) && events == AllEvents(setup, args, current, to, roles)
  }

  /** What one argument has used up, or two, joins the explanation of the rest. */
  lemma ExplainOneMore(setup: Setup, args: seq<string>, current: nat, to: nat, rest: seq<Role>,
                       kept: seq<string>, events: seq<Event>) returns (roles: seq<Role>)
    requires current < |args| && EffectAt(setup, args, current).failure == None
    requires Explain(setup, args, current + Stride(EffectAt(setup, args, current)), to, rest, kept, events)
    ensures Explain(setup, args, current, to, roles,
                    KeptHere(setup, args[current]) + kept, EffectAt(setup, args, current).events + events)
  {
    var e := EffectAt(setup, args, current);
    var next := current + Stride(e);
    TookNextIffTakesValue(setup, args, current);
    ArgumentExplained(setup, args, current);
    roles := rest[current := OwnRole(setup, args[current])];
    if e.tookNext {
      roles := roles[current + 1 := FlagValue];
      assert AllEvents(setup, args, current + 1, to, roles) == AllEvents(setup, args, next, to, roles);
      assert Select(args, current + 1, to, roles) == Select(args, next, to, roles);
    }
    DependsOnRoles(setup, args, next, to, roles, rest);
    OwnRoleFits(setup, args, current, next, to, roles, rest);
  }

  /** The outcome o, argument by argument. The arguments up to `to` have roles that fit, nothing is wrong with
      them, those of role Kept are kept, and the options are set that they name. Either these are all arguments;
      or the one at `to` is read as a flag or a positional argument, its first i options are still set, and the
      failure is what is wrong with the next one. */
  ghost predicate OutcomeExplained(setup: Setup, args: seq<string>, current: nat, o: Outcome,
                                   roles: seq<Role>, to: nat, i: nat, events: seq<Event>) {
    && Explain(setup, args, current, to, roles, o.kept, events)
    && if o.failure == None then to == |args| && o.events == events
       else
         && to < |args| && FailsAt(setup, args, to, i, o.failure.value)
         && o.events == events + UseEvents(setup, args, to, i)
  }

  lemma OutcomeOneMore(setup: Setup, args: seq<string>, current: nat, o: Outcome,
                       rest: seq<Role>, to: nat, i: nat, events: seq<Event>) returns (roles: seq<Role>)
    requires current < |args| && EffectAt(setup, args, current).failure == None
    requires OutcomeExplained(setup, args, current + Stride(EffectAt(setup, args, current)), o, rest, to, i, events)
    ensures var e := EffectAt(setup, args, current);
      OutcomeExplained(setup, args, current, Before(KeptHere(setup, args[current]), e.events, o),
                       roles, to, i, e.events + events)
  {
    roles := ExplainOneMore(setup, args, current, to, rest, o.kept, events);
    if o.failure.Some? {
      Glue(EffectAt(setup, args, current).events, events, UseEvents(setup, args, to, i));
    }
  }

  lemma OutcomeFails(setup: Setup, args: seq<string>, current: nat) returns (roles: seq<Role>, i: nat)
    requires current < |args| && EffectAt(setup, args, current).failure.Some?
    ensures var e := EffectAt(setup, args, current);
      OutcomeExplained(setup, args, current, Outcome([], e.events, e.failure), roles, current, i, [])
  {
    var e := EffectAt(setup, args, current);
    ArgumentExplained(setup, args, current);
    roles := seq(|args|, _ => Kept);
    i :| i < Uses(setup, args[current]) && FailsAt(setup, args, current, i, e.failure.value)
         && e.events == UseEvents(setup, args, current, i);
  }

  lemma {:induction false} WalkExplained(setup: Setup, args: seq<string>, current: nat)
      returns (roles: seq<Role>, to: nat, i: nat, events: seq<Event>)
    requires current <= |args|
    ensures OutcomeExplained(setup, args, current, Walk(setup, args, current), roles, to, i, events)
    decreases |args| - current
  {
    if current == |args| {
      roles, to, i, events := seq(|args|, _ => Kept), current, 0, [];
    } else if EffectAt(setup, args, current).failure.Some? {
      to, events := current, [];
      roles, i := OutcomeFails(setup, args, current);
    } else {
      var e := EffectAt(setup, args, current);
      var next := current + Stride(e);
      roles, to, i, events := WalkExplained(setup, args, next);
      roles := OutcomeOneMore(setup, args, current, Walk(setup, args, next), roles, to, i, events);
      events := e.events + events;
    }
  }

  /** Filter: when parsing succeeds, every argument has exactly one role, and those kept are, in order, the
      arguments that are neither flags nor values nor taken as positional. */
  lemma WalkIsFilter(setup: Setup, args: seq<string>, current: nat) returns (roles: seq<Role>)
    requires current <= |args| && Walk(setup, args, current).failure == None
    ensures Fits(setup, args, current, |args|, roles)
    ensures Walk(setup, args, current).kept == Select(args, current, |args|, roles)
    ensures Walk(setup, args, current).events == AllEvents(setup, args, current, |args|, roles)
  {
    var to, i, events;
    roles, to, i, events := WalkExplained(setup, args, current);
  }

  /** The roles are determined by the arguments. */
  lemma {:induction false} RolesUnique(setup: Setup, args: seq<string>, from: nat, to: nat,
                                       a: seq<Role>, b: seq<Role>, k: nat)
    requires Fits(setup, args, from, to, a) && Fits(setup, args, from, to, b) && from <= k < to
    ensures a[k] == b[k]
  {
    assert RoleFits(setup, args, from, a, k) && RoleFits(setup, args, from, b, k);
    if k > from {
      RolesUnique(setup, args, from, to, a, b, k - 1);
    }
  }

  /** Parsing succeeds exactly if nothing is wrong with any argument. */
  lemma SucceedsIffSound(setup: Setup, args: seq<string>, from: nat, roles: seq<Role>)
    requires Fits(setup, args, from, |args|, roles)
    ensures Walk(setup, args, from).failure == None <==> Sound(setup, args, from, |args|, roles)
  {
    var found, to, i, events := WalkExplained(setup, args, from);
    forall k | from <= k < to
      ensures found[k] == roles[k]
    {
      assert Fits(setup, args, from, to, roles);
      RolesUnique(setup, args, from, to, found, roles, k);
    }
    if to < |args| {
      assert RoleFits(setup, args, from, roles, to) && roles[to] != FlagValue;
      assert !Faultless(setup, args, to, i);
    } else {
      forall k, j | from <= k < |args| && roles[k] != FlagValue && 0 <= j < Uses(setup, args[k])
        ensures Faultless(setup, args, k, j)
      {
        assert found[k] != FlagValue;
      }
    }
  }
}
