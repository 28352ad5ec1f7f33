/** The decisions of hostcontrold's `ServerController::DoWork`, as a timed state machine: one call is one
    step, whose answers from clock, pings and force files are arbitrary. Times are nanoseconds. */
module Controller {
  import opened Chars

  datatype PingResult = Failed | HostActive | HostInactive

  datatype Config = Config(
    name: string, ip: string, mac: string, sshUser: string, controlDir: string,
    controlInterval: int, shutdownTimeout: int, clients: seq<string>)

  datatype Command = WakeUp(mac: string) | ShutDown(ip: string, user: string)

  datatype State = State(running: bool, lastControl: int, lastClient: int)

  /** Before a client is pinged the stop flag is read. */
  datatype ClientAnswer = ClientAnswer(stop: bool, ping: PingResult)

  datatype Answers = Answers(now: int, server: PingResult, forceOn: bool, forceOff: bool, client: nat -> ClientAnswer)

  /** Client k is pinged, no stop flag having been seen, and answers. */
  predicate AnswersAt(client: nat -> ClientAnswer, k: nat) {
    client(k).ping == HostActive && forall j :: 0 <= j <= k ==> !client(j).stop
  }

  predicate ClientAnswers(cfg: Config, client: nat -> ClientAnswer) {
    exists k :: 0 <= k < |cfg.clients| && AnswersAt(client, k)
  }

  predicate IsActive(cfg: Config, s: State, now: int) {
    s.lastControl + cfg.controlInterval <= now
  }

  function RunningAfter(running: bool, ping: PingResult): bool {
    match ping
    case HostActive => true
    case HostInactive => false
    case Failed => running
  }

  /** Something asks for the server to be on. */
  predicate Wanted(cfg: Config, a: Answers) {
    a.forceOn || (!a.forceOff && ClientAnswers(cfg, a.client))
  }

  function Next(cfg: Config, s: State, a: Answers): State {
    if !IsActive(cfg, s, a.now) then s
    else State(RunningAfter(s.running, a.server), a.now, if Wanted(cfg, a) then a.now else s.lastClient)
  }

  function Decision(cfg: Config, s: State, a: Answers): Option<Command> {
    if !IsActive(cfg, s, a.now) then None
    else
      var running := RunningAfter(s.running, a.server);
      if Wanted(cfg, a) then
        if running then None else Some(WakeUp(cfg.mac))
      else if a.forceOff || s.lastClient + cfg.shutdownTimeout <= a.now then
        if running then Some(ShutDown(cfg.ip, cfg.sshUser)) else None
      else None
  }

  // ----- runs

  function StateAt(cfg: Config, s: State, run: seq<Answers>, k: nat): State
    requires k <= |run|
  {
    if k == 0 then s else Next(cfg, StateAt(cfg, s, run, k - 1), run[k - 1])
  }

  function CommandAt(cfg: Config, s: State, run: seq<Answers>, k: nat): Option<Command>
    requires k < |run|
  {
    Decision(cfg, StateAt(cfg, s, run, k), run[k])
  }

  predicate ActiveAt(cfg: Config, s: State, run: seq<Answers>, k: nat)
    requires k < |run|
  {
    IsActive(cfg, StateAt(cfg, s, run, k), run[k].now)
  }

  /** The times at which the first k steps sent a command. */
  function SentTimes(cfg: Config, s: State, run: seq<Answers>, k: nat): seq<int>
    requires k <= |run|
  {
    if k == 0 then []
    else
      SentTimes(cfg, s, run, k - 1) + if CommandAt(cfg, s, run, k - 1).Some? then [run[k - 1].now] else []
  }

  /** Active steps are at least an interval apart, whatever the clock does. */
  lemma {:induction false} ActiveStepsSpaced(cfg: Config, s: State, run: seq<Answers>, j: nat, k: nat)
    requires cfg.controlInterval >= 0 && j < k <= |run| && ActiveAt(cfg, s, run, j)
    ensures StateAt(cfg, s, run, k).lastControl >= run[j].now
    ensures k < |run| && ActiveAt(cfg, s, run, k) ==> run[k].now >= run[j].now + cfg.controlInterval
  {
    if j < k - 1 {
      ActiveStepsSpaced(cfg, s, run, j, k - 1);
    }
  }

  // ----- rate

  predicate Spaced(times: seq<int>, interval: int) {
    forall i :: 0 < i < |times| ==> times[i] >= times[i - 1] + interval
  }

  function CountIn(times: seq<int>, lo: int, hi: int): nat {
    if times == [] then 0
    else
      var n := |times| - 1;
      CountIn(times[..n], lo, hi) + if lo <= times[n] <= hi then 1 else 0
  }

  lemma {:induction false} SentTimesSpaced(cfg: Config, s: State, run: seq<Answers>, k: nat)
    requires cfg.controlInterval >= 0 && k <= |run|
    ensures Spaced(SentTimes(cfg, s, run, k), cfg.controlInterval)
    ensures forall i :: 0 <= i < |SentTimes(cfg, s, run, k)| ==>
              SentTimes(cfg, s, run, k)[i] <= StateAt(cfg, s, run, k).lastControl
  {
    if k > 0 {
      SentTimesSpaced(cfg, s, run, k - 1);
    }
  }

  lemma {:induction false} SpacedBelow(times: seq<int>, interval: int, i: nat, j: nat)
    requires Spaced(times, interval) && interval >= 0 && i < j < |times|
    ensures times[i] + interval <= times[j]
  {
    if i < j - 1 {
      SpacedBelow(times, interval, i, j - 1);
    }
  }

  lemma {:induction false} CountDependsOn(times: seq<int>, lo: int, hi: int, hi': int)
    requires forall i :: 0 <= i < |times| ==> (times[i] <= hi <==> times[i] <= hi')
    ensures CountIn(times, lo, hi) == CountIn(times, lo, hi')
  {
    if times != [] {
      CountDependsOn(times[..|times| - 1], lo, hi, hi');
    }
  }

  /** n times at least `interval` apart fit into a window of length w. */
  predicate FitInto(n: nat, interval: int, w: int) {
    n > 0 ==> (n - 1) * interval <= w
  }

  lemma OneMoreFits(n: nat, interval: int, w: int)
    requires w >= 0 && FitInto(n, interval, w - interval)
    ensures FitInto(n + 1, interval, w)
  {
    assert n * interval == (n - 1) * interval + interval;
  }

  /** Times of which the last lies in the window: the others lie at least `interval` before it. */
  lemma CountWithLast(times: seq<int>, interval: int, lo: int, hi: int)
    requires times != [] && interval >= 0 && Spaced(times, interval) && lo <= times[|times| - 1] <= hi
    ensures var n := |times| - 1;
      CountIn(times, lo, hi) == CountIn(times[..n], lo, times[n] - interval) + 1
  {
    var n := |times| - 1;
    forall i | 0 <= i < n
      ensures times[..n][i] <= times[n] - interval
    {
      SpacedBelow(times, interval, i, n);
    }
    CountDependsOn(times[..n], lo, hi, times[n] - interval);
  }

  lemma FitMore(n: nat, interval: int, w: int, w': int)
    requires FitInto(n, interval, w) && w <= w'
    ensures FitInto(n, interval, w')
  {}

  lemma {:induction false} SpacedCount(times: seq<int>, interval: int, lo: int, hi: int)
    requires interval > 0 && Spaced(times, interval)
    ensures FitInto(CountIn(times, lo, hi), interval, hi - lo)
  {
    if times != [] {
      var n := |times| - 1;
      if lo <= times[n] <= hi {
        CountWithLast(times, interval, lo, hi);
        SpacedCount(times[..n], interval, lo, times[n] - interval);
        OneMoreFits(CountIn(times[..n], lo, times[n] - interval), interval, times[n] - lo);
        FitMore(CountIn(times, lo, hi), interval, times[n] - lo, hi - lo);
      } else {
        SpacedCount(times[..n], interval, lo, hi);
      }
    }
  }

  lemma ProductMonotone(a: int, b: int, d: int)
    requires a <= b && d >= 0
    ensures a * d <= b * d
  {}

  lemma MultipleBelow(n: int, d: int, w: int)
    requires d > 0 && n * d <= w
    ensures n <= w / d
  {
    var q := w / d;
    assert w < q * d + d && (q + 1) * d == q * d + d;
    if n > q {
      ProductMonotone(q + 1, n, d);
    }
  }

  /** Rate: in any window of length w one controller sends at most w / interval + 1 commands. */
  lemma RateBound(cfg: Config, s: State, run: seq<Answers>, lo: int, w: nat)
    requires cfg.controlInterval > 0
    ensures CountIn(SentTimes(cfg, s, run, |run|), lo, lo + w) <= w / cfg.controlInterval + 1
  {
    var times := SentTimes(cfg, s, run, |run|);
    SentTimesSpaced(cfg, s, run, |run|);
    SpacedCount(times, cfg.controlInterval, lo, lo + w);
    if CountIn(times, lo, lo + w) > 0 {
      MultipleBelow(CountIn(times, lo, lo + w) - 1, cfg.controlInterval, w);
    }
  }

  // ----- hysteresis

  /** A step that saw the server wanted keeps later times in lastClient. */
  lemma {:induction false} WantedRemembered(cfg: Config, s: State, run: seq<Answers>, j: nat, k: nat)
    requires cfg.controlInterval >= 0 && j < k <= |run| && ActiveAt(cfg, s, run, j) && Wanted(cfg, run[j])
    ensures StateAt(cfg, s, run, k).lastClient >= run[j].now
    ensures StateAt(cfg, s, run, k).lastControl >= run[j].now
  {
    if j < k - 1 {
      WantedRemembered(cfg, s, run, j, k - 1);
    }
  }

  /** Hysteresis: a shutdown that `force_off` did not ask for comes at least the timeout after every earlier
      active step that saw `force_on` or an active client, and so after every earlier wake-up. */
  lemma Hysteresis(cfg: Config, s: State, run: seq<Answers>, j: nat, k: nat)
    requires cfg.controlInterval >= 0 && j < k < |run|
    requires CommandAt(cfg, s, run, k) == Some(ShutDown(cfg.ip, cfg.sshUser)) && !run[k].forceOff
    requires (ActiveAt(cfg, s, run, j) && Wanted(cfg, run[j])) || CommandAt(cfg, s, run, j) == Some(WakeUp(cfg.mac))
    ensures run[j].now + cfg.shutdownTimeout <= run[k].now
  {
    WantedRemembered(cfg, s, run, j, k);
  }

  // ----- the recorded state

  predicate Conclusive(cfg: Config, s: State, run: seq<Answers>, k: nat)
    requires k < |run|
  {
    ActiveAt(cfg, s, run, k) && run[k].server != Failed
  }

  /** No ping of the server was conclusive from step `from` up to step `until`. */
  predicate Silent(cfg: Config, s: State, run: seq<Answers>, from: nat, until: nat)
    requires until <= |run|
  {
    forall i :: from <= i < until ==> !Conclusive(cfg, s, run, i)
  }

  /** `running_` is the last conclusive answer of the server, or what it was if there was none. */
  lemma {:induction false} RunningIsLastAnswer(cfg: Config, s: State, run: seq<Answers>, k: nat)
      returns (last: Option<nat>)
    requires k <= |run|
    ensures match last
      case None =>
        StateAt(cfg, s, run, k).running == s.running && Silent(cfg, s, run, 0, k)
      case Some(j) =>
        && j < k && Conclusive(cfg, s, run, j)
        && (run[j].server == HostActive <==> StateAt(cfg, s, run, k).running)
        && Silent(cfg, s, run, j + 1, k)
  {
    if k == 0 {
      last := None;
    } else if Conclusive(cfg, s, run, k - 1) {
      last := Some(k - 1);
    } else {
      last := RunningIsLastAnswer(cfg, s, run, k - 1);
    }
  }

  /** By what the first k steps have seen, the server runs: the last conclusive ping found it active; or there
      was none, and it counted as running before. */
  ghost predicate ServerUp(cfg: Config, s: State, run: seq<Answers>, k: nat)
    requires k <= |run|
  {
    || (s.running && Silent(cfg, s, run, 0, k))
    || exists j :: 0 <= j < k && Conclusive(cfg, s, run, j) && run[j].server == HostActive &&
                   Silent(cfg, s, run, j + 1, k)
  }

  lemma UpIfSilent(cfg: Config, s: State, run: seq<Answers>, k: nat)
    requires k <= |run| && Silent(cfg, s, run, 0, k)
    ensures ServerUp(cfg, s, run, k) <==> s.running
  {}

  lemma UpIfActive(cfg: Config, s: State, run: seq<Answers>, j: nat, k: nat)
    requires j < k <= |run| && Conclusive(cfg, s, run, j) && Silent(cfg, s, run, j + 1, k)
    ensures ServerUp(cfg, s, run, k) <==> run[j].server == HostActive
  {}

  lemma RunningIffUp(cfg: Config, s: State, run: seq<Answers>, k: nat)
    requires k <= |run|
    ensures StateAt(cfg, s, run, k).running <==> ServerUp(cfg, s, run, k)
  {
    var last := RunningIsLastAnswer(cfg, s, run, k);
    match last
    case None => UpIfSilent(cfg, s, run, k);
    case Some(j) => UpIfActive(cfg, s, run, j, k);
  }

  // ----- causes

  /** An active step that saw `force_on` or an active client. */
  predicate Asked(cfg: Config, s: State, run: seq<Answers>, k: nat)
    requires k < |run|
  {
    ActiveAt(cfg, s, run, k) && (run[k].forceOn || (!run[k].forceOff && ClientAnswers(cfg, run[k].client)))
  }

  lemma {:induction false} LastActive(cfg: Config, s: State, run: seq<Answers>, k: nat) returns (last: Option<nat>)
    requires k <= |run|
    ensures match last
      case None =>
        && StateAt(cfg, s, run, k).lastControl == s.lastControl
        && forall j :: 0 <= j < k ==> !ActiveAt(cfg, s, run, j)
      case Some(j) =>
        j < k && ActiveAt(cfg, s, run, j) && StateAt(cfg, s, run, k).lastControl == run[j].now
  {
    if k == 0 {
      last := None;
    } else if ActiveAt(cfg, s, run, k - 1) {
      last := Some(k - 1);
    } else {
      last := LastActive(cfg, s, run, k - 1);
    }
  }

  lemma {:induction false} LastAsked(cfg: Config, s: State, run: seq<Answers>, k: nat) returns (last: Option<nat>)
    requires k <= |run|
    ensures match last
      case None =>
        && StateAt(cfg, s, run, k).lastClient == s.lastClient
        && forall j :: 0 <= j < k ==> !Asked(cfg, s, run, j)
      case Some(j) =>
        j < k && Asked(cfg, s, run, j) && StateAt(cfg, s, run, k).lastClient == run[j].now
  {
    if k == 0 {
      last := None;
    } else if Asked(cfg, s, run, k - 1) {
      last := Some(k - 1);
    } else {
      last := LastAsked(cfg, s, run, k - 1);
    }
  }

  /** All active steps before step k are at least the interval ago; if there was none, the time recorded
      before the run is. */
  predicate Due(cfg: Config, s: State, run: seq<Answers>, k: nat)
    requires k < |run|
  {
    && (forall j :: 0 <= j < k && ActiveAt(cfg, s, run, j) ==> run[j].now + cfg.controlInterval <= run[k].now)
    && ((forall j :: 0 <= j < k ==> !ActiveAt(cfg, s, run, j)) ==> s.lastControl + cfg.controlInterval <= run[k].now)
  }

  /** Everything that asked for the server before step k is at least the timeout ago; if nothing did, the time
      recorded before the run is. */
  predicate Idle(cfg: Config, s: State, run: seq<Answers>, k: nat)
    requires k < |run|
  {
    && (forall j :: 0 <= j < k && Asked(cfg, s, run, j) ==> run[j].now + cfg.shutdownTimeout <= run[k].now)
    && ((forall j :: 0 <= j < k ==> !Asked(cfg, s, run, j)) ==> s.lastClient + cfg.shutdownTimeout <= run[k].now)
  }

  lemma ActiveIffDue(cfg: Config, s: State, run: seq<Answers>, k: nat)
    requires cfg.controlInterval >= 0 && k < |run|
    ensures ActiveAt(cfg, s, run, k) <==> Due(cfg, s, run, k)
  {
    var last := LastActive(cfg, s, run, k);
    forall j | 0 <= j < k && ActiveAt(cfg, s, run, j)
      ensures run[j].now <= StateAt(cfg, s, run, k).lastControl
    {
      ActiveStepsSpaced(cfg, s, run, j, k);
    }
  }

  lemma TimeoutIffIdle(cfg: Config, s: State, run: seq<Answers>, k: nat)
    requires cfg.controlInterval >= 0 && k < |run|
    ensures StateAt(cfg, s, run, k).lastClient + cfg.shutdownTimeout <= run[k].now <==> Idle(cfg, s, run, k)
  {
    var last := LastAsked(cfg, s, run, k);
    forall j | 0 <= j < k && Asked(cfg, s, run, j)
      ensures run[j].now <= StateAt(cfg, s, run, k).lastClient
    {
      WantedRemembered(cfg, s, run, j, k);
    }
  }

  /** The causes of commands, in terms of what the run has seen. A step sends a wake-up exactly if it is due, by
      the pings so far the server is down, and `force_on` is present or, without `force_off`, a client answers.
      It sends a shutdown exactly if it is due, by the pings so far the server is up, `force_on` is not present,
      and either `force_off` is or no client answers and nothing has asked for the server within the timeout. */
  lemma CommandCause(cfg: Config, s: State, run: seq<Answers>, k: nat)
    requires cfg.controlInterval >= 0 && k < |run|
    ensures CommandAt(cfg, s, run, k) == Some(WakeUp(cfg.mac)) <==>
            && Due(cfg, s, run, k) && !ServerUp(cfg, s, run, k + 1)
            && (run[k].forceOn || (!run[k].forceOff && ClientAnswers(cfg, run[k].client)))
    ensures CommandAt(cfg, s, run, k) == Some(ShutDown(cfg.ip, cfg.sshUser)) <==>
            && Due(cfg, s, run, k) && ServerUp(cfg, s, run, k + 1) && !run[k].forceOn
            && (run[k].forceOff || (!ClientAnswers(cfg, run[k].client) && Idle(cfg, s, run, k)))
  {
    ActiveIffDue(cfg, s, run, k);
    TimeoutIffIdle(cfg, s, run, k);
    RunningIffUp(cfg, s, run, k + 1);
  }

  // ----- bounded response

  /** Nothing asks for the server, which is running. */
  predicate Quiet(cfg: Config, a: Answers) {
    !a.forceOn && !a.forceOff && !ClientAnswers(cfg, a.client) && a.server == HostActive
  }

  predicate NoCommand(cfg: Config, s: State, run: seq<Answers>, from: nat, until: nat)
    requires until <= |run|
  {
    forall j :: from <= j < until ==> CommandAt(cfg, s, run, j) == None
  }

  lemma NoCommandBefore(cfg: Config, s: State, run: seq<Answers>, from: nat, until: nat)
    requires from < until <= |run|
    requires CommandAt(cfg, s, run, from) == None && NoCommand(cfg, s, run, from + 1, until)
    ensures NoCommand(cfg, s, run, from, until)
  {}

  /** What a step does that sees the server up and nothing asking for it, if it sees anything. */
  lemma QuietStep(cfg: Config, s: State, run: seq<Answers>, k: nat)
    requires k < |run| && (ActiveAt(cfg, s, run, k) ==> Quiet(cfg, run[k]))
    ensures var at, next := StateAt(cfg, s, run, k), StateAt(cfg, s, run, k + 1);
      && next.lastClient == at.lastClient
      && next.lastControl == (if IsActive(cfg, at, run[k].now) then run[k].now else at.lastControl)
      && CommandAt(cfg, s, run, k) ==
         if IsActive(cfg, at, run[k].now) && at.lastClient + cfg.shutdownTimeout <= run[k].now
         then Some(ShutDown(cfg.ip, cfg.sshUser)) else None
  {}

  /** From step k on, before any shutdown: `last` is the time of the last active step, `previous` that of the
      last call. */
  lemma {:induction false} ResponseFrom(cfg: Config, s: State, run: seq<Answers>, d: int, k: nat, previous: int)
      returns (i: nat)
    requires cfg.controlInterval > 0 && cfg.shutdownTimeout >= 0 && k <= |run|
    requires forall j :: k <= j < |run| && ActiveAt(cfg, s, run, j) ==> Quiet(cfg, run[j])
    requires forall j :: k < j < |run| ==> run[j - 1].now <= run[j].now <= run[j - 1].now + d
    requires k < |run| ==> run[k].now <= previous + d
    requires var at := StateAt(cfg, s, run, k);
      && at.lastControl <= at.lastClient + cfg.shutdownTimeout
      && previous < at.lastControl + cfg.controlInterval
      && (if k == |run| then previous else run[|run| - 1].now) >=
         at.lastClient + cfg.shutdownTimeout + cfg.controlInterval + d
    requires d >= 0
    ensures k <= i < |run| && CommandAt(cfg, s, run, i) == Some(ShutDown(cfg.ip, cfg.sshUser))
    ensures NoCommand(cfg, s, run, k, i)
    ensures var due := StateAt(cfg, s, run, k).lastClient + cfg.shutdownTimeout;
      due <= run[i].now < due + cfg.controlInterval + d
    decreases |run| - k
  {
    QuietStep(cfg, s, run, k);
    if CommandAt(cfg, s, run, k).Some? {
      i := k;
    } else {
      i := ResponseFrom(cfg, s, run, d, k + 1, run[k].now);
      NoCommandBefore(cfg, s, run, k, i);
    }
  }

  /** From step k on nothing asks for the server, which is running, and calls are at most d apart. */
  predicate QuietFrom(cfg: Config, s: State, run: seq<Answers>, d: int, k: nat) {
    && (forall j :: k <= j < |run| && ActiveAt(cfg, s, run, j) ==> Quiet(cfg, run[j]))
    && (forall j :: k < j < |run| ==> run[j - 1].now <= run[j].now <= run[j - 1].now + d)
  }

  /** Step i is the first from step k on to send a command: a shutdown, no earlier than the timeout after the
      time `last` and less than an interval and d later. */
  predicate FirstShutdown(cfg: Config, s: State, run: seq<Answers>, d: int, last: int, k: nat, i: nat) {
    && k <= i < |run| && CommandAt(cfg, s, run, i) == Some(ShutDown(cfg.ip, cfg.sshUser))
    && NoCommand(cfg, s, run, k, i)
    && last + cfg.shutdownTimeout <= run[i].now < last + cfg.shutdownTimeout + cfg.controlInterval + d
  }

  /** Bounded response: after an active step l that saw `force_on` or an active client, if nothing asks for the
      server any more and calls come at most d apart, the first command is a shutdown in due time. */
  lemma BoundedResponse(cfg: Config, s: State, run: seq<Answers>, d: int, l: nat) returns (i: nat)
    requires cfg.controlInterval > 0 && cfg.shutdownTimeout >= 0 && d >= 0
    requires l < |run| && Asked(cfg, s, run, l) && QuietFrom(cfg, s, run, d, l + 1)
    requires l + 1 < |run| ==> run[l].now <= run[l + 1].now <= run[l].now + d
    requires run[|run| - 1].now >= run[l].now + cfg.shutdownTimeout + cfg.controlInterval + d
    ensures FirstShutdown(cfg, s, run, d, run[l].now, l + 1, i)
  {
    i := ResponseFrom(cfg, s, run, d, l + 1, run[l].now);
  }

  /** The same from a state on, for instance the initial one: the timeout counts from the last activity
      recorded in it, and the first call comes within d of that. */
  lemma BoundedResponseFromState(cfg: Config, s: State, run: seq<Answers>, d: int) returns (i: nat)
    requires cfg.controlInterval > 0 && cfg.shutdownTimeout >= 0 && d >= 0
    requires s.lastControl <= s.lastClient && QuietFrom(cfg, s, run, d, 0)
    requires run != [] && s.lastClient <= run[0].now <= s.lastClient + d
    requires run[|run| - 1].now >= s.lastClient + cfg.shutdownTimeout + cfg.controlInterval + d
    ensures FirstShutdown(cfg, s, run, d, s.lastClient, 0, i)
  {
    QuietStep(cfg, s, run, 0);
    if CommandAt(cfg, s, run, 0).Some? {
      i := 0;
    } else if ActiveAt(cfg, s, run, 0) {
      i := ResponseFrom(cfg, s, run, d, 1, run[0].now);
      NoCommandBefore(cfg, s, run, 0, i);
    } else {
      i := ResponseFrom(cfg, s, run, d, 0, s.lastClient);
    }
  }
}
