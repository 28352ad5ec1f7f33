/** hostcontrold's `ServerController` objects and the file system they share: status files, force files, and
    several controllers taking turns. File operations are assumed to succeed. */
module ServerControllers {
  import opened Chars
  import opened Controller

  const FILE_ON := "on"
  const FILE_OFF := "off"
  const FILE_KEEP_ON := "force_on"
  const FILE_KEEP_OFF := "force_off"

  predicate IsDirectory(dir: string) {
    dir != "" && dir[|dir| - 1] == '/'
  }

  /** The configured directory as it is stored. */
  function ControlDir(configured: string): (dir: string)
    ensures IsDirectory(dir)
  {
    configured + "/"
  }

  lemma DifferentDirectories(a: string, b: string)
    ensures ControlDir(a) == ControlDir(b) <==> a == b
  {
    assert ControlDir(a)[..|a|] == a && ControlDir(b)[..|b|] == b;
  }

  /** If one path is split in two ways at a '/', the shorter directory leaves a '/' in the rest. */
  lemma SlashInRest(a: string, m: string, b: string, n: string)
    requires a + m == b + n && |a| < |b| && IsDirectory(b)
    ensures '/' in m
  {
    var path, k := a + m, |b| - 1;
    assert path[k] == (b + n)[k] == b[k];
    assert path[k] == m[k - |a|];
  }

  /** A directory and a file name without '/' can be read off their path. */
  lemma PathsDistinct(a: string, m: string, b: string, n: string)
    requires IsDirectory(a) && IsDirectory(b) && '/' !in m && '/' !in n
    ensures a + m == b + n <==> a == b && m == n
  {
    if a + m == b + n {
      if |a| < |b| {
        SlashInRest(a, m, b, n);
      } else if |b| < |a| {
        SlashInRest(b, n, a, m);
      } else {
        assert (a + m)[..|a|] == a && (b + n)[..|a|] == b;
        assert (a + m)[|a|..] == m && (b + n)[|a|..] == n;
      }
    }
  }

  lemma FileNames()
    ensures FILE_ON != FILE_OFF && FILE_ON != FILE_KEEP_ON && FILE_ON != FILE_KEEP_OFF
    ensures FILE_OFF != FILE_KEEP_ON && FILE_OFF != FILE_KEEP_OFF && FILE_KEEP_ON != FILE_KEEP_OFF
    ensures '/' !in FILE_ON && '/' !in FILE_OFF && '/' !in FILE_KEEP_ON && '/' !in FILE_KEEP_OFF
  {
    assert FILE_KEEP_ON[7] != FILE_KEEP_OFF[7];
    assert |FILE_ON| == 2 && |FILE_OFF| == 3 && |FILE_KEEP_ON| == 8 && |FILE_KEEP_OFF| == 9;
  }

  /** All status and force files of directories that end in '/' are different files. */
  lemma AllPathsDistinct(a: string, b: string)
    requires IsDirectory(a) && IsDirectory(b)
    ensures a + FILE_ON != b + FILE_OFF
    ensures a + FILE_KEEP_ON !in {b + FILE_ON, b + FILE_OFF} && a + FILE_KEEP_OFF !in {b + FILE_ON, b + FILE_OFF}
    ensures a + FILE_KEEP_ON != b + FILE_KEEP_OFF
    ensures a != b ==> a + FILE_ON != b + FILE_ON && a + FILE_OFF != b + FILE_OFF
    ensures a != b ==> a + FILE_KEEP_ON != b + FILE_KEEP_ON && a + FILE_KEEP_OFF != b + FILE_KEEP_OFF
  {
    FileNames();
    PathsDistinct(a, FILE_ON, b, FILE_OFF);
    PathsDistinct(a, FILE_ON, b, FILE_ON);
    PathsDistinct(a, FILE_OFF, b, FILE_OFF);
    PathsDistinct(a, FILE_KEEP_ON, b, FILE_ON);
    PathsDistinct(a, FILE_KEEP_ON, b, FILE_OFF);
    PathsDistinct(a, FILE_KEEP_OFF, b, FILE_ON);
    PathsDistinct(a, FILE_KEEP_OFF, b, FILE_OFF);
    PathsDistinct(a, FILE_KEEP_ON, b, FILE_KEEP_OFF);
    PathsDistinct(a, FILE_KEEP_ON, b, FILE_KEEP_ON);
    PathsDistinct(a, FILE_KEEP_OFF, b, FILE_KEEP_OFF);
  }

  function UsersLeave(files: set<string>, present: set<string>, status: set<string>): set<string> {
    (files * status) + (present - status)
  }

  /** The directories and files that exist, and all sets of files that existed before. */
  class FileSystem {
    var directories: set<string>
    var files: set<string>
    ghost var history: seq<set<string>>

    constructor (files: set<string>)
      ensures this.files == files && directories == {} && history == []
    {
      this.files := files;
      directories := {};
      history := [];
    }

    method CreateDirectory(path: string)
      modifies `directories
      ensures directories == old(directories) + {path}
    {
      directories := directories + {path};
    }

    method CreateEmptyFile(path: string)
      modifies `files, `history
      ensures files == old(files) + {path} && history == old(history) + [files]
    {
      files := files + {path};
      history := history + [files];
    }

    method RemoveFile(path: string)
      modifies `files, `history
      ensures files == old(files) - {path} && history == old(history) + [files]
    {
      files := files - {path};
      history := history + [files];
    }

    method CheckFileExists(path: string) returns (found: bool)
      ensures found == (path in files)
    {
      found := path in files;
    }

    /** Users create and remove any files but the status files. */
    method UsersAct(present: set<string>, status: set<string>)
      modifies `files
      ensures files == UsersLeave(old(files), present, status)
    {
      files := (files * status) + (present - status);
    }
  }

  function StatusFiles(dir: string): set<string> {
    {dir + FILE_ON, dir + FILE_OFF}
  }

  /** Exactly one status file exists, the one for the recorded state. */
  predicate StatusShown(dir: string, files: set<string>, running: bool) {
    (dir + FILE_ON in files <==> running) && (dir + FILE_OFF in files <==> !running)
  }

  lemma StatusNames(dir: string, files: set<string>, running: bool)
    ensures StatusShown(dir, files, running) <==>
            (dir + "on" in files <==> running) && (dir + "off" in files <==> !running)
  {}

  predicate SomeStatus(dir: string, files: set<string>) {
    dir + FILE_ON in files || dir + FILE_OFF in files
  }

  /** The files after the status of one directory has been set. */
  function WithStatus(files: set<string>, dir: string, running: bool): set<string> {
    files - StatusFiles(dir) + {dir + if running then FILE_ON else FILE_OFF}
  }

  /** The files after the state has been set: nothing is written unless the state changes. */
  function Signalled(files: set<string>, dir: string, was: bool, now: bool): set<string> {
    if was == now then files else WithStatus(files, dir, now)
  }

  /** From n on, every recorded set of files shows some status for dir, and nothing but the status files of
      owner differs from files. */
  ghost predicate SnapshotsFrom(history: seq<set<string>>, n: nat, owner: string, files: set<string>) {
    forall i :: n <= i < |history| ==>
      SomeStatus(owner, history[i]) && history[i] - StatusFiles(owner) == files - StatusFiles(owner)
  }

  /** What a step learns, apart from the force files. */
  datatype Input = Input(now: int, server: PingResult, client: nat -> ClientAnswer)

  function Answered(dir: string, files: set<string>, input: Input): (a: Answers)
    ensures a.forceOn <==> dir + "force_on" in files
    ensures a.forceOff <==> dir + "force_off" in files
  {
    Answers(input.now, input.server, dir + FILE_KEEP_ON in files, dir + FILE_KEEP_OFF in files, input.client)
  }

  datatype Sent = Sent(time: int, command: Command)

  function SentBy(now: int, command: Option<Command>): seq<Sent> {
    match command
    case None => []
    case Some(c) => [Sent(now, c)]
  }

  lemma ForceFilesKept(dir: string, files: set<string>, was: bool, now: bool)
    requires IsDirectory(dir)
    ensures dir + FILE_KEEP_ON in Signalled(files, dir, was, now) <==> dir + FILE_KEEP_ON in files
    ensures dir + FILE_KEEP_OFF in Signalled(files, dir, was, now) <==> dir + FILE_KEEP_OFF in files
  {
    AllPathsDistinct(dir, dir);
  }

  class ServerController {
    const config: Config
    const file: FileSystem
    var running: bool
    var lastControl: int
    var lastClient: int
    var sent: seq<Sent>

    function Current(): State
      reads this
    {
      State(running, lastControl, lastClient)
    }

    constructor (config: Config, file: FileSystem, now: int)
      requires IsDirectory(config.controlDir)
      modifies file
      ensures this.config == config && this.file == file && fresh(this)
      ensures Current() == State(false, 0, now) && sent == []
      ensures file.directories == old(file.directories) + {config.controlDir}
      ensures file.files == WithStatus(old(file.files), config.controlDir, false)
    {
      this.config := config;
      this.file := file;
      lastControl := 0;
      lastClient := now;
      running := true;
      sent := [];
      new;
      AllPathsDistinct(config.controlDir, config.controlDir);
      file.CreateDirectory(config.controlDir);
      file.RemoveFile(config.controlDir + FILE_ON);
      file.RemoveFile(config.controlDir + FILE_OFF);
      CheckAndSignalServerState(false);
    }

    /** The status files follow the state, the new one being created before the old one is removed. */
    method CheckAndSignalServerState(newState: bool)
      requires IsDirectory(config.controlDir)
      modifies `running, file`files, file`history
      ensures running == newState
      ensures file.files == Signalled(old(file.files), config.controlDir, old(running), newState)
      ensures old(file.history) <= file.history
      ensures SnapshotsFrom(file.history, |old(file.history)|, config.controlDir, old(file.files))
    {
      AllPathsDistinct(config.controlDir, config.controlDir);
      if newState {
        if !running {
          file.CreateEmptyFile(config.controlDir + FILE_ON);
          file.RemoveFile(config.controlDir + FILE_OFF);
          running := true;
        }
      } else {
        if running {
          file.CreateEmptyFile(config.controlDir + FILE_OFF);
          file.RemoveFile(config.controlDir + FILE_ON);
          running := false;
        }
      }
    }

    method PingServer(result: PingResult)
      requires IsDirectory(config.controlDir)
      modifies `running, file`files, file`history
      ensures running == RunningAfter(old(running), result)
      ensures file.files == Signalled(old(file.files), config.controlDir, old(running), running)
      ensures old(file.history) <= file.history
      ensures SnapshotsFrom(file.history, |old(file.history)|, config.controlDir, old(file.files))
    {
      match result
      case HostActive => CheckAndSignalServerState(true);
      case HostInactive => CheckAndSignalServerState(false);
      case Failed =>
    }

    method StartServerIfNotRunning(now: int)
      modifies `sent
      ensures sent == old(sent) + SentBy(now, if running then None else Some(WakeUp(config.mac)))
    {
      if running {
        return;
      }
      sent := sent + [Sent(now, WakeUp(config.mac))];
    }

    method ShutdownServerIfRunning(now: int)
      modifies `sent
      ensures sent == old(sent) + SentBy(now, if running then Some(ShutDown(config.ip, config.sshUser)) else None)
    {
      if !running {
        return;
      }
      sent := sent + [Sent(now, ShutDown(config.ip, config.sshUser))];
    }

    /** A loop over the clients that ends early when one answers or the stop flag is seen. */
    method CheckClients(client: nat -> ClientAnswer) returns (seen: bool)
      ensures seen <==> exists k :: && 0 <= k < |config.clients| && client(k).ping == HostActive
                                    && forall j :: 0 <= j <= k ==> !client(j).stop
      ensures seen == ClientAnswers(config, client)
    {
      for i := 0 to |config.clients|
        invariant forall j :: 0 <= j < i ==> !client(j).stop && client(j).ping != HostActive
      {
        if client(i).stop {
          return false;
        }
        match client(i).ping
        case HostActive =>
          assert AnswersAt(client, i);
          return true;
        case HostInactive =>
        case Failed =>
      }
      return false;
    }

    method DoWork(input: Input)
      requires IsDirectory(config.controlDir)
      modifies this, file`files, file`history
      ensures var a := Answered(config.controlDir, old(file.files), input);
        && Current() == Next(config, old(Current()), a)
        && sent == old(sent) + SentBy(input.now, Decision(config, old(Current()), a))
      ensures file.files == Signalled(old(file.files), config.controlDir, old(running), running)
      ensures old(file.history) <= file.history
      ensures SnapshotsFrom(file.history, |old(file.history)|, config.controlDir, old(file.files))
    {
      var currentTime := input.now;
      if lastControl + config.controlInterval > currentTime {
        return;
      }
      lastControl := currentTime;
      ghost var before, was := file.files, running;
      PingServer(input.server);
      ForceFilesKept(config.controlDir, before, was, running);
      var keepOn := file.CheckFileExists(config.controlDir + FILE_KEEP_ON);
      if keepOn {
        StartServerIfNotRunning(currentTime);
        lastClient := currentTime;
        return;
      }
      var keepOff := file.CheckFileExists(config.controlDir + FILE_KEEP_OFF);
      if keepOff {
        ShutdownServerIfRunning(currentTime);
        return;
      }
      var clients := CheckClients(input.client);
      if clients {
        lastClient := currentTime;
        StartServerIfNotRunning(currentTime);
      } else {
        if lastClient + config.shutdownTimeout <= currentTime {
          ShutdownServerIfRunning(currentTime);
        }
      }
    }
  }

  // ----- several directories on one file system

  /** The status files of all directories. */
  function AllStatus(dirs: seq<string>): set<string> {
    if dirs == [] then {} else AllStatus(dirs[1..]) + StatusFiles(dirs[0])
  }

  predicate AllDirectories(dirs: seq<string>) {
    forall i :: 0 <= i < |dirs| ==> IsDirectory(dirs[i])
  }

  lemma {:induction false} InAllStatus(dirs: seq<string>, i: nat)
    requires i < |dirs|
    ensures StatusFiles(dirs[i]) <= AllStatus(dirs)
  {
    if i > 0 {
      InAllStatus(dirs[1..], i - 1);
    }
  }

  /** Force files are no status files of any directory. */
  lemma {:induction false} ForceFilesApart(dirs: seq<string>, dir: string)
    requires IsDirectory(dir) && AllDirectories(dirs)
    ensures dir + FILE_KEEP_ON !in AllStatus(dirs) && dir + FILE_KEEP_OFF !in AllStatus(dirs)
  {
    if dirs != [] {
      ForceFilesApart(dirs[1..], dir);
      AllPathsDistinct(dir, dirs[0]);
    }
  }

  /** What the users do leaves every status as it is and sets the force files. */
  lemma UsersKeepStatus(dirs: seq<string>, i: nat, files: set<string>, present: set<string>, running: bool)
    requires AllDirectories(dirs) && i < |dirs|
    ensures var now := UsersLeave(files, present, AllStatus(dirs));
      && (StatusShown(dirs[i], now, running) <==> StatusShown(dirs[i], files, running))
      && (dirs[i] + FILE_KEEP_ON in now <==> dirs[i] + FILE_KEEP_ON in present)
      && (dirs[i] + FILE_KEEP_OFF in now <==> dirs[i] + FILE_KEEP_OFF in present)
  {
    InAllStatus(dirs, i);
    ForceFilesApart(dirs, dirs[i]);
  }

  /** Changes to one directory's status files do not touch the status of another. */
  lemma OtherStatusKept(dir: string, other: string, files: set<string>, running: bool, shown: bool)
    requires IsDirectory(dir) && IsDirectory(other) && dir != other
    ensures StatusShown(other, WithStatus(files, dir, running), shown) <==> StatusShown(other, files, shown)
  {
    AllPathsDistinct(dir, other);
    AllPathsDistinct(other, dir);
  }

  lemma OwnStatusShown(dir: string, files: set<string>, running: bool)
    requires IsDirectory(dir)
    ensures StatusShown(dir, WithStatus(files, dir, running), running)
  {
    AllPathsDistinct(dir, dir);
  }

  ghost predicate ShownBySome(dirs: seq<string>, runs: seq<bool>, files: set<string>, dir: string)
    requires |dirs| == |runs|
  {
    exists j :: 0 <= j < |dirs| && dirs[j] == dir && StatusShown(dir, files, runs[j])
  }

  /** Controllers may share a directory: the status shown is the state of one of those that use it. */
  ghost predicate Reflects(dirs: seq<string>, runs: seq<bool>, files: set<string>) {
    |dirs| == |runs| && forall i :: 0 <= i < |dirs| ==> ShownBySome(dirs, runs, files, dirs[i])
  }

  lemma UsersReflect(dirs: seq<string>, runs: seq<bool>, files: set<string>, present: set<string>)
    requires AllDirectories(dirs) && Reflects(dirs, runs, files)
    ensures Reflects(dirs, runs, UsersLeave(files, present, AllStatus(dirs)))
  {
    var now := UsersLeave(files, present, AllStatus(dirs));
    forall i | 0 <= i < |dirs|
      ensures ShownBySome(dirs, runs, now, dirs[i])
    {
      var j :| 0 <= j < |dirs| && dirs[j] == dirs[i] && StatusShown(dirs[i], files, runs[j]);
      UsersKeepStatus(dirs, i, files, present, runs[j]);
    }
  }

  /** After a step of user i, every directory still shows the state of one of its users; where user i changed
      state, it shows that of i. */
  lemma SignalReflects(dirs: seq<string>, runs: seq<bool>, files: set<string>, i: nat, now: bool)
    requires AllDirectories(dirs) && Reflects(dirs, runs, files) && i < |dirs|
    ensures Reflects(dirs, runs[i := now], Signalled(files, dirs[i], runs[i], now))
    ensures runs[i] != now ==> StatusShown(dirs[i], Signalled(files, dirs[i], runs[i], now), now)
  {
    var next, nextFiles := runs[i := now], Signalled(files, dirs[i], runs[i], now);
    OwnStatusShown(dirs[i], files, now);
    forall k | 0 <= k < |dirs|
      ensures ShownBySome(dirs, next, nextFiles, dirs[k])
    {
      var j :| 0 <= j < |dirs| && dirs[j] == dirs[k] && StatusShown(dirs[k], files, runs[j]);
      if runs[i] == now {
        assert next[j] == runs[j];
      } else if dirs[k] == dirs[i] {
        assert dirs[i] == dirs[k] && next[i] == now;
      } else {
        OtherStatusKept(dirs[i], dirs[k], files, now, runs[j]);
        assert next[j] == runs[j];
      }
    }
  }

  /** While one directory's status changes, all others show some status. */
  lemma OtherSnapshots(dirs: seq<string>, runs: seq<bool>, files: set<string>, i: nat, k: nat, snapshot: set<string>)
    requires AllDirectories(dirs) && Reflects(dirs, runs, files) && i < |dirs| && k < |dirs|
    requires SomeStatus(dirs[i], snapshot) && snapshot - StatusFiles(dirs[i]) == files - StatusFiles(dirs[i])
    ensures SomeStatus(dirs[k], snapshot)
  {
    if dirs[k] != dirs[i] {
      AllPathsDistinct(dirs[i], dirs[k]);
      AllPathsDistinct(dirs[k], dirs[i]);
      assert ShownBySome(dirs, runs, files, dirs[k]);
      var j :| 0 <= j < |dirs| && dirs[j] == dirs[k] && StatusShown(dirs[k], files, runs[j]);
      var path := dirs[k] + if runs[j] then FILE_ON else FILE_OFF;
      assert path in files - StatusFiles(dirs[i]);
    }
  }

  /** The users of directory i are in the same state. */
  predicate Agreed(dirs: seq<string>, runs: seq<bool>, i: nat)
    requires i < |dirs| == |runs|
  {
    forall j, k :: 0 <= j < |dirs| && 0 <= k < |dirs| && dirs[j] == dirs[i] && dirs[k] == dirs[i] ==> runs[j] == runs[k]
  }

  /** The status in directory i is that of everyone who uses it. */
  predicate ShownForAll(dirs: seq<string>, runs: seq<bool>, files: set<string>, i: nat)
    requires i < |dirs| == |runs|
  {
    forall j :: 0 <= j < |dirs| && dirs[j] == dirs[i] ==> StatusShown(dirs[i], files, runs[j])
  }

  /** Exactly when a directory shows the right status: its users agree. A directory of one's own always does. */
  lemma ShownIffAgreed(dirs: seq<string>, runs: seq<bool>, files: set<string>, i: nat)
    requires Reflects(dirs, runs, files) && i < |dirs|
    ensures ShownForAll(dirs, runs, files, i) <==> Agreed(dirs, runs, i)
    ensures (forall j :: 0 <= j < |dirs| && j != i ==> dirs[j] != dirs[i]) ==> StatusShown(dirs[i], files, runs[i])
  {
    assert ShownBySome(dirs, runs, files, dirs[i]);
    var j :| 0 <= j < |dirs| && dirs[j] == dirs[i] && StatusShown(dirs[i], files, runs[j]);
  }

  // ----- the daemon: several controllers, one file system

  function Dirs(controllers: seq<ServerController>): (dirs: seq<string>)
    ensures |dirs| == |controllers|
  {
    seq(|controllers|, i requires 0 <= i < |controllers| => controllers[i].config.controlDir)
  }

  function Runs(controllers: seq<ServerController>): (runs: seq<bool>)
    reads controllers
    ensures |runs| == |controllers|
  {
    seq(|controllers|, i requires 0 <= i < |controllers| reads controllers => controllers[i].running)
  }

  /** The controllers are different objects on one file system, which reflects their states. */
  ghost predicate Together(controllers: seq<ServerController>, fs: FileSystem)
    reads controllers, fs
  {
    && (forall i :: 0 <= i < |controllers| ==> controllers[i].file == fs)
    && (forall i, j :: 0 <= i < j < |controllers| ==> controllers[i] != controllers[j])
    && AllDirectories(Dirs(controllers)) && Reflects(Dirs(controllers), Runs(controllers), fs.files)
  }

  /** c has made one step from state s, with answers a. */
  ghost predicate Stepped(c: ServerController, s: State, before: seq<Sent>, a: Answers)
    reads c
  {
    c.Current() == Next(c.config, s, a) && c.sent == before + SentBy(a.now, Decision(c.config, s, a))
  }

  /** The commands of the first k steps of a run. */
  function SentLog(cfg: Config, s: State, run: seq<Answers>, k: nat): seq<Sent>
    requires k <= |run|
  {
    if k == 0 then []
    else SentLog(cfg, s, run, k - 1) + SentBy(run[k - 1].now, CommandAt(cfg, s, run, k - 1))
  }

  lemma RunStep(cfg: Config, s: State, run: seq<Answers>, k: nat, before: seq<Sent>)
    requires k < |run|
    ensures StateAt(cfg, s, run, k + 1) == Next(cfg, StateAt(cfg, s, run, k), run[k])
    ensures before + SentLog(cfg, s, run, k + 1) ==
            before + SentLog(cfg, s, run, k) + SentBy(run[k].now, Decision(cfg, StateAt(cfg, s, run, k), run[k]))
  {}

  /** c has made k steps of the run from state s, and sent its commands after those in `before`. */
  ghost predicate Ran(c: ServerController, s: State, before: seq<Sent>, run: seq<Answers>, k: nat)
    reads c
  {
    && k <= |run| && c.Current() == StateAt(c.config, s, run, k)
    && c.sent == before + SentLog(c.config, s, run, k)
  }

  lemma OneMoreStep(c: ServerController, s: State, before: seq<Sent>, run: seq<Answers>, k: nat, at: State,
                    sent: seq<Sent>)
    requires k < |run| && at == StateAt(c.config, s, run, k) && sent == before + SentLog(c.config, s, run, k)
    requires Stepped(c, at, sent, run[k])
    ensures Ran(c, s, before, run, k + 1)
  {
    RunStep(c.config, s, run, k, before);
  }

  /** All snapshots from n on show some status for every controller. */
  ghost predicate AlwaysSomeStatus(controllers: seq<ServerController>, history: seq<set<string>>, n: nat) {
    forall h, j :: n <= h < |history| && 0 <= j < |controllers| ==>
      SomeStatus(controllers[j].config.controlDir, history[h])
  }

  lemma StatusThroughout(controllers: seq<ServerController>, before: seq<set<string>>, after: seq<set<string>>, n: nat)
    requires n <= |before| && before <= after
    requires AlwaysSomeStatus(controllers, before, n) && AlwaysSomeStatus(controllers, after, |before|)
    ensures AlwaysSomeStatus(controllers, after, n)
  {
    forall h, j | n <= h < |after| && 0 <= j < |controllers|
      ensures SomeStatus(controllers[j].config.controlDir, after[h])
    {
      assert h < |before| ==> after[h] == before[h];
    }
  }

  /** One turn: the users act, then controller i works. Every other controller is as it was. */
  method Turn(controllers: seq<ServerController>, i: nat, fs: FileSystem, input: Input, present: set<string>)
    requires Together(controllers, fs) && i < |controllers|
    modifies controllers[i], fs`files, fs`history
    ensures Together(controllers, fs)
    ensures var c := controllers[i];
      Stepped(c, old(c.Current()), old(c.sent), Answered(c.config.controlDir, present, input))
    ensures old(fs.history) <= fs.history && AlwaysSomeStatus(controllers, fs.history, |old(fs.history)|)
  {
    var c := controllers[i];
    ghost var dirs, runs := Dirs(controllers), Runs(controllers);
    UsersKeepStatus(dirs, i, fs.files, present, c.running);
    UsersReflect(dirs, runs, fs.files, present);
    fs.UsersAct(present, AllStatus(Dirs(controllers)));
    ghost var before := fs.files;
    c.DoWork(input);
    SignalReflects(dirs, runs, before, i, c.running);
    assert Runs(controllers) == runs[i := c.running];
    forall h, k | |old(fs.history)| <= h < |fs.history| && 0 <= k < |controllers|
      ensures SomeStatus(controllers[k].config.controlDir, fs.history[h])
    {
      OtherSnapshots(dirs, runs, before, i, k, fs.history[h]);
    }
  }

  /** What controller i learns in pass k, and which files the users leave behind before its turn. */
  datatype World = World(input: (nat, nat) -> Input, present: (nat, nat) -> set<string>)

  /** The answers one controller gets in n passes. */
  function AnswersOf(world: World, dir: string, i: nat, n: nat): (run: seq<Answers>)
    ensures |run| == n
    ensures forall k :: 0 <= k < n ==> run[k] == Answered(dir, world.present(k, i), world.input(k, i))
  {
    seq(n, k requires 0 <= k < n => Answered(dir, world.present(k, i), world.input(k, i)))
  }

  function Times(log: seq<Sent>): (times: seq<int>)
    ensures |times| == |log|
  {
    if log == [] then [] else Times(log[..|log| - 1]) + [log[|log| - 1].time]
  }

  lemma {:induction false} TimesOfLog(cfg: Config, s: State, run: seq<Answers>, k: nat)
    requires k <= |run|
    ensures Times(SentLog(cfg, s, run, k)) == SentTimes(cfg, s, run, k)
  {
    if k > 0 {
      TimesOfLog(cfg, s, run, k - 1);
      match CommandAt(cfg, s, run, k - 1)
      case None =>
        assert SentLog(cfg, s, run, k) == SentLog(cfg, s, run, k - 1);
      case Some(c) =>
        var log := SentLog(cfg, s, run, k);
        assert log[..|log| - 1] == SentLog(cfg, s, run, k - 1);
    }
  }

  /** One pass of the main loop. */
  method Pass(controllers: seq<ServerController>, fs: FileSystem, world: World, k: nat)
    requires Together(controllers, fs)
    modifies controllers, fs`files, fs`history
    ensures Together(controllers, fs)
    ensures forall i :: 0 <= i < |controllers| ==>
      Stepped(controllers[i], old(controllers[i].Current()), old(controllers[i].sent),
              Answered(controllers[i].config.controlDir, world.present(k, i), world.input(k, i)))
    ensures old(fs.history) <= fs.history && AlwaysSomeStatus(controllers, fs.history, |old(fs.history)|)
  {
    for i := 0 to |controllers|
      invariant Together(controllers, fs)
      invariant forall j :: 0 <= j < i ==>
        Stepped(controllers[j], old(controllers[j].Current()), old(controllers[j].sent),
                Answered(controllers[j].config.controlDir, world.present(k, j), world.input(k, j)))
      invariant forall j :: i <= j < |controllers| ==>
        controllers[j].Current() == old(controllers[j].Current()) && controllers[j].sent == old(controllers[j].sent)
      invariant old(fs.history) <= fs.history && AlwaysSomeStatus(controllers, fs.history, |old(fs.history)|)
    {
      ghost var history := fs.history;
      Turn(controllers, i, fs, world.input(k, i), world.present(k, i));
      StatusThroughout(controllers, history, fs.history, |old(fs.history)|);
    }
  }

  /** A directory shows the state of all who use it exactly if they agree. */
  ghost predicate StatusRight(controllers: seq<ServerController>, fs: FileSystem)
    reads controllers, fs
  {
    var dirs, runs := Dirs(controllers), Runs(controllers);
    forall i :: 0 <= i < |controllers| ==> (ShownForAll(dirs, runs, fs.files, i) <==> Agreed(dirs, runs, i))
  }

  lemma TogetherStatusRight(controllers: seq<ServerController>, fs: FileSystem)
    requires Together(controllers, fs)
    ensures StatusRight(controllers, fs)
  {
    forall i | 0 <= i < |controllers|
      ensures ShownForAll(Dirs(controllers), Runs(controllers), fs.files, i) <==>
              Agreed(Dirs(controllers), Runs(controllers), i)
    {
      ShownIffAgreed(Dirs(controllers), Runs(controllers), fs.files, i);
    }
  }

  /** Any number of passes: every controller goes through the very run of states and commands it would go
      through alone, whether or not others share its directory; at every moment every directory shows some
      status, and in the end it is the right one exactly where those who share the directory agree. */
  method MainLoop(controllers: seq<ServerController>, fs: FileSystem, world: World, passes: nat)
    requires Together(controllers, fs)
    modifies controllers, fs`files, fs`history
    ensures Together(controllers, fs)
    ensures forall i :: 0 <= i < |controllers| ==>
      Ran(controllers[i], old(controllers[i].Current()), old(controllers[i].sent),
          AnswersOf(world, controllers[i].config.controlDir, i, passes), passes)
    ensures old(fs.history) <= fs.history && AlwaysSomeStatus(controllers, fs.history, |old(fs.history)|)
    ensures StatusRight(controllers, fs)
  {
    for k := 0 to passes
      invariant Together(controllers, fs)
      invariant forall i :: 0 <= i < |controllers| ==>
        Ran(controllers[i], old(controllers[i].Current()), old(controllers[i].sent),
            AnswersOf(world, controllers[i].config.controlDir, i, passes), k)
      invariant old(fs.history) <= fs.history && AlwaysSomeStatus(controllers, fs.history, |old(fs.history)|)
    {
      ghost var history := fs.history;
      label before: Pass(controllers, fs, world, k);
      StatusThroughout(controllers, history, fs.history, |old(fs.history)|);
      forall i | 0 <= i < |controllers|
        ensures Ran(controllers[i], old(controllers[i].Current()), old(controllers[i].sent),
                    AnswersOf(world, controllers[i].config.controlDir, i, passes), k + 1)
      {
        var c := controllers[i];
        OneMoreStep(c, old(c.Current()), old(c.sent), AnswersOf(world, c.config.controlDir, i, passes), k,
                    old@before(c.Current()), old@before(c.sent));
      }
    }
    TogetherStatusRight(controllers, fs);
  }

  // ----- the whole daemon

  /** A configuration as it is stored. */
  function Stored(configured: Config): Config {
    configured.(controlDir := ControlDir(configured.controlDir))
  }

  /** A new controller leaves every directory with `off` only that had `off` only, also its own. */
  lemma InitialStatus(dir: string, other: string, files: set<string>)
    requires IsDirectory(dir) && IsDirectory(other) && (dir == other || StatusShown(other, files, false))
    ensures StatusShown(other, WithStatus(files, dir, false), false)
  {
    if dir == other {
      OwnStatusShown(dir, files, false);
    } else {
      OtherStatusKept(dir, other, files, false, false);
    }
  }

  /** c is as constructed from the configuration at the given time. */
  ghost predicate Initial(c: ServerController, configured: Config, fs: FileSystem, now: int)
    reads c, fs
  {
    && c.config == Stored(configured) && c.file == fs && c.Current() == State(false, 0, now) && c.sent == []
    && StatusShown(c.config.controlDir, fs.files, false)
  }

  /** The controllers of a configuration. Nothing is demanded of it: it may name one directory twice. Then a
      later controller removes the status files of an earlier one and writes them again. */
  method CreateControllers(configured: seq<Config>, fs: FileSystem, clock: nat -> int)
      returns (controllers: seq<ServerController>)
    modifies fs
    ensures |controllers| == |configured| && Together(controllers, fs)
    ensures forall i :: 0 <= i < |controllers| ==> fresh(controllers[i])
    ensures forall i :: 0 <= i < |controllers| ==> Initial(controllers[i], configured[i], fs, clock(i))
  {
    controllers := [];
    for k := 0 to |configured|
      invariant |controllers| == k
      invariant forall i :: 0 <= i < k ==> fresh(controllers[i]) && Initial(controllers[i], configured[i], fs, clock(i))
      invariant forall i, j :: 0 <= i < j < k ==> controllers[i] != controllers[j]
    {
      ghost var before := fs.files;
      var c := new ServerController(Stored(configured[k]), fs, clock(k));
      InitialStatus(c.config.controlDir, c.config.controlDir, before);
      forall i | 0 <= i < k
        ensures Initial(controllers[i], configured[i], fs, clock(i))
      {
        InitialStatus(c.config.controlDir, controllers[i].config.controlDir, before);
      }
      controllers := controllers + [c];
    }
    ghost var dirs, runs := Dirs(controllers), Runs(controllers);
    forall i | 0 <= i < |dirs|
      ensures ShownBySome(dirs, runs, fs.files, dirs[i])
    {
      assert Initial(controllers[i], configured[i], fs, clock(i));
      assert dirs[i] == dirs[i] && !runs[i];
    }
  }

  predicate WithinRate(log: seq<Sent>, interval: int, lo: int, w: nat)
    requires interval > 0
  {
    CountIn(Times(log), lo, lo + w) <= w / interval + 1
  }

  /** The rate bound, for the log of a controller object. */
  lemma RanWithinRate(c: ServerController, s: State, run: seq<Answers>, lo: int, w: nat)
    requires c.config.controlInterval > 0 && Ran(c, s, [], run, |run|)
    ensures WithinRate(c.sent, c.config.controlInterval, lo, w)
  {
    assert c.sent == SentLog(c.config, s, run, |run|);
    TimesOfLog(c.config, s, run, |run|);
    RateBound(c.config, s, run, lo, w);
  }

  lemma {:induction false} NothingSent(cfg: Config, s: State, run: seq<Answers>, k: nat)
    requires k <= |run| && NoCommand(cfg, s, run, 0, k)
    ensures SentLog(cfg, s, run, k) == []
  {
    if k > 0 {
      NothingSent(cfg, s, run, k - 1);
    }
  }

  lemma {:induction false} LogGrows(cfg: Config, s: State, run: seq<Answers>, j: nat, k: nat)
    requires j <= k <= |run|
    ensures SentLog(cfg, s, run, j) <= SentLog(cfg, s, run, k)
  {
    if j < k {
      LogGrows(cfg, s, run, j, k - 1);
    }
  }

  lemma FirstSent(cfg: Config, s: State, run: seq<Answers>, i: nat)
    requires i < |run| && NoCommand(cfg, s, run, 0, i) && CommandAt(cfg, s, run, i).Some?
    ensures [Sent(run[i].now, CommandAt(cfg, s, run, i).value)] <= SentLog(cfg, s, run, |run|)
  {
    NothingSent(cfg, s, run, i);
    LogGrows(cfg, s, run, i + 1, |run|);
  }

  /** Bounded response, for a controller object that has been created with its server running and unwanted: the
      first command in its log is a shutdown in due time. */
  lemma RanResponds(c: ServerController, created: nat, run: seq<Answers>, d: int)
    requires c.config.controlInterval > 0 && c.config.shutdownTimeout >= 0 && d >= 0
    requires Ran(c, State(false, 0, created), [], run, |run|)
    requires QuietFrom(c.config, State(false, 0, created), run, d, 0)
    requires run != [] && created <= run[0].now <= created + d
    requires run[|run| - 1].now >= created + c.config.shutdownTimeout + c.config.controlInterval + d
    ensures c.sent != [] && c.sent[0].command == ShutDown(c.config.ip, c.config.sshUser)
    ensures var due := created + c.config.shutdownTimeout;
      due <= c.sent[0].time < due + c.config.controlInterval + d
  {
    var s := State(false, 0, created);
    var i := BoundedResponseFromState(c.config, s, run, d);
    FirstSent(c.config, s, run, i);
    assert c.sent == SentLog(c.config, s, run, |run|);
  }

  /** A controller whose configured directory is named only once. */
  predicate OwnDirectory(configured: seq<Config>, i: nat)
    requires i < |configured|
  {
    forall j :: 0 <= j < |configured| && j != i ==> configured[j].controlDir != configured[i].controlDir
  }

  /** The state of controller j after n passes, from the start of the daemon. */
  function RunningAfterPasses(configured: seq<Config>, clock: nat -> int, world: World, n: nat, j: nat): bool
    requires j < |configured|
  {
    var cfg := Stored(configured[j]);
    StateAt(cfg, State(false, 0, clock(j)), AnswersOf(world, cfg.controlDir, j, n), n).running
  }

  /** After n passes, whoever uses the directory of controller i is in the same state as i. */
  predicate AgreedAfter(configured: seq<Config>, clock: nat -> int, world: World, n: nat, i: nat)
    requires i < |configured|
  {
    forall j :: 0 <= j < |configured| && configured[j].controlDir == configured[i].controlDir ==>
      RunningAfterPasses(configured, clock, world, n, j) == RunningAfterPasses(configured, clock, world, n, i)
  }

  /** They are so in every run of the daemon. */
  ghost predicate AlwaysAgreed(configured: seq<Config>, i: nat)
    requires i < |configured|
  {
    forall clock: nat -> int, world: World, n: nat :: AgreedAfter(configured, clock, world, n, i)
  }

  /** A world in which at a given time only the server of controller i answers. */
  function OnlyAnswers(i: nat, now: int): World {
    World((k: nat, j: nat) => Input(now, if j == i then HostActive else HostInactive, c => ClientAnswer(true, Failed)),
          (k: nat, j: nat) => {})
  }

  lemma OnePass(configured: seq<Config>, clock: nat -> int, i: nat, now: int, j: nat)
    requires j < |configured| && configured[j].controlInterval <= now
    ensures RunningAfterPasses(configured, clock, OnlyAnswers(i, now), 1, j) <==> j == i
  {
    var cfg, s := Stored(configured[j]), State(false, 0, clock(j));
    var run := AnswersOf(OnlyAnswers(i, now), cfg.controlDir, j, 1);
    assert StateAt(cfg, s, run, 1) == Next(cfg, StateAt(cfg, s, run, 0), run[0]);
  }

  /** Two controllers that share a directory disagree after one pass of that world, whenever they were created:
      the first is running, the second is not. */
  lemma SharedDirectoryFails(configured: seq<Config>, clock: nat -> int, i: nat, j: nat, now: int)
    requires i < |configured| && j < |configured| && i != j && configured[j].controlDir == configured[i].controlDir
    requires configured[i].controlInterval <= now && configured[j].controlInterval <= now
    ensures !AgreedAfter(configured, clock, OnlyAnswers(i, now), 1, i)
  {
    OnePass(configured, clock, i, now, i);
    OnePass(configured, clock, i, now, j);
  }

  /** The exact condition, on the configuration: the users of the directory of controller i agree in every run
      if and only if that directory is named once. */
  lemma AlwaysAgreedIffOwn(configured: seq<Config>, i: nat)
    requires i < |configured|
    ensures AlwaysAgreed(configured, i) <==> OwnDirectory(configured, i)
  {
    if AlwaysAgreed(configured, i) {
      forall j | 0 <= j < |configured| && j != i
        ensures configured[j].controlDir != configured[i].controlDir
      {
        if configured[j].controlDir == configured[i].controlDir {
          var clock := (k: nat) => 0;
          var a, b := configured[i].controlInterval, configured[j].controlInterval;
          SharedDirectoryFails(configured, clock, i, j, if a > b then a else b);
          assert false;
        }
      }
    }
  }

  /** What the files show for controller i, in terms of the configuration and the world. */
  lemma StatusAfterPasses(controllers: seq<ServerController>, fs: FileSystem, configured: seq<Config>,
                          clock: nat -> int, world: World, n: nat, i: nat)
    requires Together(controllers, fs) && |controllers| == |configured| && i < |configured|
    requires forall j :: 0 <= j < |configured| ==>
      && controllers[j].config == Stored(configured[j])
      && controllers[j].running == RunningAfterPasses(configured, clock, world, n, j)
    ensures ShownForAll(Dirs(controllers), Runs(controllers), fs.files, i) <==>
            AgreedAfter(configured, clock, world, n, i)
  {
    var dirs, runs := Dirs(controllers), Runs(controllers);
    ShownIffAgreed(dirs, runs, fs.files, i);
    forall j | 0 <= j < |configured|
      ensures dirs[j] == dirs[i] <==> configured[j].controlDir == configured[i].controlDir
      ensures runs[j] == RunningAfterPasses(configured, clock, world, n, j)
    {
      DifferentDirectories(configured[j].controlDir, configured[i].controlDir);
    }
  }

  /** The daemon from its start: controllers are created, then take turns. Each one goes through the run of its
      own answers from the initial state, and what it has sent keeps to the rate. From the moment `started` on,
      when all have been created, every directory shows some status. In the end it is the right one for all
      who use it exactly if they agree. */
  method RunDaemon(configured: seq<Config>, fs: FileSystem, clock: nat -> int, world: World, passes: nat)
      returns (controllers: seq<ServerController>, ghost started: nat)
    modifies fs
    ensures |controllers| == |configured| && Together(controllers, fs)
    ensures forall i :: 0 <= i < |controllers| ==>
      && controllers[i].config == Stored(configured[i])
      && Ran(controllers[i], State(false, 0, clock(i)), [],
             AnswersOf(world, controllers[i].config.controlDir, i, passes), passes)
    ensures forall i, lo: int, w: nat :: 0 <= i < |controllers| && controllers[i].config.controlInterval > 0 ==>
      WithinRate(controllers[i].sent, controllers[i].config.controlInterval, lo, w)
    ensures started <= |fs.history| && AlwaysSomeStatus(controllers, fs.history, started)
    ensures forall i :: 0 <= i < |controllers| ==>
      (ShownForAll(Dirs(controllers), Runs(controllers), fs.files, i) <==>
       AgreedAfter(configured, clock, world, passes, i))
    ensures forall i :: 0 <= i < |controllers| && OwnDirectory(configured, i) ==>
      StatusShown(controllers[i].config.controlDir, fs.files, controllers[i].running)
    ensures StatusRight(controllers, fs)
  {
    controllers := CreateControllers(configured, fs, clock);
    started := |fs.history|;
    assert forall i :: 0 <= i < |controllers| ==> Initial(controllers[i], configured[i], fs, clock(i));
    MainLoop(controllers, fs, world, passes);
    forall i, lo: int, w: nat | 0 <= i < |controllers| && controllers[i].config.controlInterval > 0
      ensures WithinRate(controllers[i].sent, controllers[i].config.controlInterval, lo, w)
    {
      var run := AnswersOf(world, controllers[i].config.controlDir, i, passes);
      RanWithinRate(controllers[i], State(false, 0, clock(i)), run, lo, w);
    }
    forall i | 0 <= i < |controllers|
      ensures ShownForAll(Dirs(controllers), Runs(controllers), fs.files, i) <==>
              AgreedAfter(configured, clock, world, passes, i)
    {
      StatusAfterPasses(controllers, fs, configured, clock, world, passes, i);
    }
    forall i | 0 <= i < |controllers| && OwnDirectory(configured, i)
      ensures StatusShown(controllers[i].config.controlDir, fs.files, controllers[i].running)
    {
      assert Dirs(controllers)[i] == controllers[i].config.controlDir && Runs(controllers)[i] == controllers[i].running;
      assert AgreedAfter(configured, clock, world, passes, i);
    }
  }
}
