/** StorletDaemonFactory: one daemon process per storlet name inside a container. */
module DaemonFactory {
  import opened Processes

  type Name = string

  /** `owner` says for which storlet each process was ever spawned.
      Every running daemon is on record under its own name, a name's record is one of its own processes,
      and every name on record has a pipe. */
  ghost predicate Recorded(pids: map<Name, Pid>, pipes: map<Name, string>, owner: map<Pid, Name>, children: Children) {
    && children.Keys <= owner.Keys
    && (forall p :: p in children && children[p] == Running ==> owner[p] in pids && pids[owner[p]] == p)
    && (forall n :: n in pids ==> pids[n] in owner && owner[pids[n]] == n)
    && pids.Keys <= pipes.Keys
  }

  /** At most one daemon runs per storlet name, and distinct names have distinct processes on record. */
  lemma OneDaemonPerName(pids: map<Name, Pid>, pipes: map<Name, string>, owner: map<Pid, Name>, children: Children)
    requires Recorded(pids, pipes, owner, children)
    ensures forall p, q :: p in children && q in children && children[p] == children[q] == Running ==>
              owner[p] == owner[q] ==> p == q
    ensures forall n, m :: n in pids && m in pids && pids[n] == pids[m] ==> n == m
  {
  }

  /** The names whose process has not been reaped yet. */
  function Unreaped(pids: map<Name, Pid>, children: Children): set<Name> {
    set n | n in pids && pids[n] in children
  }

  /** Every daemon on record listens on the pipe its storlet is given, and that pipe is on record. */
  ghost predicate ListenOn(pids: map<Name, Pid>, pipes: map<Name, string>, listens: map<Pid, string>,
                           paths: Name -> string) {
    forall n :: n in pids ==> n in pipes && pids[n] in listens && pipes[n] == listens[pids[n]] == paths(n)
  }

  /** How a ping ends: Broken is an sbus error other than a failed send. */
  datatype Ping = Answered | Unsuccessful | Broken

  const MAX_PINGS := 10

  /** Pings up to the first that is answered or breaks, ten at most, and no fewer unless one was or did. */
  predicate PingedInTurn(pings: seq<Ping>) {
    && 0 < |pings| <= 10 && (forall i :: 0 <= i < |pings| - 1 ==> pings[i] == Unsuccessful)
    && (pings[|pings| - 1] == Unsuccessful ==> |pings| == 10)
  }

  datatype StartReply = Started | AlreadyRunning | StartFailed

  class StorletDaemonFactory {
    const kernel: Kernel
    var storletNameToPid: map<Name, Pid>
    var storletNameToPipeName: map<Name, string>
    ghost var owner: map<Pid, Name>
    ghost var listens: map<Pid, string>    // the pipe each process was spawned with

    ghost predicate Valid()
      reads this, kernel
    {
      kernel.Valid() && owner.Keys <= kernel.used && owner.Keys <= listens.Keys &&
      Recorded(storletNameToPid, storletNameToPipeName, owner, kernel.children)
    }

    /** A daemon for the storlet is running. */
    ghost predicate Runs(name: Name)
      reads this, kernel
    {
      name in storletNameToPid && storletNameToPid[name] in kernel.children &&
      kernel.children[storletNameToPid[name]] == Running
    }

    /** The pipe on record is the one the daemon on record listens on. */
    ghost predicate PipeIsRight(name: Name)
      reads this
    {
      name in storletNameToPid && name in storletNameToPipeName && storletNameToPid[name] in listens &&
      storletNameToPipeName[name] == listens[storletNameToPid[name]]
    }

    /** A factory in a fresh container. */
    constructor (kernel: Kernel)
      requires kernel.Valid() && kernel.children == map[]
      ensures Valid() && this.kernel == kernel && storletNameToPid == map[] && storletNameToPipeName == map[]
    {
      this.kernel := kernel;
      storletNameToPid, storletNameToPipeName, owner, listens := map[], map[], map[], map[];
    }

    method StatusByName(name: Name) returns (running: bool)
      requires Valid()
      modifies kernel`children
      ensures Valid() && running == Runs(name) && (running ==> old(Runs(name)))
      ensures kernel.children.Keys <= old(kernel.children).Keys
      ensures forall p :: p in old(kernel.children) && p !in kernel.children ==>
                name in storletNameToPid && p == storletNameToPid[name] && !running
    {
      running := false;
      if name in storletNameToPid {
        ghost var before := kernel.children;
        var r := kernel.WaitpidNoHang(storletNameToPid[name]);
        RecordedLater(storletNameToPid, storletNameToPipeName, owner, before, kernel.children);
        running := r == StillRunning;
      }
    }

    /** Pings a new daemon until it answers, the bus breaks or ten pings were made; only a running daemon
        answers. */
    method WaitForDaemonToInitialize(name: Name) returns (responds: bool, pings: seq<Ping>)
      requires Valid() && name in storletNameToPid
      modifies kernel`children
      ensures Valid() && (responds ==> Runs(name))
      ensures kernel.children.Keys == old(kernel.children).Keys
      ensures PingedInTurn(pings) && (responds <==> pings[|pings| - 1] == Answered)
    {
      hide Recorded;
      responds, pings := false, [];
      while |pings| < MAX_PINGS
        invariant Valid() && !responds && |pings| <= MAX_PINGS && forall i :: 0 <= i < |pings| ==>
                    pings[i] == Unsuccessful
        invariant kernel.children.Keys == old(kernel.children).Keys
      {
        ghost var before := kernel.children;
        kernel.Tick();
        RecordedLater(storletNameToPid, storletNameToPipeName, owner, before, kernel.children);
        var alive := storletNameToPid[name] in kernel.children && kernel.children[storletNameToPid[name]] == Running;
        var answers, breaks: bool := *, *;
        var ping := if alive && answers then Answered else if breaks then Broken else Unsuccessful;
        pings := pings + [ping];
        if ping == Answered { return true, pings; }
        if ping == Broken { break; }
      }
    }

    /** The first half of spawn_subprocess, for a storlet without a running daemon: the new process is
        recorded if it is still alive. */
    method Launch(name: Name) returns (alive: bool, pid: Pid)
      requires Valid() && name in storletNameToPipeName && !Runs(name)
      modifies this`storletNameToPid, this`owner, this`listens, kernel
      ensures Valid() && old(kernel.used) < kernel.used
      ensures pid !in old(kernel.used) && pid in listens && listens[pid] == storletNameToPipeName[name]
      ensures alive ==> storletNameToPid == old(storletNameToPid)[name := pid]
      ensures !alive ==> !Runs(name) && storletNameToPid == old(storletNameToPid)
      ensures forall p :: p in old(owner) ==> p in listens && listens[p] == old(listens)[p]
    {
      hide Recorded;
      ghost var before := kernel.children;
      pid := kernel.Fork();
      ghost var spawned := kernel.children;
      var r := kernel.WaitpidNoHang(pid);
      StillNotRunning(storletNameToPid, before, spawned, kernel.children, name, pid, r);
      Spawned(storletNameToPid, storletNameToPipeName, owner, before, spawned, kernel.children, name, pid, r);
      OwnProcess(storletNameToPid, storletNameToPipeName, owner, before, name, pid);
      MoreKeys(owner, listens, pid, name, storletNameToPipeName[name]);
      owner := owner[pid := name];
      listens := listens[pid := storletNameToPipeName[name]];
      alive := r == StillRunning;
      if alive {
        storletNameToPid := storletNameToPid[name := pid];
      }
    }

    /** spawn_subprocess, for a storlet without a running daemon; ok means that the new process is alive and
        answered. */
    method SpawnSubprocess(name: Name) returns (ok: bool, ghost pings: seq<Ping>)
      requires Valid() && name in storletNameToPipeName && !Runs(name)
      modifies this`storletNameToPid, this`owner, this`listens, kernel
      ensures Valid() && old(kernel.used) < kernel.used
      ensures ok ==> Runs(name)
      ensures ok <==> pings != [] && pings[|pings| - 1] == Answered
      ensures if pings == [] then !Runs(name) && storletNameToPid == old(storletNameToPid)
              else name in storletNameToPid && storletNameToPid[name] !in old(kernel.used) && PingedInTurn(pings)
      ensures Runs(name) ==> storletNameToPid[name] !in old(kernel.used) && PipeIsRight(name)
      ensures name in storletNameToPid ==> PipeIsRight(name) || storletNameToPid == old(storletNameToPid)
      ensures forall p :: p in old(owner) ==> p in listens && listens[p] == old(listens)[p]
      ensures storletNameToPid.Keys <= old(storletNameToPid).Keys + {name}
      ensures forall n :: n in old(storletNameToPid) && n != name ==>
                n in storletNameToPid && storletNameToPid[n] == old(storletNameToPid)[n]
    {
      hide Recorded;
      var alive, pid := Launch(name);
      if !alive { return false, []; }
      ok, pings := WaitForDaemonToInitialize(name);
    }

    /** process_start_daemon. `runnable` stands for an available runtime and a process that can be spawned. The
        pipe is put on record before the answer "already running": exactly then, and with a pipe that is not
        the one the daemon listens on, the record of a running daemon's pipe is wrong. `running` is what the
        status check found, and `pings` are those sent to a process that was spawned and alive. */
    method ProcessStartDaemon(name: Name, udsPath: string, supported: bool, runnable: bool)
      returns (reply: StartReply, ghost running: bool, ghost pings: seq<Ping>)
      requires Valid()
      modifies this, kernel
      ensures Valid() && old(kernel.used) <= kernel.used
      ensures reply != StartFailed ==> Runs(name)
      ensures reply == AlreadyRunning <==> supported && running
      ensures reply == Started <==> pings != [] && pings[|pings| - 1] == Answered
      ensures pings != [] ==>
                && supported && !running && runnable && PingedInTurn(pings)
                && name in storletNameToPid && storletNameToPid[name] !in old(kernel.used)
      ensures pings == [] ==> storletNameToPid == old(storletNameToPid)
      ensures pings == [] && reply == StartFailed && supported ==> !Runs(name)
      ensures running ==> old(Runs(name))
      ensures reply == Started ==> storletNameToPid[name] !in old(kernel.used)
      ensures reply == AlreadyRunning ==> old(Runs(name)) && storletNameToPid == old(storletNameToPid)
      ensures Runs(name) && storletNameToPid[name] in old(kernel.used) ==>
                old(Runs(name)) && storletNameToPid == old(storletNameToPid) && (reply == AlreadyRunning || !supported)
      ensures !supported ==>
                && reply == StartFailed && storletNameToPid == old(storletNameToPid)
                && storletNameToPipeName == old(storletNameToPipeName) && kernel.children == old(kernel.children)
      ensures supported ==> storletNameToPipeName == old(storletNameToPipeName)[name := udsPath]
      ensures supported && Runs(name) ==>
                (PipeIsRight(name) <==> reply != AlreadyRunning || udsPath == listens[storletNameToPid[name]])
      ensures name in storletNameToPid ==> PipeIsRight(name) || storletNameToPid == old(storletNameToPid)
      ensures forall p :: p in old(owner) ==> p in listens && listens[p] == old(listens)[p]
      ensures kernel.used == old(kernel.used) <==> reply == AlreadyRunning || !supported || !runnable
      ensures storletNameToPid.Keys <= old(storletNameToPid).Keys + {name}
      ensures forall n :: n in old(storletNameToPid) && n != name ==>
                n in storletNameToPid && storletNameToPid[n] == old(storletNameToPid)[n]
    {
      hide Recorded;
      running, pings := false, [];
      reply := StartFailed;
      if !supported { return; }
      PipeAdded(storletNameToPid, storletNameToPipeName, owner, kernel.children, name, udsPath);
      storletNameToPipeName := storletNameToPipeName[name := udsPath];
      OwnersKnown(storletNameToPid, storletNameToPipeName, owner, kernel.children);
      var isRunning := StatusByName(name);
      running := isRunning;
      if isRunning { return AlreadyRunning, running, pings; }
      if !runnable { return; }
      var responds;
      responds, pings := SpawnSubprocess(name);
      reply := if responds then Started else StartFailed;
    }

    /** process_kill: fails for a name without a record, and for a daemon that crashed and was already
        reaped by a status call; such a record stays. A killed daemon may be left unreaped, off the record. */
    method ProcessKill(name: Name) returns (ok: bool)
      requires Valid()
      modifies this`storletNameToPid, kernel`children
      ensures Valid()
      ensures ok <==> name in old(storletNameToPid) && old(storletNameToPid)[name] in old(kernel.children)
      ensures storletNameToPid == if ok then old(storletNameToPid) - {name} else old(storletNameToPid)
      ensures !ok ==> kernel.children.Keys == old(kernel.children).Keys
      ensures ok ==> (var pid := old(storletNameToPid)[name];
                      && kernel.children.Keys + {pid} == old(kernel.children).Keys
                      && (pid in kernel.children ==> kernel.children[pid] == Zombie))
    {
      if name !in storletNameToPid { return false; }
      hide Recorded;
      var pid := storletNameToPid[name];
      ghost var before := kernel.children;
      ok := kernel.Kill(pid);
      RecordedLater(storletNameToPid, storletNameToPipeName, owner, before, kernel.children);
      if !ok { return; }
      before := kernel.children;
      var _ := kernel.WaitpidKilled(pid);
      RecordedLater(storletNameToPid, storletNameToPipeName, owner, before, kernel.children);
      RecordedWithout(storletNameToPid, storletNameToPipeName, owner, kernel.children, name);
      storletNameToPid := storletNameToPid - {name};
    }

    /** process_kill_all: the names on record are split into killed and failed, and exactly the failed
        ones stay. What fails is what had been reaped before. */
    method ProcessKillAll(tryAll: bool) returns (killed: set<Name>, failed: set<Name>, raised: bool)
      requires Valid()
      modifies this`storletNameToPid, kernel`children
      ensures Valid()
      ensures storletNameToPid == old(storletNameToPid) - killed
      ensures killed <= old(Unreaped(storletNameToPid, kernel.children)) &&
              failed !! old(Unreaped(storletNameToPid, kernel.children))
      ensures tryAll ==> killed + failed == old(storletNameToPid).Keys && storletNameToPid.Keys == failed
      ensures !raised ==> failed == {} && storletNameToPid == map[]
      ensures raised <==> !(old(storletNameToPid).Keys <= old(Unreaped(storletNameToPid, kernel.children)))
    {
      hide Recorded, Unreaped;
      killed, failed, raised := {}, {}, false;
      var rest := storletNameToPid.Keys;
      ghost var unreaped := Unreaped(storletNameToPid, kernel.children);
      while rest != {}
        invariant Valid() && killed + failed + rest == old(storletNameToPid).Keys
        invariant killed !! failed && killed !! rest && failed !! rest
        invariant storletNameToPid == old(storletNameToPid) - killed
        invariant Unreaped(storletNameToPid, kernel.children) == unreaped - killed
        invariant killed <= unreaped && failed !! unreaped
        invariant tryAll || failed == {}
        decreases rest
      {
        var name: Name :| name in rest;
        ghost var pids, before := storletNameToPid, kernel.children;
        UnreapedIs(pids, before, name);
        OneProcessPerName(pids, storletNameToPipeName, owner, before, name);
        var ok := ProcessKill(name);
        if ok {
          KilledOne(pids, before, kernel.children, name);
          killed := killed + {name};
        } else {
          SameUnreaped(pids, before, kernel.children);
          if tryAll {
            failed := failed + {name};
          } else {
            raised := true;
            return;
          }
        }
        rest := rest - {name};
      }
      raised := failed != {};
      OnlyFailedLeft(old(storletNameToPid), storletNameToPid, killed, failed);
    }

    /** shutdown_process: asks the daemon to halt and waits for it. The lookup of the pipe never fails. */
    method ShutdownProcess(name: Name, acknowledged: bool) returns (ok: bool)
      requires Valid()
      modifies this`storletNameToPid, kernel`children
      ensures Valid()
      ensures ok <==>
                acknowledged && name in old(storletNameToPid) && old(storletNameToPid)[name] in old(kernel.children)
      ensures storletNameToPid == if ok then old(storletNameToPid) - {name} else old(storletNameToPid)
      ensures kernel.children.Keys == if ok then old(kernel.children).Keys - {old(storletNameToPid)[name]}
                                      else old(kernel.children).Keys
    {
      if name !in storletNameToPid { return false; }
      HasPipe(storletNameToPid, storletNameToPipeName, owner, kernel.children, name);
      hide Recorded;
      var pid := storletNameToPid[name];
      var pipe := storletNameToPipeName[name];
      ghost var before := kernel.children;
      kernel.Tick();
      RecordedLater(storletNameToPid, storletNameToPipeName, owner, before, kernel.children);
      if !acknowledged { return false; }
      before := kernel.children;
      ok := kernel.Waitpid(pid);
      RecordedLater(storletNameToPid, storletNameToPipeName, owner, before, kernel.children);
      if ok {
        RecordedWithout(storletNameToPid, storletNameToPipeName, owner, kernel.children, name);
        storletNameToPid := storletNameToPid - {name};
      }
    }

    /** shutdown_all_processes, where `willing` are the storlets whose daemon acknowledges the halt. */
    method ShutdownAllProcesses(tryAll: bool, willing: set<Name>)
      returns (terminated: set<Name>, failed: set<Name>, raised: bool)
      requires Valid()
      modifies this`storletNameToPid, kernel`children
      ensures Valid()
      ensures storletNameToPid == old(storletNameToPid) - terminated
      ensures terminated <= old(Unreaped(storletNameToPid, kernel.children)) * willing
      ensures failed !! old(Unreaped(storletNameToPid, kernel.children)) * willing
      ensures tryAll ==> terminated + failed == old(storletNameToPid).Keys && storletNameToPid.Keys == failed
      ensures !raised ==> failed == {} && storletNameToPid == map[]
      ensures raised <==> !(old(storletNameToPid).Keys <= old(Unreaped(storletNameToPid, kernel.children)) * willing)
      ensures tryAll ==> terminated == old(Unreaped(storletNameToPid, kernel.children)) * willing
      ensures Unreaped(storletNameToPid, kernel.children) ==
                old(Unreaped(storletNameToPid, kernel.children)) - terminated
      ensures old(storletNameToPid) == map[] ==> terminated == {} && !raised && kernel.children == old(kernel.children)
    {
      hide Recorded, Unreaped;
      UnreapedKnown(storletNameToPid, kernel.children);
      terminated, failed, raised := {}, {}, false;
      var rest := storletNameToPid.Keys;
      ghost var unreaped := Unreaped(storletNameToPid, kernel.children);
      while rest != {}
        invariant Valid() && terminated + failed + rest == old(storletNameToPid).Keys
        invariant terminated !! failed && terminated !! rest && failed !! rest
        invariant storletNameToPid == old(storletNameToPid) - terminated
        invariant Unreaped(storletNameToPid, kernel.children) == unreaped - terminated
        invariant terminated <= unreaped * willing && failed !! unreaped * willing
        invariant tryAll || failed == {}
        invariant old(storletNameToPid) == map[] ==> kernel.children == old(kernel.children)
        decreases rest
      {
        var name: Name :| name in rest;
        ghost var pids, before := storletNameToPid, kernel.children;
        UnreapedIs(pids, before, name);
        OneProcessPerName(pids, storletNameToPipeName, owner, before, name);
        var ok := ShutdownProcess(name, name in willing);
        if ok {
          KilledOne(pids, before, kernel.children, name);
          terminated := terminated + {name};
        } else {
          SameUnreaped(pids, before, kernel.children);
          if tryAll {
            failed := failed + {name};
          } else {
            raised := true;
            return;
          }
        }
        rest := rest - {name};
      }
      raised := failed != {};
      OnlyFailedLeft(old(storletNameToPid), storletNameToPid, terminated, failed);
    }

    /** The halt command followed by the shutdown of `_terminate`, which the main loop always makes:
        after a successful halt it finds nothing to do, and no daemon runs. */
    method HaltAndTerminate(willing: set<Name>, willingLater: set<Name>)
      returns (halted: bool, raised: bool, again: set<Name>)
      requires Valid()
      modifies this`storletNameToPid, kernel`children
      ensures Valid() && storletNameToPid.Keys <= old(storletNameToPid).Keys
      ensures halted <==> old(storletNameToPid).Keys <= old(Unreaped(storletNameToPid, kernel.children)) * willing
      ensures halted ==> !raised && again == {}
      ensures again == old(Unreaped(storletNameToPid, kernel.children)) * (willingLater - willing)
      ensures storletNameToPid ==
              old(storletNameToPid) - old(Unreaped(storletNameToPid, kernel.children)) * (willing + willingLater)
      ensures !raised ==> storletNameToPid == map[] && forall p :: p in kernel.children ==> kernel.children[p] == Zombie
    {
      hide Recorded, Unreaped;
      var terminated, failed, failedHalt := ShutdownAllProcesses(true, willing);
      halted := !failedHalt;
      var left, failedAgain;
      again, left, failedAgain := ShutdownAllProcesses(true, willingLater);
      raised := failedAgain;
      if !raised {
        NothingRuns(storletNameToPid, storletNameToPipeName, owner, kernel.children);
      }
    }

    /** One command, with crashes before it: whether it succeeded, and whether the factory goes on. A start
        leaves a daemon running if it succeeds and touches no other storlet; a stop forgets one daemon, a
        status request none; stopping or halting all forgets those that could be killed or that acknowledged. */
    method ServeOne(command: Command, ghost paths: Name -> string) returns (success: bool, iterable: bool)
      requires Valid()
      modifies this, kernel
      ensures Valid() && (iterable <==> !command.StopDaemons? && !command.Halt?)
      ensures Served(command, success, old(storletNameToPid), storletNameToPid, old(kernel.children))
      ensures command.StartDaemon? && success ==> Runs(command.name)
      ensures command.DaemonStatus? ==> (success <==> Runs(command.name))
      ensures old(ListenOn(storletNameToPid, storletNameToPipeName, listens, paths)) &&
              (command.StartDaemon? ==> command.udsPath == paths(command.name)) ==>
                ListenOn(storletNameToPid, storletNameToPipeName, listens, paths)
    {
      hide Recorded, ListenOn, Unreaped;
      ghost var start := kernel.children;
      kernel.Tick();
      RecordedLater(storletNameToPid, storletNameToPipeName, owner, start, kernel.children);
      SameUnreaped(storletNameToPid, start, kernel.children);
      ghost var pids, pipes, heard := storletNameToPid, storletNameToPipeName, listens;
      OwnersKnown(pids, pipes, owner, kernel.children);
      iterable := true;
      match command {
        case StartDaemon(name, udsPath, supported, runnable) =>
          ghost var running, pings;
          var reply;
          reply, running, pings := ProcessStartDaemon(name, udsPath, supported, runnable);
          success := reply != StartFailed;
          StartKeepsPipes(pids, pipes, heard, storletNameToPid, storletNameToPipeName, listens, name, udsPath, paths);
        case StopDaemon(name) =>
          UnreapedIs(pids, start, name);
          success := ProcessKill(name);
          FewerListen(pids, storletNameToPid, pipes, heard, paths);
        case DaemonStatus(name) =>
          success := StatusByName(name);
        case StopDaemons =>
          var killed, failed, raised := ProcessKillAll(true);
          success, iterable := !raised, false;
          FewerListen(pids, storletNameToPid, pipes, heard, paths);
        case Halt(willing) =>
          var terminated, failed, raised := ShutdownAllProcesses(true, willing);
          success, iterable := !raised, false;
          FewerListen(pids, storletNameToPid, pipes, heard, paths);
      }
    }

    /** Any run of commands, with crashes in between, up to a command that ends the factory or a signal when
        the commands run out, and then the shutdown of `_terminate`. As long as every storlet is started with
        its own pipe, the pipes on record are the right ones throughout. */
    method Serve(commands: seq<Command>, willing: set<Name>, ghost paths: Name -> string)
      returns (raised: bool, ghost served: nat)
      requires Valid()
      modifies this, kernel
      ensures Valid()
      ensures !raised ==> storletNameToPid == map[] && forall p :: p in kernel.children ==> kernel.children[p] == Zombie
      ensures served <= |commands| && forall k :: 0 <= k < served - 1 ==>
                !commands[k].StopDaemons? && !commands[k].Halt?
      ensures served < |commands| ==> served > 0 && (commands[served - 1].StopDaemons? || commands[served - 1].Halt?)
      ensures Unreaped(storletNameToPid, kernel.children) !! willing
      ensures old(ListenOn(storletNameToPid, storletNameToPipeName, listens, paths)) && StartsOn(commands, paths) ==>
                ListenOn(storletNameToPid, storletNameToPipeName, listens, paths)
    {
      hide Recorded, ListenOn, Unreaped;
      var i, iterable := 0, true;
      while i < |commands| && iterable
        invariant Valid() && 0 <= i <= |commands|
        invariant forall k :: 0 <= k < i - 1 ==> !commands[k].StopDaemons? && !commands[k].Halt?
        invariant if i == 0 then iterable else iterable <==> !commands[i - 1].StopDaemons? && !commands[i - 1].Halt?
        invariant old(ListenOn(storletNameToPid, storletNameToPipeName, listens, paths)) &&
                  StartsOn(commands, paths) ==>
                    ListenOn(storletNameToPid, storletNameToPipeName, listens, paths)
        decreases |commands| - i
      {
        var success;
        success, iterable := ServeOne(commands[i], paths);
        i := i + 1;
      }
      served := i;
      ghost var pids := storletNameToPid;
      var _, _, failed := ShutdownAllProcesses(true, willing);
      FewerListen(pids, storletNameToPid, storletNameToPipeName, listens, paths);
      raised := failed;
      if !raised {
        NothingRuns(storletNameToPid, storletNameToPipeName, owner, kernel.children);
      }
    }
  }

  lemma FewerListen(pids: map<Name, Pid>, left: map<Name, Pid>, pipes: map<Name, string>, listens: map<Pid, string>,
                    paths: Name -> string)
    requires forall n :: n in left ==> n in pids && left[n] == pids[n]
    ensures ListenOn(pids, pipes, listens, paths) ==> ListenOn(left, pipes, listens, paths)
  {
  }

  lemma StartKeepsPipes(pids: map<Name, Pid>, pipes: map<Name, string>, listens: map<Pid, string>,
                        pids': map<Name, Pid>, pipes': map<Name, string>, listens': map<Pid, string>,
                        name: Name, udsPath: string, paths: Name -> string)
    requires pids'.Keys <= pids.Keys + {name} && forall n :: n in pids && n != name ==>
               n in pids' && pids'[n] == pids[n]
    requires (pipes' == pipes && pids' == pids) || pipes' == pipes[name := udsPath]
    requires forall n :: n in pids && pids[n] in listens ==>
               pids[n] in listens' && listens'[pids[n]] == listens[pids[n]]
    requires name in pids' ==>
               pids' == pids || (name in pipes' && pids'[name] in listens' && pipes'[name] == listens'[pids'[name]])
    ensures ListenOn(pids, pipes, listens, paths) && udsPath == paths(name) ==> ListenOn(pids', pipes', listens', paths)
  {
  }

  datatype Command =
    | StartDaemon(name: Name, udsPath: string, supported: bool, runnable: bool)
    | StopDaemon(name: Name)
    | DaemonStatus(name: Name)
    | StopDaemons
    | Halt(willing: set<Name>)

  /** What a command does to the record; `children` are the processes not reaped when it came. */
  ghost predicate Served(command: Command, success: bool, pids: map<Name, Pid>, pids': map<Name, Pid>,
                         children: Children) {
    match command
    case StartDaemon(name, _, supported, _) =>
      && pids'.Keys <= pids.Keys + {name} && (!supported ==> !success)
      && forall n :: n in pids && n != name ==> n in pids' && pids'[n] == pids[n]
    case StopDaemon(name) =>
      (success <==> name in Unreaped(pids, children)) && pids' == if success then pids - {name} else pids
    case DaemonStatus(name) => pids' == pids
    case StopDaemons =>
      (success <==> pids.Keys <= Unreaped(pids, children)) && pids' == pids - Unreaped(pids, children)
    case Halt(willing) =>
      (success <==> pids.Keys <= Unreaped(pids, children) * willing) &&
        pids' == pids - Unreaped(pids, children) * willing
  }

  /** Every start command names the pipe its storlet is given. */
  ghost predicate StartsOn(commands: seq<Command>, paths: Name -> string) {
    forall i :: 0 <= i < |commands| && commands[i].StartDaemon? ==> commands[i].udsPath == paths(commands[i].name)
  }

  /** The records stay good while children end or are reaped. */
  lemma RecordedLater(pids: map<Name, Pid>, pipes: map<Name, string>, owner: map<Pid, Name>, before: Children,
                      after: Children)
    requires Recorded(pids, pipes, owner, before)
    requires after.Keys <= before.Keys && forall p :: p in after && before[p] == Zombie ==> after[p] == Zombie
    ensures Recorded(pids, pipes, owner, after)
  {
  }

  lemma PipeAdded(pids: map<Name, Pid>, pipes: map<Name, string>, owner: map<Pid, Name>, children: Children, n: Name,
                  pipe: string)
    requires Recorded(pids, pipes, owner, children)
    ensures Recorded(pids, pipes[n := pipe], owner, children)
  {
  }

  /** A new process for a storlet without a running daemon, recorded if it is still alive. */
  lemma Spawned(pids: map<Name, Pid>, pipes: map<Name, string>, owner: map<Pid, Name>,
                before: Children, spawned: Children, after: Children, n: Name, p: Pid, r: WaitResult)
    requires Recorded(pids, pipes, owner, before) && n in pipes && p !in owner
    requires !(n in pids && pids[n] in before && before[pids[n]] == Running)
    requires spawned.Keys == before.Keys + {p}
    requires forall q :: q in before ==> before[q] == Zombie ==> spawned[q] == Zombie
    requires r == Reaped ==> Reaps(spawned, after, p)
    requires r != Reaped ==> Ages(spawned, after)
    requires r != NoChild
    ensures Recorded(if r == StillRunning then pids[n := p] else pids, pipes, owner[p := n], after)
  {
  }

  /** A daemon that did not run before the spawn does not run after it. */
  lemma StillNotRunning(pids: map<Name, Pid>, before: Children, spawned: Children, after: Children, n: Name, p: Pid,
                        r: WaitResult)
    requires !(n in pids && pids[n] in before && before[pids[n]] == Running)
    requires spawned.Keys == before.Keys + {p}
    requires forall q :: q in before ==> before[q] == Zombie ==> spawned[q] == Zombie
    requires r == Reaped ==> Reaps(spawned, after, p)
    requires r != Reaped ==> Ages(spawned, after)
    ensures after.Keys <= spawned.Keys
    ensures n in pids && pids[n] != p ==> !(pids[n] in after && after[pids[n]] == Running)
  {
  }

  lemma MoreKeys(owner: map<Pid, Name>, listens: map<Pid, string>, p: Pid, n: Name, pipe: string)
    requires owner.Keys <= listens.Keys
    ensures owner[p := n].Keys <= listens[p := pipe].Keys && owner[p := n].Keys == owner.Keys + {p}
    ensures p !in owner ==> forall q :: q in owner ==> q in listens[p := pipe] && listens[p := pipe][q] == listens[q]
  {
  }

  lemma OwnersKnown(pids: map<Name, Pid>, pipes: map<Name, string>, owner: map<Pid, Name>, children: Children)
    requires Recorded(pids, pipes, owner, children)
    ensures forall n :: n in pids ==> pids[n] in owner
  {
  }

  /** A process handed out just now is on no record. */
  lemma OwnProcess(pids: map<Name, Pid>, pipes: map<Name, string>, owner: map<Pid, Name>, children: Children, n: Name,
                   p: Pid)
    requires Recorded(pids, pipes, owner, children) && p !in owner
    ensures n in pids ==> pids[n] != p
  {
  }

  /** Forgetting a daemon that no longer runs. */
  lemma RecordedWithout(pids: map<Name, Pid>, pipes: map<Name, string>, owner: map<Pid, Name>, children: Children,
                        n: Name)
    requires Recorded(pids, pipes, owner, children) && n in pids &&
             (pids[n] in children ==> children[pids[n]] == Zombie)
    ensures Recorded(pids - {n}, pipes, owner, children)
  {
  }

  lemma HasPipe(pids: map<Name, Pid>, pipes: map<Name, string>, owner: map<Pid, Name>, children: Children, n: Name)
    requires Recorded(pids, pipes, owner, children) && n in pids
    ensures n in pipes
  {
  }

  lemma NothingRuns(pids: map<Name, Pid>, pipes: map<Name, string>, owner: map<Pid, Name>, children: Children)
    requires Recorded(pids, pipes, owner, children) && pids == map[]
    ensures forall p :: p in children ==> children[p] == Zombie
  {
  }

  lemma OnlyFailedLeft(before: map<Name, Pid>, after: map<Name, Pid>, gone: set<Name>, failed: set<Name>)
    requires gone + failed == before.Keys && gone !! failed && after == before - gone
    ensures after.Keys == failed && (failed == {} ==> after == map[])
  {
  }

  lemma OneProcessPerName(pids: map<Name, Pid>, pipes: map<Name, string>, owner: map<Pid, Name>, children: Children,
                          n: Name)
    requires Recorded(pids, pipes, owner, children) && n in pids
    ensures forall m :: m in pids && m != n ==> pids[m] != pids[n]
  {
  }

  lemma UnreapedKnown(pids: map<Name, Pid>, children: Children)
    ensures Unreaped(pids, children) <= pids.Keys
  {
  }

  lemma UnreapedIs(pids: map<Name, Pid>, children: Children, n: Name)
    ensures n in Unreaped(pids, children) <==> n in pids && pids[n] in children
  {
  }

  lemma SameUnreaped(pids: map<Name, Pid>, before: Children, after: Children)
    requires before.Keys == after.Keys
    ensures Unreaped(pids, before) == Unreaped(pids, after)
  {
    assert forall n :: n in pids ==>
             (pids[n] in before <==> pids[n] in before.Keys) && (pids[n] in after <==> pids[n] in after.Keys);
  }

  lemma KilledOne(pids: map<Name, Pid>, before: Children, after: Children, n: Name)
    requires n in pids && (after.Keys == before.Keys - {pids[n]} || after.Keys == before.Keys)
    requires forall m :: m in pids && m != n ==> pids[m] != pids[n]
    ensures Unreaped(pids - {n}, after) == Unreaped(pids, before) - {n}
  {
  }
}
