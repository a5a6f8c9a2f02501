/** StorletDaemon: a pool of child processes, one per task. */
module Daemon {
  import opened Basics
  import opened Processes
  import opened Datagrams
  import opened DescriptorRoles
  import opened Execution

  type TaskId = string

  /** The children that are still running. */
  function RunningOf(children: Children): set<Pid> {
    set p | p in children && children[p] == Running
  }

  /** Every task has its own unreaped child, and every running child belongs to a task. */
  ghost predicate Tracks(tasks: map<TaskId, Pid>, children: Children) {
    && (forall t, u :: t in tasks && u in tasks && tasks[t] == tasks[u] ==> t == u)
    && (forall t :: t in tasks ==> tasks[t] in children)
    && (forall p :: p in children && children[p] == Running ==> exists t :: t in tasks && tasks[t] == p)
  }

  lemma TracksAges(tasks: map<TaskId, Pid>, before: Children, after: Children)
    requires Tracks(tasks, before) && Ages(before, after)
    ensures Tracks(tasks, after)
  {
  }

  /** Tracked children give a bound: no more run than there are tasks. */
  lemma {:induction false} RunningAtMostTasks(tasks: map<TaskId, Pid>, children: Children)
    requires Tracks(tasks, children)
    ensures |RunningOf(children)| <= |tasks|
    decreases |tasks|
  {
    if |tasks| == 0 {
      NobodyRuns(tasks, children);
    } else {
      hide Tracks;
      assert |tasks.Keys| == |tasks|;
      var t: TaskId :| t in tasks.Keys;
      var p := tasks[t];
      SmallerMap(tasks, {t});
      TaskHasChild(tasks, t, children);
      TracksReaped(tasks, t, children, children - {p});
      RunningAtMostTasks(tasks - {t}, children - {p});
      Bounded(RunningOf(children), RunningOf(children - {p}), p);
    }
  }

  lemma NobodyRuns(tasks: map<TaskId, Pid>, children: Children)
    requires Tracks(tasks, children) && |tasks| == 0
    ensures RunningOf(children) == {}
  {
    assert |tasks.Keys| == |tasks|;
    assert forall t :: t in tasks ==> t in tasks.Keys;
  }

  lemma TaskHasChild(tasks: map<TaskId, Pid>, t: TaskId, children: Children)
    requires Tracks(tasks, children) && t in tasks
    ensures tasks[t] in children
  {
  }

  lemma Bounded(a: set<Pid>, b: set<Pid>, p: Pid)
    requires a <= b + {p}
    ensures |a| <= |b| + 1
  {
    assert a - {p} <= b;
    SubsetSize(a - {p}, b);
  }

  lemma {:induction false} SubsetSize(a: set<Pid>, b: set<Pid>)
    requires a <= b
    ensures |a| <= |b|
    decreases |a|
  {
    if a != {} {
      var x: Pid :| x in a;
      SubsetSize(a - {x}, b - {x});
      assert |a| == |a - {x}| + 1 && |b| == |b - {x}| + 1;
    }
  }

  /** From one record to a later one: what is left has its old child, and what went had its child reaped. */
  ghost predicate OnlyReapedGone(before: map<TaskId, Pid>, after: map<TaskId, Pid>, children: Children) {
    && (forall t :: t in after ==> t in before && after[t] == before[t])
    && (forall t :: t in before && t !in after ==> before[t] !in children)
  }

  /** The record after an execute command: the new task if there is a child, and of the old ones only those
      gone whose child was reaped. */
  ghost predicate ExecutedFrom(before: map<TaskId, Pid>, after: map<TaskId, Pid>, children: Children, t: TaskId,
                               pid: Option<Pid>) {
    && (t in after <==> pid.Some?) && (pid.Some? ==> after[t] == pid.value)
    && OnlyReapedGone(before, after - {t}, children)
  }

  lemma GoneTwice(a: map<TaskId, Pid>, b: map<TaskId, Pid>, c: map<TaskId, Pid>, middle: Children, later: Children)
    requires OnlyReapedGone(a, b, middle) && OnlyReapedGone(b, c, later) && later.Keys <= middle.Keys
    ensures OnlyReapedGone(a, c, later)
  {
  }

  /** What the pool promises in every state: each running child has exactly one task, and no more than
      `poolSize` children run. */
  lemma PoolIsRespected(tasks: map<TaskId, Pid>, children: Children, poolSize: int)
    requires Tracks(tasks, children) && |tasks| <= poolSize
    ensures |RunningOf(children)| <= poolSize
    ensures forall p :: p in RunningOf(children) ==>
              exists t :: t in tasks && tasks[t] == p && forall u :: u in tasks && tasks[u] == p ==> u == t
  {
    RunningAtMostTasks(tasks, children);
    forall p | p in RunningOf(children)
      ensures exists t :: t in tasks && tasks[t] == p && forall u :: u in tasks && tasks[u] == p ==> u == t
    {
      var t: TaskId :| t in tasks && tasks[t] == p;
      assert forall u :: u in tasks && tasks[u] == p ==> u == t;
    }
  }

  /** A command the daemon receives; the task id of an execute command is the random one it will be given. */
  datatype Request =
    | ExecuteRequest(taskId: TaskId, forks: bool)    // a fork that fails raises
    | CancelRequest(taskId: TaskId)
    | HaltRequest
    | PingRequest
    | OtherRequest

  /** A child is forked for the request. */
  predicate Forks(request: Request) {
    request.ExecuteRequest? && request.forks
  }

  /** What one round of the main loop sees. A datagram comes with the descriptors the gateway sent; `run`
      is what the storlet will do if it is an execute datagram. */
  datatype Event = ListenError | Timeout | ReceiveError
                 | Arrival(request: Request, sent: seq<FileDescriptor>, run: StorletRun)

  /** The descriptors fit the command; receiving anything else raises, and nothing catches it. */
  predicate Fits(request: Request, sent: seq<FileDescriptor>) {
    if request.ExecuteRequest? then Accepted(EXECUTE, sent) else Required("") <= Types(sent)
  }

  predicate Garbled(event: Event) {
    event.Arrival? && !Fits(event.request, event.sent)
  }

  datatype ExitStatus = ExitSuccess | ExitFailure

  // Seconds one round waits for a datagram, and seconds without one after which the daemon gives up.
  const LOOP_TIMEOUT: real := 0.5
  const LISTEN_TIMEOUT: real := 300.0

  /** So many silent rounds in a row end the main loop. */
  predicate TooLongSilent(loopCnt: nat) {
    loopCnt as real * LOOP_TIMEOUT >= LISTEN_TIMEOUT
  }

  lemma SixHundredRounds(loopCnt: nat)
    ensures TooLongSilent(loopCnt) <==> loopCnt >= 600
  {
  }

  /** The datagrams among the events that could be received. */
  function Received(events: seq<Event>): nat {
    if |events| == 0 then 0
    else
      var last := events[|events| - 1];
      Received(events[..|events| - 1]) + if last.Arrival? && Fits(last.request, last.sent) then 1 else 0
  }

  /** Descriptors nobody closes: all but the service channel when no child is forked for a datagram, and
      all of a datagram that does not fit. */
  function Surplus(event: Event): nat {
    if !event.Arrival? then 0
    else if !Fits(event.request, event.sent) then |event.sent|
    else if Forks(event.request) then 0
    else FitsIsNotEmpty(event.request, event.sent); |event.sent| - 1
  }

  lemma FitsIsNotEmpty(request: Request, sent: seq<FileDescriptor>)
    requires Fits(request, sent)
    ensures |sent| > 0
  {
    assert |Required("")| == 1 && |Required(EXECUTE)| == 5;
  }

  function SurplusOf(events: seq<Event>): nat {
    if |events| == 0 then 0 else SurplusOf(events[..|events| - 1]) + Surplus(events[|events| - 1])
  }

  /** How many of the first `n` rounds, counted back from the last, timed out. */
  function TrailingTimeouts(events: seq<Event>, n: nat): nat
    requires n <= |events|
  {
    if n > 0 && events[n - 1] == Timeout then 1 + TrailingTimeouts(events, n - 1) else 0
  }

  /** The main loop ends with the n-th round: an error, a command that ends it, or too long a silence. */
  predicate Stops(events: seq<Event>, n: nat)
    requires 0 < n <= |events|
  {
    match events[n - 1]
    case ListenError => true
    case ReceiveError => true
    case Timeout => TooLongSilent(TrailingTimeouts(events, n))
    case Arrival(request, sent, _) => !Fits(request, sent) || request.CancelRequest? || request.HaltRequest?
  }

  function SeenAfter(seen: set<TaskId>, request: Request): set<TaskId> {
    if request.ExecuteRequest? then seen + {request.taskId} else seen
  }

  /** No task id is drawn twice. */
  predicate FreshIds(events: seq<Event>, seen: set<TaskId>) {
    if |events| == 0 then true
    else if events[0].Arrival? then
      (events[0].request.ExecuteRequest? ==> events[0].request.taskId !in seen) &&
      FreshIds(events[1..], SeenAfter(seen, events[0].request))
    else FreshIds(events[1..], seen)
  }

  /** What a request does to the tasks on record and their children. An execute command adds its task if a
      child was forked; with a free place in the pool all other tasks stay, and otherwise one goes only when
      its child was reaped. A cancel command ends the child of its task and drops that task alone. */
  ghost predicate Handled(request: Request, tasks: map<TaskId, Pid>, tasks': map<TaskId, Pid>, used: set<Pid>,
                          children: Children, children': Children, poolSize: int) {
    match request
    case ExecuteRequest(taskId, forks) =>
      && (taskId in tasks' <==> forks)
      && (forks ==> tasks'[taskId] !in used && tasks'[taskId] in RunningOf(children'))
      && OnlyReapedGone(tasks, tasks' - {taskId}, children')
      && (|tasks| < poolSize ==> tasks' - {taskId} == tasks)
    case CancelRequest(taskId) =>
      && tasks' == tasks - {taskId} && children'.Keys == children.Keys
      && (taskId in tasks ==> tasks[taskId] in children' && children'[tasks[taskId]] == Zombie)
    case _ => tasks' == tasks && children' == children
  }

  class StorletDaemon {
    const kernel: Kernel
    const poolSize: int
    const process: Process    // the daemon's own descriptors and answers
    var taskIdToPid: map<TaskId, Pid>

    ghost predicate Valid()
      reads this, kernel
    {
      kernel.Valid() && poolSize >= 1 && Tracks(taskIdToPid, kernel.children) && |taskIdToPid| <= poolSize
    }

    /** What every wait makes smaller: children not yet reaped plus tasks on record. */
    ghost function Pending(): nat
      reads this, kernel
    {
      |kernel.children| + |taskIdToPid|
    }

    constructor (kernel: Kernel, poolSize: int, process: Process)
      requires kernel.Valid() && kernel.children == map[] && poolSize >= 1
      ensures Valid() && this.kernel == kernel && this.poolSize == poolSize && this.process == process &&
              taskIdToPid == map[]
    {
      this.kernel, this.poolSize, this.process := kernel, poolSize, process;
      taskIdToPid := map[];
    }

    method CleanupPids()
      requires Valid()
      modifies this, kernel
      ensures Valid() && kernel.used == old(kernel.used)
      ensures taskIdToPid.Keys <= old(taskIdToPid).Keys && kernel.children.Keys <= old(kernel.children).Keys
      ensures OnlyReapedGone(old(taskIdToPid), taskIdToPid, kernel.children)
      ensures forall t :: t in taskIdToPid ==>
                taskIdToPid[t] == old(taskIdToPid)[t] && taskIdToPid[t] in RunningOf(old(kernel.children))
      ensures (taskIdToPid == old(taskIdToPid) && kernel.children.Keys == old(kernel.children).Keys)
           || (|taskIdToPid| < |old(taskIdToPid)| && Pending() < old(Pending()))
    {
      hide Tracks, Cleaning, RunningOf;
      var terminated: set<TaskId> := {};
      var rest := taskIdToPid.Keys;
      CleaningStarts(taskIdToPid, kernel.children);
      while rest != {}
        invariant rest <= taskIdToPid.Keys && terminated !! rest
        invariant taskIdToPid == old(taskIdToPid) && kernel.Valid() && kernel.used == old(kernel.used)
        invariant Cleaning(taskIdToPid, terminated, rest, old(kernel.children), kernel.children)
        decreases rest
      {
        var taskId: TaskId :| taskId in rest;
        ghost var before := kernel.children;
        var r := kernel.WaitpidNoHang(taskIdToPid[taskId]);
        CleaningStep(taskIdToPid, terminated, rest, taskId, old(kernel.children), before, kernel.children, r);
        if r != StillRunning {
          terminated := terminated + {taskId};
        }
        rest := rest - {taskId};
      }
      CleaningEnds(taskIdToPid, terminated, old(kernel.children), kernel.children);
      taskIdToPid := taskIdToPid - terminated;
    }

    method RemovePid(pid: Pid)
      modifies this`taskIdToPid
      ensures (exists t :: t in old(taskIdToPid) && old(taskIdToPid)[t] == pid) ==>
                exists t :: t in old(taskIdToPid) && old(taskIdToPid)[t] == pid && taskIdToPid == old(taskIdToPid) - {t}
      ensures (forall t :: t in old(taskIdToPid) ==> old(taskIdToPid)[t] != pid) ==> taskIdToPid == old(taskIdToPid)
    {
      if t: TaskId :| t in taskIdToPid && taskIdToPid[t] == pid {
        taskIdToPid := taskIdToPid - {t};
      }
    }

    /** Each call leaves fewer children and tasks pending, even when the child reaped belongs to no task. It
        blocks only when all tasks were found running, and then for one child. */
    method WaitChildProcess() returns (ghost blocked: bool)
      requires Valid() && |taskIdToPid| > 0
      modifies this, kernel
      ensures Valid() && kernel.used == old(kernel.used)
      ensures taskIdToPid.Keys <= old(taskIdToPid).Keys && kernel.children.Keys <= old(kernel.children).Keys
      ensures OnlyReapedGone(old(taskIdToPid), taskIdToPid, kernel.children)
      ensures Pending() < old(Pending())
      ensures blocked ==> |old(taskIdToPid)| <= |taskIdToPid| + 1 && |old(kernel.children)| == |kernel.children| + 1
      ensures blocked ==> forall t :: t in old(taskIdToPid) ==> old(taskIdToPid)[t] in RunningOf(old(kernel.children))
      ensures !blocked ==> |taskIdToPid| < |old(taskIdToPid)|
    {
      hide Tracks, OnlyReapedGone, RunningOf;
      var prevNum := |taskIdToPid|;
      CleanupPids();
      blocked := false;
      if |taskIdToPid| == 0 || |taskIdToPid| < prevNum {
        return;
      }
      ghost var tasks, before := taskIdToPid, kernel.children;
      HasChildren(tasks, before);
      assert |before| == |old(kernel.children)| by { assert before.Keys == old(kernel.children).Keys; }
      var pid := kernel.Wait();
      if pid.Some? {
        RemovePid(pid.value);
        AfterWait(tasks, taskIdToPid, before, kernel.children, pid.value);
        blocked := true;
      } else {
        assert false;  // ECHILD, where the record would be reset: a task still on record has a child
      }
    }

    /** The loop before the daemon leaves: when it is done no child runs. */
    method WaitAllChildProcesses()
      requires Valid()
      modifies this, kernel
      ensures Valid() && kernel.used == old(kernel.used)
      ensures taskIdToPid == map[] && RunningOf(kernel.children) == {}
    {
      while |taskIdToPid| > 0
        invariant Valid() && kernel.used == old(kernel.used)
        decreases Pending()
      {
        ghost var blocked := WaitChildProcess();
      }
      NobodyRuns(taskIdToPid, kernel.children);
    }

    /** Waits while the pool is full; `full` are the records before each wait. */
    method WaitForPlace() returns (ghost full: seq<map<TaskId, Pid>>)
      requires Valid()
      modifies this, kernel
      ensures Valid() && kernel.used == old(kernel.used) && |taskIdToPid| < poolSize
      ensures taskIdToPid.Keys <= old(taskIdToPid).Keys && kernel.children.Keys <= old(kernel.children).Keys
      ensures OnlyReapedGone(old(taskIdToPid), taskIdToPid, kernel.children)
      ensures forall i :: 0 <= i < |full| ==> |full[i]| >= poolSize
      ensures full == [] ==> taskIdToPid == old(taskIdToPid) && kernel.children == old(kernel.children)
      ensures full != [] <==> |old(taskIdToPid)| >= poolSize
    {
      hide Tracks;
      full := [];
      while |taskIdToPid| >= poolSize
        invariant Valid() && kernel.used == old(kernel.used)
        invariant taskIdToPid.Keys <= old(taskIdToPid).Keys && kernel.children.Keys <= old(kernel.children).Keys
        invariant OnlyReapedGone(old(taskIdToPid), taskIdToPid, kernel.children)
        invariant forall i :: 0 <= i < |full| ==> |full[i]| >= poolSize
        invariant full == [] ==> taskIdToPid == old(taskIdToPid) && kernel.children == old(kernel.children)
        invariant full != [] ==> |old(taskIdToPid)| >= poolSize
        decreases Pending()
      {
        ghost var tasks, middle := taskIdToPid, kernel.children;
        full := full + [tasks];
        ghost var blocked := WaitChildProcess();
        GoneTwice(old(taskIdToPid), tasks, taskIdToPid, middle, kernel.children);
      }
    }

    /** Forks the child of a new task and records it. */
    method ForkTask(taskId: TaskId) returns (pid: Pid)
      requires Valid() && taskId !in taskIdToPid && |taskIdToPid| < poolSize
      modifies this`taskIdToPid, kernel
      ensures Valid() && taskIdToPid == old(taskIdToPid)[taskId := pid]
      ensures pid !in old(kernel.used) && pid in RunningOf(kernel.children)
      ensures kernel.children.Keys == old(kernel.children).Keys + {pid}
    {
      hide Tracks;
      pid := kernel.Fork();
      TracksForked(taskIdToPid, old(kernel.children), kernel.children, taskId, pid);
      LargerMap(taskIdToPid, taskId, pid);
      taskIdToPid := taskIdToPid[taskId := pid];
    }

    /** Starts a child for a new task, waiting for a free place in the pool first; `None` is a fork that
        fails, which leaves no task behind. With a free place it does not wait and all tasks stay; otherwise
        a task goes only when its child was reaped. */
    method Execute(taskId: TaskId, forks: bool) returns (pid: Option<Pid>, ghost full: seq<map<TaskId, Pid>>)
      requires Valid() && taskId !in taskIdToPid
      modifies this, kernel
      ensures Valid() && (pid.Some? <==> forks)
      ensures ExecutedFrom(old(taskIdToPid), taskIdToPid, kernel.children, taskId, pid)
      ensures pid.Some? ==> pid.value !in old(kernel.used) && pid.value in RunningOf(kernel.children)
      ensures pid.None? ==> kernel.used == old(kernel.used)
      ensures forall i :: 0 <= i < |full| ==> |full[i]| >= poolSize
      ensures full != [] <==> |old(taskIdToPid)| >= poolSize
      ensures full == [] ==>
                taskIdToPid == if pid.Some? then old(taskIdToPid)[taskId := pid.value] else old(taskIdToPid)
    {
      PidsInUse(taskIdToPid, kernel.children);
      hide Tracks, OnlyReapedGone, ExecutedFrom, RunningOf;
      full := WaitForPlace();
      NoTask(old(taskIdToPid), taskIdToPid, kernel.children, taskId);
      if !forks { return None, full; }
      ghost var tasks, before := taskIdToPid, kernel.children;
      var child := ForkTask(taskId);
      OneTask(old(taskIdToPid), tasks, before, kernel.children, taskId, child);
      pid := Some(child);
    }

    /** Kills the child of a task that is on record; anything else is refused and changes no task. */
    method Cancel(taskId: TaskId) returns (cancelled: bool)
      requires Valid()
      modifies this, kernel
      ensures Valid() && kernel.used == old(kernel.used) && kernel.children.Keys == old(kernel.children).Keys
      ensures cancelled <==> taskId in old(taskIdToPid)
      ensures taskIdToPid == old(taskIdToPid) - {taskId}
      ensures cancelled ==> (var pid := old(taskIdToPid)[taskId];
                             pid in kernel.children && kernel.children[pid] == Zombie)
    {
      hide Tracks;
      if taskId !in taskIdToPid {
        assert taskIdToPid - {taskId} == taskIdToPid;
        return false;
      }
      var pid := taskIdToPid[taskId];
      ghost var tasks, before := taskIdToPid, kernel.children;
      TaskHasChild(tasks, taskId, before);
      cancelled := kernel.Kill(pid);
      RemovePid(pid);
      AfterCancel(tasks, taskIdToPid, before, kernel.children, taskId);
    }

    /** The command handlers, in the daemon's own process; an unknown or unsupported command raises, and so
        does a fork that fails. */
    method Handle(request: Request) returns (end: HandlerEnd)
      requires Valid() && (request.ExecuteRequest? ==> request.taskId !in taskIdToPid)
      modifies this, kernel
      ensures Valid()
      ensures end == if request == OtherRequest || (request.ExecuteRequest? && !request.forks) then Raises
                     else Responds(!request.CancelRequest? && !request.HaltRequest?)
      ensures taskIdToPid.Keys <= old(taskIdToPid).Keys + if request.ExecuteRequest? then {request.taskId} else {}
      ensures Handled(request, old(taskIdToPid), taskIdToPid, old(kernel.used), old(kernel.children), kernel.children,
                poolSize)
    {
      hide Tracks;
      match request {
        case ExecuteRequest(taskId, forks) =>
          ghost var full;
          var pid;
          pid, full := Execute(taskId, forks);
          assert taskIdToPid - {taskId} == old(taskIdToPid) || full != [];
          end := if pid.Some? then Responds(true) else Raises;
        case CancelRequest(taskId) =>
          var _ := Cancel(taskId);
          end := Responds(false);
        case HaltRequest =>
          end := Responds(false);
        case PingRequest =>
          end := Responds(true);
        case OtherRequest =>
          end := Raises;
      }
    }

    /** Handles one datagram: receives its descriptors, runs the handler and answers. The daemon answers
        exactly once; a child forked for the datagram leaves dispatch_command and never answers. When no
        child is forked, the daemon keeps all descriptors received but the service channel. */
    method Dispatch(request: Request, sent: seq<FileDescriptor>, run: StorletRun)
      returns (iterable: bool, ghost forked: Option<Process>)
      requires Valid() && Fits(request, sent) && (request.ExecuteRequest? ==> request.taskId !in taskIdToPid)
      modifies this, kernel, process
      ensures Valid() && process.answers == old(process.answers) + 1
      ensures forked.Some? <==> Forks(request)
      ensures forked.Some? ==> fresh(forked.value) && forked.value.answers == 0
      ensures old(process.table) <= process.table &&
              |process.table| == |old(process.table)| + Surplus(Arrival(request, sent, run))
      ensures iterable <==> !request.CancelRequest? && !request.HaltRequest?
      ensures taskIdToPid.Keys <= old(taskIdToPid).Keys + if request.ExecuteRequest? then {request.taskId} else {}
      ensures Handled(request, old(taskIdToPid), taskIdToPid, old(kernel.used), old(kernel.children), kernel.children,
                poolSize)
    {
      hide *;
      var sfds := process.Receive(sent);
      ReceivedFits(request, sent, sfds);
      var handled := Handle(request);
      iterable, forked := Conclude(process, request, sfds, run, handled);
      TableAfter(old(process.table), process.table, request, sent, sfds, run);
    }

    /** A datagram in the main loop, where `seen` are the task ids drawn so far. */
    method Answer(request: Request, sent: seq<FileDescriptor>, run: StorletRun, ghost seen: set<TaskId>)
      returns (iterable: bool)
      requires Valid() && Fits(request, sent) && taskIdToPid.Keys <= seen &&
               (request.ExecuteRequest? ==> request.taskId !in seen)
      modifies this, kernel, process
      ensures Valid() && process.answers == old(process.answers) + 1
      ensures old(process.table) <= process.table &&
              |process.table| == |old(process.table)| + Surplus(Arrival(request, sent, run))
      ensures iterable <==> !request.CancelRequest? && !request.HaltRequest?
      ensures taskIdToPid.Keys <= SeenAfter(seen, request)
    {
      hide Tracks, Fits, Surplus;
      ghost var forked;
      iterable, forked := Dispatch(request, sent, run);
    }

    /** The rounds of the main loop. It stops with the first round that calls for it; it is left by an
        exception when that round brought a datagram whose descriptors do not fit. */
    method Listen(events: seq<Event>) returns (status: Option<ExitStatus>, ghost consumed: nat)
      requires Valid() && FreshIds(events, taskIdToPid.Keys)
      modifies this, kernel, process
      ensures Valid() && consumed <= |events| && process.answers == old(process.answers) + Received(events[..consumed])
      ensures old(process.table) <= process.table &&
              |process.table| == |old(process.table)| + SurplusOf(events[..consumed])
      ensures forall n :: 0 < n < consumed ==> !Stops(events, n)
      ensures consumed < |events| ==> consumed > 0 && Stops(events, consumed)
      ensures status == None <==> consumed > 0 && Garbled(events[consumed - 1])
      ensures status == Some(ExitFailure) <==>
                consumed > 0 && (events[consumed - 1] == ListenError || events[consumed - 1] == ReceiveError)
    {
      hide Tracks, Received, SurplusOf, Surplus, FreshIds, Stops, TrailingTimeouts, RunningOf, SeenAfter, Fits;
      status, consumed := Some(ExitSuccess), 0;
      var loopCnt, running := 0, true;
      ghost var seen := taskIdToPid.Keys;
      NoEvents(events);
      var i := 0;
      while i < |events| && running
        invariant 0 <= i <= |events| && consumed == i && Valid()
        invariant running ==> taskIdToPid.Keys <= seen && FreshIds(events[i..], seen)
        invariant process.answers == old(process.answers) + Received(events[..i])
        invariant old(process.table) <= process.table &&
                  |process.table| == |old(process.table)| + SurplusOf(events[..i])
        invariant running ==> loopCnt == TrailingTimeouts(events, i)
        invariant forall n :: 0 < n < i ==> !Stops(events, n)
        invariant i > 0 ==> (running <==> !Stops(events, i))
        invariant (i == 0 ==> running) && (running ==> status == Some(ExitSuccess))
        invariant status == None <==> i > 0 && Garbled(events[i - 1])
        invariant status == Some(ExitFailure) <==>
                    i > 0 && (events[i - 1] == ListenError || events[i - 1] == ReceiveError)
        decreases |events| - i
      {
        var event := events[i];
        NextEvent(events, i, seen);
        NextRound(events, i, loopCnt);
        match event {
          case ListenError =>
            status, running := Some(ExitFailure), false;
          case Timeout =>
            loopCnt := loopCnt + 1;
            running := !TooLongSilent(loopCnt);
          case ReceiveError =>
            status, running := Some(ExitFailure), false;
          case Arrival(request, sent, run) =>
            loopCnt := 0;
            if Fits(request, sent) {
              running := Answer(request, sent, run, seen);
              seen := SeenAfter(seen, request);
            } else {
              ReceiveMisfit(process, sent);
              status, running := None, false;
            }
        }
        i := i + 1;
        consumed := i;
      }
    }

    /** The main loop over any sequence of rounds, ended by a signal when the rounds run out. It returns
        only when no child runs; every datagram that fits was answered once, by the daemon itself; and its
        descriptors are those it had before and the surplus of the datagrams. It does not return, and then
        waits for nobody, exactly when a datagram's descriptors did not fit; `left` are the tasks at that
        moment. */
    method MainLoop(events: seq<Event>)
      returns (status: Option<ExitStatus>, ghost consumed: nat, ghost left: map<TaskId, Pid>)
      requires Valid() && FreshIds(events, taskIdToPid.Keys)
      modifies this, kernel, process
      ensures Valid()
      ensures if status.Some? then taskIdToPid == map[] && RunningOf(kernel.children) == {}
              else taskIdToPid == left
      ensures consumed <= |events| && process.answers == old(process.answers) + Received(events[..consumed])
      ensures old(process.table) <= process.table &&
              |process.table| == |old(process.table)| + SurplusOf(events[..consumed])
      ensures forall n :: 0 < n < consumed ==> !Stops(events, n)
      ensures consumed < |events| ==> consumed > 0 && Stops(events, consumed)
      ensures status == None <==> consumed > 0 && Garbled(events[consumed - 1])
      ensures status == Some(ExitFailure) <==>
                consumed > 0 && (events[consumed - 1] == ListenError || events[consumed - 1] == ReceiveError)
    {
      hide Tracks, Received, SurplusOf, FreshIds, Stops, Fits;
      status, consumed := Listen(events);
      left := taskIdToPid;
      if status.Some? {
        WaitAllChildProcesses();
      }
    }
  }

  /** A datagram that does not fit: its descriptors are open when that is found out, and stay open. */
  method ReceiveMisfit(process: Process, sent: seq<FileDescriptor>)
    modifies process`table
    ensures old(process.table) <= process.table && |process.table| == |old(process.table)| + |sent|
  {
    hide SetOf, Distinct;
    var sfds := process.Receive(sent);
    DistinctSize(Filenos(sfds));
  }

  /** From the fork, if there is one, to the answer. */
  method Conclude(process: Process, request: Request, sfds: seq<FileDescriptor>, run: StorletRun, handled: HandlerEnd)
    returns (iterable: bool, ghost forked: Option<Process>)
    requires |sfds| > 0 && Distinct(Filenos(sfds)) && SetOf(Filenos(sfds)) <= process.table &&
             sfds[0].fileno in process.table
    requires Forks(request) ==> Accepted(EXECUTE, sfds) && handled == Responds(true)
    requires handled != Exits
    modifies process
    ensures process.answers == old(process.answers) + 1
    ensures process.table == old(process.table) - if Forks(request) then SetOf(Filenos(sfds)) else {sfds[0].fileno}
    ensures iterable <==> handled == Raises || handled == Responds(true)
    ensures forked.Some? <==> Forks(request)
    ensures forked.Some? ==> fresh(forked.value) && forked.value.answers == 0
  {
    hide *;
    forked := None;
    var end: DispatchEnd;
    if Forks(request) {
      var child, childEnd;
      child, end, childEnd := DispatchExecute(process, sfds, run);
      forked := Some(child);
    } else {
      end := process.FinishDispatch(sfds[0].fileno, handled);
    }
    iterable := end.iterable;
  }

  lemma ReceivedFits(request: Request, sent: seq<FileDescriptor>, sfds: seq<FileDescriptor>)
    requires Fits(request, sent) && |sfds| == |sent| && sfds == DeliveredAll(sent, Filenos(sfds))
    ensures |sent| > 0 && sfds[0].fileno in SetOf(Filenos(sfds))
    ensures Forks(request) <==> request.ExecuteRequest? && request.forks
    ensures Forks(request) ==> Accepted(EXECUTE, sfds)
  {
    assert Types(sfds) == Types(sent);
    assert |Required("")| == 1 && |Required(EXECUTE)| == 5;
    assert Filenos(sfds)[0] == sfds[0].fileno;
  }

  lemma TableAfter(before: set<int>, after: set<int>, request: Request, sent: seq<FileDescriptor>,
                   sfds: seq<FileDescriptor>, run: StorletRun)
    requires Fits(request, sent) && |sfds| == |sent| > 0 && Distinct(Filenos(sfds)) && SetOf(Filenos(sfds)) !! before
    requires after == before + SetOf(Filenos(sfds)) - if Forks(request) then SetOf(Filenos(sfds)) else {sfds[0].fileno}
    ensures before <= after && |after| == |before| + Surplus(Arrival(request, sent, run))
  {
    hide Fits, Accepted;
    var fds := Filenos(sfds);
    if Forks(request) {
      assert after == before;
    } else {
      DistinctSize(fds);
      assert fds[0] in SetOf(fds);
      assert after == before + (SetOf(fds) - {fds[0]});
    }
  }

  lemma {:induction false} DistinctSize(fds: seq<int>)
    requires Distinct(fds)
    ensures |SetOf(fds)| == |fds|
    decreases |fds|
  {
    if |fds| > 0 {
      DistinctSize(fds[1..]);
      assert SetOf(fds) == {fds[0]} + SetOf(fds[1..]);
      assert fds[0] !in fds[1..];
    } else {
      assert SetOf(fds) == {};
    }
  }

  lemma NoEvents(events: seq<Event>)
    ensures Received(events[..0]) == SurplusOf(events[..0]) == 0 && events[0..] == events &&
            TrailingTimeouts(events, 0) == 0
  {
  }

  lemma NextEvent(events: seq<Event>, i: nat, seen: set<TaskId>)
    requires i < |events| && FreshIds(events[i..], seen)
    ensures Received(events[..i + 1]) ==
            Received(events[..i]) + if events[i].Arrival? && Fits(events[i].request, events[i].sent) then 1 else 0
    ensures SurplusOf(events[..i + 1]) == SurplusOf(events[..i]) + Surplus(events[i])
    ensures !events[i].Arrival? ==> Surplus(events[i]) == 0
    ensures Garbled(events[i]) ==> Surplus(events[i]) == |events[i].sent|
    ensures if events[i].Arrival?
            then (events[i].request.ExecuteRequest? ==> events[i].request.taskId !in seen) &&
                 FreshIds(events[i + 1..], SeenAfter(seen, events[i].request))
            else FreshIds(events[i + 1..], seen)
  {
    hide Fits;
    assert events[..i + 1][..i] == events[..i];
    assert events[i..][1..] == events[i + 1..];
  }

  lemma NextRound(events: seq<Event>, i: nat, timeouts: nat)
    requires i < |events| && timeouts == TrailingTimeouts(events, i)
    ensures TrailingTimeouts(events, i + 1) == if events[i] == Timeout then timeouts + 1 else 0
    ensures Stops(events, i + 1) <==>
            match events[i]
            case Timeout => TooLongSilent(timeouts + 1)
            case Arrival(request, sent, _) => !Fits(request, sent) || request.CancelRequest? || request.HaltRequest?
            case _ => true
  {
    hide Fits;
  }

  lemma PidsInUse(tasks: map<TaskId, Pid>, children: Children)
    requires Tracks(tasks, children)
    ensures forall t :: t in tasks ==> tasks[t] in children.Keys
  {
  }

  lemma NoTask(before: map<TaskId, Pid>, tasks: map<TaskId, Pid>, children: Children, t: TaskId)
    requires OnlyReapedGone(before, tasks, children) && t !in before
    ensures t !in tasks && ExecutedFrom(before, tasks, children, t, None)
  {
    assert tasks - {t} == tasks;
  }

  lemma OneTask(before: map<TaskId, Pid>, tasks: map<TaskId, Pid>, children: Children, forked: Children, t: TaskId,
                p: Pid)
    requires OnlyReapedGone(before, tasks, children) && t !in tasks && forked.Keys == children.Keys + {p}
    requires forall u :: u in before ==> before[u] != p
    ensures ExecutedFrom(before, tasks[t := p], forked, t, Some(p))
  {
    assert tasks[t := p] - {t} == tasks;
  }

  lemma HasChildren(tasks: map<TaskId, Pid>, children: Children)
    requires Tracks(tasks, children) && |tasks| > 0
    ensures children != map[]
  {
    assert |tasks.Keys| == |tasks|;
    var t: TaskId :| t in tasks.Keys;
    assert tasks[t] in children;
  }

  lemma AfterWait(tasks: map<TaskId, Pid>, left: map<TaskId, Pid>, before: Children, after: Children, p: Pid)
    requires Tracks(tasks, before) && Reaps(before, after, p)
    requires (exists t :: t in tasks && tasks[t] == p) ==>
               exists t :: t in tasks && tasks[t] == p && left == tasks - {t}
    requires (forall t :: t in tasks ==> tasks[t] != p) ==> left == tasks
    ensures Tracks(left, after) && left.Keys <= tasks.Keys && |left| <= |tasks| <= |left| + 1 && |after| == |before| - 1
    ensures OnlyReapedGone(tasks, left, after) && after.Keys <= before.Keys
  {
    hide Tracks;
    OneFewer(before, after, p);
    if exists t :: t in tasks && tasks[t] == p {
      var t: TaskId :| t in tasks && tasks[t] == p && left == tasks - {t};
      TracksReaped(tasks, t, before, after);
      SmallerMap(tasks, {t});
    } else {
      TracksUntracked(tasks, before, after, p);
    }
  }

  lemma OneFewer(before: Children, after: Children, p: Pid)
    requires Reaps(before, after, p)
    ensures |after| == |before| - 1
  {
    assert after.Keys == before.Keys - {p} && |after.Keys| == |after| && |before.Keys| == |before|;
  }

  /** Reaping a cancelled child, which no task refers to any more. */
  lemma TracksUntracked(tasks: map<TaskId, Pid>, before: Children, after: Children, p: Pid)
    requires Tracks(tasks, before) && Reaps(before, after, p) && forall t :: t in tasks ==> tasks[t] != p
    ensures Tracks(tasks, after)
  {
  }

  lemma TracksForked(tasks: map<TaskId, Pid>, before: Children, after: Children, t: TaskId, p: Pid)
    requires Tracks(tasks, before) && t !in tasks && p !in before
    requires after.Keys == before.Keys + {p}
    requires forall q :: q in before ==> before[q] == Zombie ==> after[q] == Zombie
    ensures Tracks(tasks[t := p], after)
  {
    var more := tasks[t := p];
    forall q | q in after && after[q] == Running ensures exists u :: u in more && more[u] == q {
      if q == p {
        assert more[t] == q;
      } else {
        var u: TaskId :| u in tasks && tasks[u] == q;
        assert more[u] == q;
      }
    }
  }

  lemma LargerMap(m: map<TaskId, Pid>, t: TaskId, p: Pid)
    requires t !in m
    ensures |m[t := p]| == |m| + 1
  {
    assert m[t := p].Keys == m.Keys + {t} && |m.Keys| == |m| && |m[t := p].Keys| == |m[t := p]|;
  }

  lemma AfterCancel(tasks: map<TaskId, Pid>, left: map<TaskId, Pid>, before: Children, after: Children, taskId: TaskId)
    requires Tracks(tasks, before) && taskId in tasks && Ages(before, after)
    requires tasks[taskId] in after && after[tasks[taskId]] == Zombie
    requires exists t :: t in tasks && tasks[t] == tasks[taskId] && left == tasks - {t}
    ensures left == tasks - {taskId} && Tracks(left, after) && |left| <= |tasks|
  {
    var t: TaskId :| t in tasks && tasks[t] == tasks[taskId] && left == tasks - {t};
    assert t == taskId;
    SmallerMap(tasks, {t});
    forall q | q in after && after[q] == Running ensures exists u :: u in left && left[u] == q {
      var u: TaskId :| u in tasks && tasks[u] == q;
      assert u != t;
      assert u in left && left[u] == q;
    }
  }

  /** Where the scan of the tasks stands: `rest` is still to be looked at, `terminated` was found ended and
      reaped, and all others were found running. */
  ghost predicate Cleaning(tasks: map<TaskId, Pid>, terminated: set<TaskId>, rest: set<TaskId>, start: Children,
                           now: Children) {
    && terminated <= tasks.Keys && rest <= tasks.Keys && Tracks(tasks - terminated, now)
    && now.Keys <= start.Keys && (terminated == {} ==> now.Keys == start.Keys)
    && RunningOf(now) <= RunningOf(start)
    && (forall t :: t in terminated ==> tasks[t] !in now)
    && forall t :: t in tasks && t !in rest && t !in terminated ==> tasks[t] in RunningOf(start)
  }

  lemma CleaningStarts(tasks: map<TaskId, Pid>, start: Children)
    requires Tracks(tasks, start)
    ensures Cleaning(tasks, {}, tasks.Keys, start, start)
  {
    hide Tracks;
    assert tasks - {} == tasks;
  }

  lemma CleaningStep(tasks: map<TaskId, Pid>, terminated: set<TaskId>, rest: set<TaskId>, t: TaskId,
                     start: Children, before: Children, after: Children, r: WaitResult)
    requires Cleaning(tasks, terminated, rest, start, before) && t in rest && t !in terminated
    requires r == NoChild <==> tasks[t] !in before
    requires r == Reaped ==> Reaps(before, after, tasks[t])
    requires r != Reaped ==> Ages(before, after)
    requires r == StillRunning ==> after[tasks[t]] == Running
    ensures r != NoChild
    ensures Cleaning(tasks, if r == StillRunning then terminated else terminated + {t}, rest - {t}, start, after)
  {
    hide Tracks;
    var left := tasks - terminated;
    TaskHasChild(left, t, before);
    assert RunningOf(after) <= RunningOf(before);
    if r == Reaped {
      TracksReaped(left, t, before, after);
      assert left - {t} == tasks - (terminated + {t});
    } else {
      TracksAges(left, before, after);
      assert tasks[t] in RunningOf(after);
    }
  }

  lemma CleaningEnds(tasks: map<TaskId, Pid>, terminated: set<TaskId>, start: Children, now: Children)
    requires Cleaning(tasks, terminated, {}, start, now)
    ensures var left := tasks - terminated;
            && Tracks(left, now) && left.Keys <= tasks.Keys && |left| <= |tasks|
            && (forall t :: t in left ==> left[t] == tasks[t] && left[t] in RunningOf(start))
            && OnlyReapedGone(tasks, left, now) && now.Keys <= start.Keys
            && ((left == tasks && now.Keys == start.Keys) || (|left| < |tasks| && |now| + |left| < |start| + |tasks|))
  {
    hide Tracks;
    SmallerMap(tasks, terminated);
    PidsSubset(now, start);
    if terminated != {} {
      assert |terminated| > 0;
    }
  }

  lemma TracksReaped(tasks: map<TaskId, Pid>, t: TaskId, before: Children, after: Children)
    requires t in tasks && Tracks(tasks, before) && Reaps(before, after, tasks[t])
    ensures Tracks(tasks - {t}, after)
  {
    forall p | p in after && after[p] == Running ensures exists u :: u in tasks - {t} && (tasks - {t})[u] == p {
      var u :| u in tasks && tasks[u] == p;
      assert u in tasks - {t};
    }
  }

  lemma SmallerMap(m: map<TaskId, Pid>, gone: set<TaskId>)
    requires gone <= m.Keys
    ensures |m - gone| == |m| - |gone| && (gone == {} ==> m - gone == m)
  {
    assert (m - gone).Keys == m.Keys - gone;
  }

  lemma PidsSubset(a: Children, b: Children)
    requires a.Keys <= b.Keys
    ensures |a| <= |b|
  {
    SubsetSize(a.Keys, b.Keys);
  }
}
