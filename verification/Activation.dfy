/** The gateway side of a daemon's life: activate_storlet_daemon on top of the factory in the container. */
module Activation {
  import opened Basics
  import opened Processes
  import opened DaemonFactory
  import StorletCache

  /** What goes wrong between gateway and container: answers that do not arrive, a stop command that does not
      arrive either, and a restart that raises, with the container replaced before or not. */
  datatype Faults = Faults(statusLost: bool, stopUndelivered: bool, stopUnanswered: bool, startUnanswered: bool,
                           restartRaises: bool, restartReplaces: bool)

  const NO_FAULTS := Faults(false, false, false, false, false, false)

  /** The factory heard nothing of an update: the stop command, or the status request before it, did not get
      through, and the restart that should make up for it raised and left the container as it was. */
  predicate UpdateMissed(faults: Faults) {
    faults.restartRaises && !faults.restartReplaces && (faults.statusLost || faults.stopUndelivered)
  }

  /** The container is restarted only if the factory did not answer, or was to stop a daemon and did not
      confirm it. */
  predicate NeedsRestart(cacheUpdated: bool, seen: Option<bool>, faults: Faults) {
    faults.statusLost || (cacheUpdated && seen == Some(true) && (faults.stopUndelivered || faults.stopUnanswered))
  }

  /** The daemons of all other storlets are on record as before. */
  ghost predicate SameOthers(before: map<Name, Pid>, after: map<Name, Pid>, name: Name) {
    forall n :: n != name ==> (n in after <==> n in before) && (n in before ==> after[n] == before[n])
  }

  class Sandbox {
    var factory: StorletDaemonFactory

    ghost predicate Valid()
      reads this, factory, factory.kernel
    {
      factory.Valid()
    }

    constructor ()
      ensures Valid() && fresh(factory) && fresh(factory.kernel)
    {
      var kernel := new Kernel({});
      factory := new StorletDaemonFactory(kernel);
    }

    /** Restarts the container: either a new, empty factory runs in it, or the call raises. A restart that
        raises may or may not have replaced the container. */
    method Restart(faults: Faults) returns (ok: bool)
      requires Valid()
      modifies this
      ensures ok == !faults.restartRaises
      ensures Valid() && factory.kernel.used == old(factory.kernel.used)
      ensures ok || faults.restartReplaces ==>
                fresh(factory) && fresh(factory.kernel) && factory.storletNameToPid == map[]
      ensures !ok && !faults.restartReplaces ==> factory == old(factory)
    {
      ok := !faults.restartRaises;
      if ok || faults.restartReplaces {
        var kernel := new Kernel(factory.kernel.used);
        factory := new StorletDaemonFactory(kernel);
      }
    }

    /** The status request; when the factory does not answer, the container is restarted. */
    method Status(name: Name, faults: Faults) returns (ok: bool, seen: Option<bool>)
      requires Valid()
      modifies this, factory.kernel`children
      ensures Valid() && factory.kernel.used == old(factory.kernel.used)
      ensures factory == old(factory) || (fresh(factory) && fresh(factory.kernel))
      ensures seen.None? <==> faults.statusLost
      ensures ok <==> !faults.statusLost || !faults.restartRaises
      ensures factory != old(factory) <==> faults.statusLost && (!faults.restartRaises || faults.restartReplaces)
      ensures factory != old(factory) ==> factory.storletNameToPid == map[]
      ensures factory == old(factory) ==> factory.storletNameToPid == old(factory.storletNameToPid)
      ensures factory == old(factory) && seen.None? ==> factory.Runs(name) == old(factory.Runs(name))
      ensures seen.Some? ==> seen.value == factory.Runs(name) && (seen.value ==> old(factory.Runs(name)))
    {
      hide Recorded;
      ok, seen := true, None;
      if faults.statusLost {
        ok := Restart(faults);
      } else {
        var running := factory.StatusByName(name);
        seen := Some(running);
      }
    }

    /** Stops a running daemon; when the factory does not confirm it, the container is restarted. */
    method Stop(name: Name, faults: Faults) returns (ok: bool)
      requires Valid() && factory.Runs(name)
      modifies this, factory`storletNameToPid, factory.kernel`children
      ensures Valid() && factory.kernel.used == old(factory.kernel.used)
      ensures factory == old(factory) || (fresh(factory) && fresh(factory.kernel))
      ensures var unconfirmed := faults.stopUndelivered || faults.stopUnanswered;
              && (ok <==> !unconfirmed || !faults.restartRaises)
              && (factory != old(factory) <==> unconfirmed && (!faults.restartRaises || faults.restartReplaces))
      ensures factory != old(factory) ==> factory.storletNameToPid == map[]
      ensures factory == old(factory) ==>
                factory.storletNameToPid == if faults.stopUndelivered then old(factory.storletNameToPid)
                                            else old(factory.storletNameToPid) - {name}
      ensures factory == old(factory) && faults.stopUndelivered ==> factory.Runs(name)
    {
      hide Recorded;
      ok := true;
      var stopped := false;
      if !faults.stopUndelivered {
        stopped := factory.ProcessKill(name);
      }
      if faults.stopUnanswered || !stopped {
        ok := Restart(faults);
      }
    }

    /** Starts a daemon where none runs. */
    method Start(name: Name, udsPath: string, supported: bool, runnable: bool, faults: Faults)
      returns (ok: bool, reply: StartReply)
      requires Valid() && !factory.Runs(name)
      modifies factory, factory.kernel
      ensures Valid() && old(factory.kernel.used) <= factory.kernel.used
      ensures ok <==> reply == Started && !faults.startUnanswered
      ensures reply != AlreadyRunning && (reply == Started ==> factory.Runs(name))
      ensures factory.Runs(name) ==> factory.storletNameToPid[name] !in old(factory.kernel.used)
      ensures SameOthers(old(factory.storletNameToPid), factory.storletNameToPid, name)
      ensures supported ==> name in factory.storletNameToPipeName && factory.storletNameToPipeName[name] == udsPath
      ensures factory.kernel.used != old(factory.kernel.used) <==> supported && runnable
    {
      hide Recorded;
      ghost var running, pings;
      reply, running, pings := factory.ProcessStartDaemon(name, udsPath, supported, runnable);
      ok := !faults.startUnanswered && reply != StartFailed;
    }

    /** activate_storlet_daemon. It completes exactly when a daemon was seen running and the container was not
        updated, or when a start was confirmed; a daemon of the storlet then runs, as of the factory's last
        reply, and after an update it is one spawned by this activation. The container is restarted only
        when the factory did not answer or confirm; otherwise the daemons of other storlets are left alone.
        After an update a daemon from before is still in use exactly when the factory heard nothing of the
        update while it ran one. `reply` is the factory's reply to the start command, if one was sent, and
        `seen` what it said of the daemon's status. */
    method Activate(name: Name, udsPath: string, cacheUpdated: bool, supported: bool, runnable: bool, faults: Faults)
      returns (ok: bool, reply: Option<StartReply>, seen: Option<bool>)
      requires Valid()
      modifies this, factory, factory.kernel
      ensures Valid() && old(factory.kernel.used) <= factory.kernel.used
      ensures factory == old(factory) || (fresh(factory) && fresh(factory.kernel))
      ensures seen.None? <==> faults.statusLost
      ensures seen == Some(true) ==> old(factory.Runs(name))
      ensures ok <==> (!cacheUpdated && seen == Some(true)) || (reply == Some(Started) && !faults.startUnanswered)
      ensures ok ==> factory.Runs(name)
      ensures reply.None? <==>
                (!cacheUpdated && seen == Some(true)) ||
                  (NeedsRestart(cacheUpdated, seen, faults) && faults.restartRaises)
      ensures reply.Some? ==> reply.value != AlreadyRunning
      ensures reply.Some? && supported ==>
                name in factory.storletNameToPipeName && factory.storletNameToPipeName[name] == udsPath
      ensures factory.kernel.used != old(factory.kernel.used) <==> reply.Some? && supported && runnable
      ensures factory != old(factory) <==>
                NeedsRestart(cacheUpdated, seen, faults) && (!faults.restartRaises || faults.restartReplaces)
      ensures factory == old(factory) ==> SameOthers(old(factory.storletNameToPid), factory.storletNameToPid, name)
      ensures !cacheUpdated && seen == Some(true) ==> factory.storletNameToPid == old(factory.storletNameToPid)
      ensures factory.Runs(name) && factory.storletNameToPid[name] in old(factory.kernel.used) ==>
                factory == old(factory) && old(factory.Runs(name)) &&
                  factory.storletNameToPid[name] == old(factory.storletNameToPid)[name]
      ensures cacheUpdated && ok ==> factory.storletNameToPid[name] !in old(factory.kernel.used)
      ensures cacheUpdated ==>
                (factory.Runs(name) && factory.storletNameToPid[name] in old(factory.kernel.used) <==>
                 UpdateMissed(faults) && (if faults.statusLost then old(factory.Runs(name)) else seen == Some(true)))
    {
      hide Recorded;
      ok, reply := false, None;
      var go;
      go, seen := Status(name, faults);
      if !go { return; }
      var isRunning := seen == Some(true);
      if cacheUpdated && isRunning {
        go := Stop(name, faults);
        if !go { return; }
        isRunning := false;
      }
      if !isRunning {
        var answer;
        ok, answer := Start(name, udsPath, supported, runnable, faults);
        reply := Some(answer);
      } else {
        ok := true;
      }
    }
  }

  /** What happens at the gateway of one storlet; `swift` says how the store delivers in an invocation. */
  datatype Step =
    | Uploaded(uploaded: Name, content: StorletCache.Content)
    | Deleted(deleted: Name)
    | Invoked(dependencies: seq<Name>, swift: map<Name, StorletCache.Delivery>, supported: bool, runnable: bool,
        faults: Faults)

  /** What a step did to the container's files: nothing, or some were replaced, all that were asked for or
      only those before a file that could not be fetched. */
  datatype FileUpdate = Untouched | Replaced(raised: bool)

  /** The sandbox, the files on their way into it, and the moment its container last received new code. */
  class Gateway {
    const sandbox: Sandbox
    const files: StorletCache.ContainerGateway
    ghost var before: set<Pid>    // the processes that existed at the last update

    ghost predicate Valid()
      reads this, files, sandbox, sandbox.factory, sandbox.factory.kernel
    {
      sandbox.Valid() && before <= sandbox.factory.kernel.used && StorletCache.Good(files.Current())
    }

    /** No daemon of the storlet is older than the code in the container. */
    ghost predicate Current(name: Name)
      reads this, sandbox, sandbox.factory, sandbox.factory.kernel
    {
      sandbox.factory.Runs(name) ==> sandbox.factory.storletNameToPid[name] !in before
    }

    constructor ()
      ensures Valid() && forall name :: Current(name)
    {
      sandbox := new Sandbox();
      files := new StorletCache.ContainerGateway();
      before := {};
    }

    /** One invocation: the container's files are brought up to date, then the daemon is activated. When it
        completes, a daemon runs. If a file cannot be fetched it ends there, before the activation, with the
        files before that one already in the container. After an invocation that replaced files, completed
        or not, the daemon is older than the container's code exactly when one ran and either the
        activation was never reached or the factory heard nothing of the update; an invocation that replaced
        none leaves a current daemon current. */
    method Invocation(name: Name, storletId: Name, dependencies: seq<Name>, swift: map<Name, StorletCache.Delivery>,
                      udsPath: string, supported: bool, runnable: bool, faults: Faults)
      returns (ok: bool, ghost update: FileUpdate, seen: Option<bool>)
      requires Valid()
      modifies this, files, sandbox, sandbox.factory, sandbox.factory.kernel
      ensures Valid()
      ensures sandbox.factory == old(sandbox.factory) || (fresh(sandbox.factory) && fresh(sandbox.factory.kernel))
      ensures var u := StorletCache.Update(old(files.Current()), storletId, dependencies, swift);
              && files.Current() == u.world && update == (if u.copied then Replaced(u.raised) else Untouched)
              && (u.raised ==> !ok && seen == None && sandbox.factory == old(sandbox.factory))
              && (!u.raised ==> (seen.None? <==> faults.statusLost))
      ensures update.Replaced? <==> files.container != old(files.container)
      ensures var u := StorletCache.Update(old(files.Current()), storletId, dependencies, swift);
              sandbox.factory.kernel.used != old(sandbox.factory.kernel.used) <==>
              && !u.raised && supported && runnable && !(update == Untouched && seen == Some(true))
              && !(NeedsRestart(update.Replaced?, seen, faults) && faults.restartRaises)
      ensures sandbox.factory == old(sandbox.factory) ==>
                SameOthers(old(sandbox.factory.storletNameToPid), sandbox.factory.storletNameToPid, name)
      ensures sandbox.factory != old(sandbox.factory) ==> NeedsRestart(update.Replaced?, seen, faults)
      ensures ok ==> sandbox.factory.Runs(name)
      ensures update.Replaced? ==>
                (!Current(name) <==>
                 (update.raised && old(sandbox.factory.Runs(name))) ||
                 (!update.raised && UpdateMissed(faults) &&
                  if faults.statusLost then old(sandbox.factory.Runs(name)) else seen == Some(true)))
      ensures update.Replaced? && ok ==> Current(name)
      ensures update == Untouched && old(Current(name)) ==> Current(name)
      ensures update == Untouched && seen == Some(true) ==> ok && (Current(name) <==> old(Current(name)))
    {
      hide Recorded, StorletCache.Update, UpdateMissed, StorletCache.Good;
      StorletCache.UpdateTellsChange(files.Current(), storletId, dependencies, swift);
      StorletCache.UpdateKeepsGood(files.Current(), storletId, dependencies, swift);
      ghost var copied;
      var updated;
      updated, copied := files.UpdateContainerFromCache(storletId, dependencies, swift);
      update := if copied then Replaced(updated.Raised?) else Untouched;
      if copied {
        before := sandbox.factory.kernel.used;
      }
      ok, seen := false, None;
      if updated.Ok? {
        var reply;
        ok, reply, seen := sandbox.Activate(name, udsPath, updated.value, supported, runnable, faults);
      }
    }

    /** One step of a history that started with the files `w`. */
    method TakeStep(name: Name, storletId: Name, udsPath: string, steps: seq<Step>, n: nat, ghost w: StorletCache.World)
      returns (completed: bool)
      requires Valid() && n < |steps| && files.Current() == FilesAfter(w, storletId, steps, n)
      modifies this, files, sandbox, sandbox.factory, sandbox.factory.kernel
      ensures Valid() && files.Current() == FilesAfter(w, storletId, steps, n + 1)
      ensures sandbox.factory == old(sandbox.factory) || (fresh(sandbox.factory) && fresh(sandbox.factory.kernel))
      ensures old(Current(name)) || LastUpdateMissed(w, storletId, steps, n) ==>
                Current(name) || LastUpdateMissed(w, storletId, steps, n + 1)
      ensures if steps[n].Invoked? then completed ==> sandbox.factory.Runs(name) else completed
    {
      OneMore(w, storletId, steps, n);
      hide *;
      completed := true;
      match steps[n] {
        case Uploaded(uploaded, content) =>
          StorletCache.UploadKeepsGood(files.Current(), uploaded, content);
          files.Put(uploaded, content);
        case Deleted(deleted) =>
          StorletCache.DeleteKeepsGood(files.Current(), deleted);
          files.Remove(deleted);
        case Invoked(dependencies, swift, supported, runnable, faults) =>
          ghost var update;
          var seen;
          completed, update, seen :=
            Invocation(name, storletId, dependencies, swift, udsPath, supported, runnable, faults);
      }
    }

    /** Any history of uploads, deletions and invocations, completed or not: a daemon older than the
        container's code is in use only if the last replacement of files ended before the activation, or
        the factory heard nothing of it. */
    method History(name: Name, storletId: Name, udsPath: string, steps: seq<Step>) returns (completed: seq<bool>)
      requires Valid() && Current(name)
      modifies this, files, sandbox, sandbox.factory, sandbox.factory.kernel
      ensures Valid() && files.Current() == FilesAfter(old(files.Current()), storletId, steps, |steps|)
      ensures Current(name) || LastUpdateMissed(old(files.Current()), storletId, steps, |steps|)
      ensures |completed| == |steps|
      ensures |steps| > 0 && completed[|steps| - 1] && steps[|steps| - 1].Invoked? ==> sandbox.factory.Runs(name)
    {
      ghost var w := files.Current();
      NoSteps(w, storletId, steps);
      hide *;
      completed := [];
      var n := 0;
      while n < |steps|
        invariant Valid() && n == |completed| <= |steps| && files.Current() == FilesAfter(w, storletId, steps, n)
        invariant Current(name) || LastUpdateMissed(w, storletId, steps, n)
        invariant n > 0 && completed[n - 1] && steps[n - 1].Invoked? ==> sandbox.factory.Runs(name)
        invariant sandbox.factory == old(sandbox.factory) || (fresh(sandbox.factory) && fresh(sandbox.factory.kernel))
      {
        var ok := TakeStep(name, storletId, udsPath, steps, n, w);
        completed := completed + [ok];
        n := n + 1;
      }
    }

    /** A daemon that runs when an update is missed: the invocation fails, and the next one, without any
        fault, completes with that daemon if it is still there. */
    method StaleDaemonInUse(name: Name, storletId: Name, content: StorletCache.Content, udsPath: string)
      returns (first: bool, second: bool, seen: Option<bool>)
      requires Valid() && sandbox.factory.Runs(name)
      requires storletId in files.container
      requires |content| != |files.container[storletId].content|
      modifies this, files, sandbox, sandbox.factory, sandbox.factory.kernel
      ensures !first && (seen == Some(true) ==> second && sandbox.factory.Runs(name) && !Current(name))
    {
      files.Put(storletId, content);
      ghost var w := files.Current();
      StorletCache.UploadKeepsGood(old(files.Current()), storletId, content);
      ReplacedOnce(w, storletId, [], map[]);
      ghost var update, again, seenFirst;
      first, update, seenFirst :=
        Invocation(name, storletId, [], map[], udsPath, true, true,
            NO_FAULTS.(statusLost := true, restartRaises := true));
      assert update == Replaced(false) && !Current(name);
      second, again, seen := Invocation(name, storletId, [], map[], udsPath, true, true, NO_FAULTS);
      assert again == Untouched;
    }

    /** A daemon that runs when a new version of the storlet is brought together with a dependency that
        cannot be fetched: the invocation fails with the new version in the container, and the next one,
        without the dependency and without any fault, completes with the old daemon if it is still there. */
    method StaleAfterFailedFetch(name: Name, storletId: Name, content: StorletCache.Content, dependency: Name,
                                 udsPath: string)
      returns (first: bool, second: bool, seen: Option<bool>)
      requires Valid() && sandbox.factory.Runs(name)
      requires storletId in files.container
      requires |content| != |files.container[storletId].content|
      requires dependency !in files.cache && dependency !in files.store && dependency != storletId
      modifies this, files, sandbox, sandbox.factory, sandbox.factory.kernel
      ensures storletId in files.container && files.container[storletId].content == content
      ensures !first && (seen == Some(true) ==> second && sandbox.factory.Runs(name) && !Current(name))
    {
      files.Put(storletId, content);
      ghost var w := files.Current();
      StorletCache.UploadKeepsGood(old(files.Current()), storletId, content);
      ReplacedOnce(w, storletId, [dependency], map[]);
      ghost var update, again, seenFirst;
      first, update, seenFirst := Invocation(name, storletId, [dependency], map[], udsPath, true, true, NO_FAULTS);
      assert update == Replaced(true) && !Current(name);
      second, again, seen := Invocation(name, storletId, [], map[], udsPath, true, true, NO_FAULTS);
      assert again == Untouched;
    }
  }

  /** A version of another size is brought once: with dependencies of which none can be fetched, it is in
      the container when the call raises. */
  lemma ReplacedOnce(w: StorletCache.World, storletId: Name, missing: seq<Name>, swift: map<Name,
                     StorletCache.Delivery>)
    requires StorletCache.Good(w) && storletId in w.store && storletId in w.container && swift == map[]
    requires |w.store[storletId].content| != |w.container[storletId].content|
    requires storletId in w.cache ==> w.cache[storletId].mtime < w.store[storletId].timestamp
    requires forall i :: 0 <= i < |missing| ==>
               missing[i] !in w.cache && missing[i] !in w.store && missing[i] != storletId
    ensures var u := StorletCache.Update(w, storletId, missing, swift);
            && u.copied && (u.raised <==> |missing| > 0)
            && storletId in u.world.container && u.world.container[storletId].content == w.store[storletId].content
            && var v := StorletCache.Update(u.world, storletId, [], swift);
               v.world == u.world && !v.copied && !v.raised
  {
    StorletCache.SizeChangeIsCopied(w, storletId);
    StorletCache.BroughtStays(w, storletId);
    var b := StorletCache.Bring(w, storletId, true, StorletCache.Whole);
    StorletCache.BringNone(b.world, [], swift);
    if |missing| == 0 {
      StorletCache.BringNone(b.world, missing, swift);
    } else {
      StorletCache.BringNext(b.world, missing, swift);
    }
  }

  // ---- What the steps of a history do to the files ----

  function FilesNext(w: StorletCache.World, storletId: Name, step: Step): StorletCache.World {
    match step
    case Uploaded(uploaded, content) => StorletCache.Upload(w, uploaded, content)
    case Deleted(deleted) => StorletCache.Delete(w, deleted)
    case Invoked(dependencies, swift, _, _, _) => StorletCache.Update(w, storletId, dependencies, swift).world
  }

  function FilesAfter(w: StorletCache.World, storletId: Name, steps: seq<Step>, n: nat): StorletCache.World
    requires n <= |steps|
  {
    if n == 0 then w else FilesNext(FilesAfter(w, storletId, steps, n - 1), storletId, steps[n - 1])
  }

  function UpdateBy(w: StorletCache.World, storletId: Name, step: Step): FileUpdate {
    if !step.Invoked? then Untouched
    else
      var u := StorletCache.Update(w, storletId, step.dependencies, step.swift);
      if u.copied then Replaced(u.raised) else Untouched
  }

  function UpdateAt(w: StorletCache.World, storletId: Name, steps: seq<Step>, i: nat): FileUpdate
    requires i < |steps|
  {
    UpdateBy(FilesAfter(w, storletId, steps, i), storletId, steps[i])
  }

  /** Files were replaced, and then either one could not be fetched, which ends the invocation before the
      activation, or the factory heard nothing of it. */
  predicate MissedAt(w: StorletCache.World, storletId: Name, steps: seq<Step>, i: nat)
    requires i < |steps|
  {
    var update := UpdateAt(w, storletId, steps, i);
    update.Replaced? && steps[i].Invoked? && (update.raised || UpdateMissed(steps[i].faults))
  }

  /** There was an update in the first `n` steps, and the last one never got to the factory. */
  ghost predicate LastUpdateMissed(w: StorletCache.World, storletId: Name, steps: seq<Step>, n: nat)
    requires n <= |steps|
  {
    exists i :: 0 <= i < n && MissedAt(w, storletId, steps, i) &&
      forall j :: i < j < n ==> UpdateAt(w, storletId, steps, j) == Untouched
  }

  lemma NoSteps(w: StorletCache.World, storletId: Name, steps: seq<Step>)
    ensures FilesAfter(w, storletId, steps, 0) == w
  {
  }

  lemma OneMore(w: StorletCache.World, storletId: Name, steps: seq<Step>, n: nat)
    requires n < |steps|
    ensures LastUpdateMissed(w, storletId, steps, n) && UpdateAt(w, storletId, steps, n) == Untouched ==>
              LastUpdateMissed(w, storletId, steps, n + 1)
    ensures MissedAt(w, storletId, steps, n) ==> LastUpdateMissed(w, storletId, steps, n + 1)
    ensures var now, next := FilesAfter(w, storletId, steps, n), FilesAfter(w, storletId, steps, n + 1);
            var update := UpdateAt(w, storletId, steps, n);
            match steps[n]
            case Uploaded(uploaded, content) => next == StorletCache.Upload(now, uploaded, content) &&
              update == Untouched
            case Deleted(deleted) => next == StorletCache.Delete(now, deleted) && update == Untouched
            case Invoked(dependencies, swift, supported, runnable, faults) =>
              var u := StorletCache.Update(now, storletId, dependencies, swift);
              && next == u.world && update == (if u.copied then Replaced(u.raised) else Untouched)
              && (MissedAt(w, storletId, steps, n) <==> update.Replaced? && (update.raised || UpdateMissed(faults)))
  {
    hide UpdateMissed, StorletCache.Update, StorletCache.Upload, StorletCache.Delete;
  }
}
