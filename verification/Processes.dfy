/** Child processes as the operating system shows them to their parent. Children may end at any moment:
    every system call first lets an arbitrary set of them do so. */
module Processes {
  import opened Basics

  /** The identity of a process. */
  datatype Pid = Pid(number: nat)

  /** A child that has not been reaped yet. */
  datatype ProcessState = Running | Zombie

  type Children = map<Pid, ProcessState>

  datatype WaitResult = NoChild | StillRunning | Reaped

  /** Time passes: no child appears or disappears, and what has ended stays ended. */
  ghost predicate Ages(before: Children, after: Children) {
    after.Keys == before.Keys && forall p :: p in before && before[p] == Zombie ==> after[p] == Zombie
  }

  /** Time passes and `p` is reaped. */
  ghost predicate Reaps(before: Children, after: Children, p: Pid) {
    p in before && after.Keys == before.Keys - {p} &&
    forall q :: q in after && before[q] == Zombie ==> after[q] == Zombie
  }

  class Kernel {
    var children: Children
    var used: set<Pid>    // process identities handed out so far; none is handed out twice

    ghost predicate Valid()
      reads this
    {
      children.Keys <= used
    }

    constructor (used: set<Pid>)
      ensures Valid() && children == map[] && this.used == used
    {
      children := map[];
      this.used := used;
    }

    /** The environment: any children end. */
    method Tick()
      requires Valid()
      modifies this`children
      ensures Valid() && Ages(old(children), children)
    {
      var ended: set<Pid> := *;
      children := map p | p in children :: if p in ended then Zombie else children[p];
    }

    /** waitpid(pid, WNOHANG) */
    method WaitpidNoHang(pid: Pid) returns (r: WaitResult)
      requires Valid()
      modifies this`children
      ensures Valid()
      ensures r == NoChild <==> pid !in old(children)
      ensures r == Reaped ==> Reaps(old(children), children, pid)
      ensures r != Reaped ==> Ages(old(children), children)
      ensures r == StillRunning ==> children[pid] == Running
    {
      Tick();
      if pid !in children {
        r := NoChild;
      } else if children[pid] == Running {
        r := StillRunning;
      } else {
        children := children - {pid};
        r := Reaped;
      }
    }

    /** waitpid(pid, WNOHANG) right after a SIGKILL, which may come too early to reap the child. */
    method WaitpidKilled(pid: Pid) returns (r: WaitResult)
      requires Valid() && pid in children && children[pid] == Zombie
      modifies this`children
      ensures Valid() && (r == Reaped || r == StillRunning)
      ensures r == Reaped ==> Reaps(old(children), children, pid)
      ensures r != Reaped ==> Ages(old(children), children)
    {
      Tick();
      var early: bool := *;
      if early { return StillRunning; }
      children := children - {pid};
      r := Reaped;
    }

    /** wait(): blocks until some child has ended; `None` is ECHILD. */
    method Wait() returns (r: Option<Pid>)
      requires Valid()
      modifies this`children
      ensures Valid()
      ensures r.None? <==> old(children) == map[]
      ensures r.None? ==> children == old(children)
      ensures r.Some? ==> Reaps(old(children), children, r.value)
    {
      if |children| == 0 { return None; }
      Tick();
      var zombies := set p | p in children && children[p] == Zombie;
      assert |children.Keys| == |children|;
      var candidates := if |zombies| > 0 then zombies else children.Keys;
      var p: Pid :| p in candidates;
      children := children - {p};
      r := Some(p);
    }

    /** waitpid(pid, 0): blocks until that child has ended; false is ECHILD. */
    method Waitpid(pid: Pid) returns (ok: bool)
      requires Valid()
      modifies this`children
      ensures Valid()
      ensures ok <==> pid in old(children)
      ensures ok ==> Reaps(old(children), children, pid)
      ensures !ok ==> Ages(old(children), children)
    {
      Tick();
      ok := pid in children;
      children := children - {pid};
    }

    method Fork() returns (pid: Pid)
      requires Valid()
      modifies this
      ensures Valid()
      ensures pid !in old(used) && used == old(used) + {pid}
      ensures children.Keys == old(children).Keys + {pid} && children[pid] == Running
      ensures forall p :: p in old(children) ==> old(children)[p] == Zombie ==> children[p] == Zombie
    {
      Tick();
      pid := Unused(used);
      used := used + {pid};
      children := children[pid := Running];
    }

    /** kill(pid, SIGKILL): the child no longer runs; false is ESRCH. */
    method Kill(pid: Pid) returns (ok: bool)
      requires Valid()
      modifies this`children
      ensures Valid() && Ages(old(children), children)
      ensures ok <==> pid in old(children)
      ensures ok ==> children[pid] == Zombie
    {
      Tick();
      ok := pid in children;
      if ok {
        children := children[pid := Zombie];
      }
    }
  }

  /** Some identity outside a finite set. */
  method Unused(used: set<Pid>) returns (pid: Pid)
    ensures pid !in used
  {
    var next: nat := 0;
    var rest := used;
    while rest != {}
      invariant rest <= used
      invariant forall p :: p in used && p !in rest ==> p.number < next
      decreases rest
    {
      var p: Pid :| p in rest;
      if p.number >= next { next := p.number + 1; }
      rest := rest - {p};
    }
    pid := Pid(next);
  }
}
