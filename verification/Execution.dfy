/** One execute datagram across the fork: the descriptor tables of parent and child, what each of them
    closes, and which of them answers. */
module Execution {
  import opened Basics
  import opened Datagrams
  import opened RangeTexts
  import opened DescriptorRoles

  function SetOf(fds: seq<int>): set<int> {
    set fd | fd in fds
  }

  predicate Distinct(fds: seq<int>) {
    forall i, j :: 0 <= i < j < |fds| ==> fds[i] != fds[j]
  }

  /** How a command handler ends in a process. */
  datatype HandlerEnd = Responds(iterable: bool) | Raises | Exits

  /** How dispatch_command ends in a process: the main loop learns whether to go on, or an exception leaves it. */
  datatype DispatchEnd = Continues(iterable: bool) | LeftByExit | LeftByError

  /** What a storlet does with its files, whether writing out the rest of the metadata or of the output fails
      when they are closed for it, and which abandoned files the interpreter collects. */
  datatype StorletRun = StorletRun(closesInputs: set<int>, sendsMetadata: bool, closesOutput: bool,
                                   metadataFails: bool, outputFails: bool, collected: set<int>)

  /** Closing the output file raises at the metadata, with the output itself still to be closed. */
  predicate MetadataRaises(run: StorletRun) {
    !run.closesOutput && !run.sendsMetadata && run.metadataFails
  }

  predicate ClosingRaises(run: StorletRun) {
    MetadataRaises(run) || (!run.closesOutput && run.outputFails)
  }

  /** What stays open of the output in the end. */
  function LeftOpen(run: StorletRun, outFd: int): set<int> {
    if MetadataRaises(run) && outFd !in run.collected then {outFd} else {}
  }

  class Process {
    var table: set<int>    // open descriptors
    var answers: nat       // written to service channels

    constructor (table: set<int>)
      ensures this.table == table && answers == 0
    {
      this.table, answers := table, 0;
    }

    /** Closes a descriptor; one that is not open is passed over. */
    method SafeClose(fd: int)
      modifies this`table
      ensures table == old(table) - {fd}
    {
      table := table - {fd};
    }

    /** The end of dispatch_command: opens the service channel, writes the answer and closes it. Opening a
        descriptor that is not open raises. */
    method Answer(fd: int) returns (ok: bool)
      modifies this
      ensures ok <==> fd in old(table)
      ensures table == old(table) - {fd}
      ensures answers == old(answers) + if ok then 1 else 0
    {
      ok := fd in table;
      if ok {
        answers := answers + 1;
        table := table - {fd};
      }
    }

    /** The descriptors of a datagram arrive under numbers that were not in use. */
    method Receive(sent: seq<FileDescriptor>) returns (sfds: seq<FileDescriptor>)
      modifies this`table
      ensures |sfds| == |sent| && sfds == DeliveredAll(sent, Filenos(sfds))
      ensures Distinct(Filenos(sfds)) && SetOf(Filenos(sfds)) !! old(table)
      ensures table == old(table) + SetOf(Filenos(sfds))
    {
      var fds := UnusedNumbers(table, |sent|);
      sfds := DeliveredAll(sent, fds);
      assert Filenos(sfds) == fds;
      table := table + SetOf(fds);
    }

    /** After the handler, in the process it ran in: an exit passes through, an exception becomes an answer. */
    method FinishDispatch(serviceFd: int, end: HandlerEnd) returns (r: DispatchEnd)
      modifies this
      ensures end == Exits ==> r == LeftByExit && table == old(table) && answers == old(answers)
      ensures end != Exits && serviceFd !in old(table) ==>
                r == LeftByError && table == old(table) && answers == old(answers)
      ensures end != Exits && serviceFd in old(table) ==>
                && r == Continues(if end.Responds? then end.iterable else true)
                && table == old(table) - {serviceFd} && answers == old(answers) + 1
    {
      if end == Exits { return LeftByExit; }
      var ok := Answer(serviceFd);
      r := if !ok then LeftByError else Continues(if end.Responds? then end.iterable else true);
    }
  }

  /** As many numbers outside a finite set as needed. */
  method UnusedNumbers(used: set<int>, n: nat) returns (fds: seq<int>)
    ensures |fds| == n && Distinct(fds) && SetOf(fds) !! used
  {
    var next := Above(used);
    fds := seq(n, i requires 0 <= i < n => next + i);
    assert forall fd :: fd in fds ==> fd >= next;
  }

  /** A number above all of a finite set. */
  method Above(used: set<int>) returns (next: int)
    ensures forall fd :: fd in used ==> fd < next
  {
    next := 0;
    var rest := used;
    while true
      invariant rest <= used && forall fd :: fd in used && fd !in rest ==> fd < next
      decreases |rest|
    {
      if fd: int :| fd in rest {
        if fd >= next { next := fd + 1; }
        rest := rest - {fd};
      } else {
        break;
      }
    }
  }

  // ---- The two sides of the fork ----

  /** fork, and the closing that follows on either side: the parent closes what belongs to the invocation,
      the child closes the service channel. Every descriptor of the datagram then belongs to exactly one of
      the two processes. */
  method Fork(parent: Process, sfds: seq<FileDescriptor>) returns (child: Process)
    requires Accepted(EXECUTE, sfds) && Distinct(Filenos(sfds)) && SetOf(Filenos(sfds)) <= parent.table
    modifies parent
    ensures fresh(child) && child.answers == 0 && parent.answers == old(parent.answers)
    ensures parent.table == old(parent.table) - SetOf(InvocationFds(sfds))
    ensures child.table == old(parent.table) - {sfds[0].fileno}
    ensures forall fd :: fd in Filenos(sfds) ==>
              (fd in parent.table <==> fd == sfds[0].fileno) && (fd in child.table <==> fd !in parent.table)
  {
    RolesOfExecute(sfds, ServiceOut);
    hide FindFds, Accepted, OfType, SetOf, Distinct, InvocationFds;
    child := new Process(parent.table);
    CloseEach(parent, InvocationFds(sfds));
    child.SafeClose(FindFds(sfds, ServiceOut)[0]);
    Owners(sfds);
  }

  lemma Owners(sfds: seq<FileDescriptor>)
    requires |sfds| > 0 && Distinct(Filenos(sfds))
    ensures forall fd :: fd in Filenos(sfds) ==> (fd in SetOf(InvocationFds(sfds)) <==> fd != sfds[0].fileno)
    ensures SetOf(Filenos(sfds)) == SetOf(InvocationFds(sfds)) + {sfds[0].fileno}
    ensures forall fd :: fd in Filenos(sfds) ==> fd in SetOf(Filenos(sfds))
  {
    var fds, rest := Filenos(sfds), InvocationFds(sfds);
    assert fds == [sfds[0].fileno] + rest;
    assert forall i :: 0 <= i < |rest| ==> rest[i] == fds[i + 1];
  }

  /** `_execute` in the child. When the input files cannot be made it raises before anything is closed, and
      the output, its metadata and the log stay open; the files already made may be collected. Otherwise it
      closes everything, whatever the storlet did and however it ended, except an output whose metadata
      could not be written out. */
  method ExecuteStorlet(child: Process, sfds: seq<FileDescriptor>, run: StorletRun) returns (made: bool, raised: bool)
    requires Accepted(EXECUTE, sfds) && |sfds| >= 5 && Distinct(Filenos(sfds)) &&
             SetOf(InvocationFds(sfds)) <= child.table
    modifies child`table
    ensures made <==> PythonInputs(sfds).Ok?
    ensures raised <==> !made || ClosingRaises(run)
    ensures made ==> child.table == old(child.table) - SetOf(InvocationFds(sfds)) + LeftOpen(run, sfds[2].fileno)
    ensures !made ==>
              child.table <= old(child.table) && old(child.table) - child.table <= SetOf(FindFds(sfds, InputObject))
  {
    RolesOfExecute(sfds, InputObject);
    RolesOfExecute(sfds, OutputObject);
    RolesOfExecute(sfds, OutputObjectMetadata);
    RolesOfExecute(sfds, Logger);
    OutputIsNoInput(sfds);
    hide FindFds, Accepted, OfType, PythonRange, PythonInputs, SetOf, Distinct;
    var inFds, outFd := FindFds(sfds, InputObject), FindFds(sfds, OutputObject)[0];
    var mdFd, loggerFd := FindFds(sfds, OutputObjectMetadata)[0], FindFds(sfds, Logger)[0];
    made := MakeInputFiles(sfds);
    EveryInvocationFd(sfds);
    if !made {
      child.table := child.table - (run.collected * SetOf(inFds));
      raised := true;
      return;
    }
    raised := CloseAll(child, inFds, outFd, mdFd, loggerFd, run);
  }

  /** The storlet closes what it likes, and the rest is closed for it. */
  method CloseAll(child: Process, inFds: seq<int>, outFd: int, mdFd: int, loggerFd: int, run: StorletRun)
    returns (raised: bool)
    requires outFd in child.table && outFd !in SetOf(inFds) && outFd != mdFd && outFd != loggerFd
    modifies child`table
    ensures raised <==> ClosingRaises(run)
    ensures child.table == old(child.table) - SetOf(inFds) - {outFd, mdFd, loggerFd} + LeftOpen(run, outFd)
  {
    hide SetOf;
    child.table := child.table - (run.closesInputs * SetOf(inFds));
    var metadataClosed, outputClosed := run.sendsMetadata || run.closesOutput, run.closesOutput;
    if metadataClosed { child.SafeClose(mdFd); }
    if outputClosed { child.SafeClose(outFd); }
    child.SafeClose(loggerFd);    // leaving the logger's with block
    CloseEach(child, inFds);
    raised := false;
    if !outputClosed {
      if !metadataClosed {
        child.SafeClose(mdFd);
        if run.metadataFails {
          if outFd in run.collected { child.SafeClose(outFd); }
          return true;
        }
      }
      child.SafeClose(outFd);
      raised := run.outputFails;
    }
  }

  /** Closes the descriptors of a list that are open. */
  method CloseEach(process: Process, fds: seq<int>)
    modifies process`table
    ensures process.table == old(process.table) - SetOf(fds)
  {
    hide SetOf;
    var i := 0;
    SetOfPrefix(fds, 0);
    while i < |fds|
      invariant 0 <= i <= |fds| && process.table == old(process.table) - SetOf(fds[..i])
    {
      SetOfPrefix(fds, i);
      process.SafeClose(fds[i]);
      i := i + 1;
    }
    assert fds[..i] == fds;
  }

  lemma SetOfPrefix(fds: seq<int>, i: nat)
    requires i <= |fds|
    ensures SetOf(fds[..0]) == {}
    ensures i < |fds| ==> SetOf(fds[..i + 1]) == SetOf(fds[..i]) + {fds[i]}
  {
    if i < |fds| {
      assert fds[..i + 1] == fds[..i] + [fds[i]];
    }
  }

  lemma EveryInvocationFd(sfds: seq<FileDescriptor>)
    requires |sfds| >= 5
    ensures SetOf(InvocationFds(sfds)) ==
            {sfds[2].fileno, sfds[3].fileno, sfds[4].fileno} + SetOf([sfds[1].fileno] + Filenos(sfds[5..]))
  {
    assert sfds[1..] == [sfds[1], sfds[2], sfds[3], sfds[4]] + sfds[5..];
    assert InvocationFds(sfds) == [sfds[1].fileno, sfds[2].fileno, sfds[3].fileno, sfds[4].fileno] + Filenos(sfds[5..]);
  }

  /** The list of input files, made one by one; the first that cannot be made raises. */
  method MakeInputFiles(sfds: seq<FileDescriptor>) returns (made: bool)
    ensures made <==> PythonInputs(sfds).Ok?
  {
    hide PythonInput;
    var all := PythonZip(sfds);
    CollectsAll(all);
    var i := 0;
    while i < |all|
      invariant 0 <= i <= |all| && forall k :: 0 <= k < i ==> all[k].Ok?
    {
      if all[i].Raised? { return false; }
      i := i + 1;
    }
    made := true;
  }

  /** The child from the fork to its end. It leaves dispatch_command in every case, by the exit after the
      storlet, or by an error: an exception of `_execute` is caught and would be answered, but the service
      channel is closed in this process. So a child never answers. */
  method ChildRuns(child: Process, sfds: seq<FileDescriptor>, run: StorletRun) returns (end: DispatchEnd)
    requires Accepted(EXECUTE, sfds) && |sfds| >= 5 && Distinct(Filenos(sfds))
    requires SetOf(InvocationFds(sfds)) <= child.table && sfds[0].fileno !in child.table
    modifies child
    ensures child.answers == old(child.answers)
    ensures end == if PythonInputs(sfds).Ok? && !ClosingRaises(run) then LeftByExit else LeftByError
    ensures PythonInputs(sfds).Ok? ==>
              child.table == old(child.table) - SetOf(InvocationFds(sfds)) + LeftOpen(run, sfds[2].fileno)
    ensures PythonInputs(sfds).Raised? ==>
              child.table <= old(child.table) && old(child.table) - child.table <= SetOf(FindFds(sfds, InputObject))
  {
    OutputIsNoInput(sfds);
    hide Accepted, FindFds, PythonInputs, Distinct, SetOf;
    var made, raised := ExecuteStorlet(child, sfds, run);
    end := child.FinishDispatch(sfds[0].fileno, if raised then Raises else Exits);
  }

  /** dispatch_command for an execute datagram, in both processes. Exactly one answer is written, by the
      parent, which then holds none of the descriptors. The child closes all of them exactly when the bounds
      of every input can be used and the metadata, if still open, can be written out; otherwise the output
      stays open until it is collected or the process is gone. */
  method DispatchExecute(parent: Process, sfds: seq<FileDescriptor>, run: StorletRun)
    returns (child: Process, parentEnd: DispatchEnd, childEnd: DispatchEnd)
    requires Accepted(EXECUTE, sfds) && Distinct(Filenos(sfds)) && SetOf(Filenos(sfds)) <= parent.table
    modifies parent
    ensures fresh(child)
    ensures parent.answers == old(parent.answers) + 1 && child.answers == 0
    ensures parentEnd == Continues(true)
    ensures childEnd == if PythonInputs(sfds).Ok? && !ClosingRaises(run) then LeftByExit else LeftByError
    ensures parent.table == old(parent.table) - SetOf(Filenos(sfds))
    ensures |sfds| >= 5 &&
            (child.table !! SetOf(Filenos(sfds)) <==> PythonInputs(sfds).Ok? && LeftOpen(run, sfds[2].fileno) == {})
    ensures PythonInputs(sfds).Ok? ==> child.table == parent.table + LeftOpen(run, sfds[2].fileno)
  {
    RolesOfExecute(sfds, InputObject);
    hide Accepted, FindFds, PythonInputs, OfType, Distinct;
    Owners(sfds);
    child := Fork(parent, sfds);
    parentEnd := parent.FinishDispatch(sfds[0].fileno, Responds(true));
    OutputIsNoInput(sfds);
    ServiceIsNoOther(sfds);
    hide SetOf;
    childEnd := ChildRuns(child, sfds, run);
    if PythonInputs(sfds).Raised? {
      assert sfds[2].fileno in child.table;
    }
  }

  lemma ServiceIsNoOther(sfds: seq<FileDescriptor>)
    requires |sfds| > 0 && Distinct(Filenos(sfds))
    ensures sfds[0].fileno !in SetOf(InvocationFds(sfds))
  {
    var fds, rest := Filenos(sfds), InvocationFds(sfds);
    assert forall i :: 0 <= i < |rest| ==> rest[i] == fds[i + 1];
    assert fds[0] == sfds[0].fileno;
  }

  lemma OutputIsNoInput(sfds: seq<FileDescriptor>)
    requires |sfds| >= 5 && Distinct(Filenos(sfds))
    ensures sfds[2].fileno in Filenos(sfds) && sfds[2].fileno != sfds[0].fileno
    ensures sfds[2].fileno !in SetOf([sfds[1].fileno] + Filenos(sfds[5..])) && sfds[2].fileno in SetOf(Filenos(sfds))
    ensures sfds[2].fileno != sfds[3].fileno && sfds[2].fileno != sfds[4].fileno
  {
    var fds := Filenos(sfds);
    assert fds[0] == sfds[0].fileno && fds[1] == sfds[1].fileno && fds[2] == sfds[2].fileno;
    assert fds[3] == sfds[3].fileno && fds[4] == sfds[4].fileno;
    forall i | 0 <= i < |sfds[5..]| ensures Filenos(sfds[5..])[i] != fds[2] {
      assert Filenos(sfds[5..])[i] == fds[i + 5];
    }
  }
}
