/** The descriptors of an execute datagram: who reads them as what, in Python and in Java. */
module DescriptorRoles {
  import opened Basics
  import opened Datagrams
  import opened RangeTexts

  // ---- The Python accessors ----

  /** The descriptors of one type, in order. */
  function OfType(sfds: seq<FileDescriptor>, t: FdType): seq<FileDescriptor> {
    if |sfds| == 0 then []
    else (if sfds[0].fdtype == t then [sfds[0]] else []) + OfType(sfds[1..], t)
  }

  function Filenos(sfds: seq<FileDescriptor>): (r: seq<int>)
    ensures |r| == |sfds| && forall i :: 0 <= i < |r| ==> r[i] == sfds[i].fileno
  {
    seq(|sfds|, i requires 0 <= i < |sfds| => sfds[i].fileno)
  }

  /** _find_fds */
  function FindFds(sfds: seq<FileDescriptor>, t: FdType): seq<int> {
    if |sfds| == 0 then []
    else (if sfds[0].fdtype == t then [sfds[0].fileno] else []) + FindFds(sfds[1..], t)
  }

  /** object_in_metadata */
  function ObjectInMetadata(sfds: seq<FileDescriptor>): seq<Metadata> {
    if |sfds| == 0 then []
    else (if sfds[0].fdtype == InputObject then [sfds[0].storage] else []) + ObjectInMetadata(sfds[1..])
  }

  /** object_in_storlet_metadata */
  function ObjectInStorletMetadata(sfds: seq<FileDescriptor>): seq<Metadata> {
    if |sfds| == 0 then []
    else (if sfds[0].fdtype == InputObject then [sfds[0].storlets] else []) + ObjectInStorletMetadata(sfds[1..])
  }

  function InvocationFds(sfds: seq<FileDescriptor>): seq<int>
    requires |sfds| > 0
  {
    Filenos(sfds[1..])
  }

  /** One input a storlet is given: a plain stream, or a range when both bounds are there. */
  datatype Input = Input(fileno: int, storage: Metadata, range: Option<(int, int)>)

  function InputWith(fileno: int, storage: Metadata, range: Result<Option<(int, int)>>): Result<Input> {
    match range
    case Raised => Raised
    case Ok(r) => Ok(Input(fileno, storage, r))
  }

  /** _create_input_file */
  function PythonInput(fileno: int, storage: Metadata, storlets: Metadata): Result<Input> {
    InputWith(fileno, storage, PythonRange(storlets))
  }

  /** What Python makes of each of a list of descriptors. */
  function PythonMakes(fds: seq<FileDescriptor>): (r: seq<Result<Input>>)
    ensures |r| == |fds| && forall i :: 0 <= i < |r| ==>
              r[i] == PythonInput(fds[i].fileno, fds[i].storage, fds[i].storlets)
  {
    seq(|fds|, i requires 0 <= i < |fds| => PythonInput(fds[i].fileno, fds[i].storage, fds[i].storlets))
  }

  /** A list made element by element: it is there when no element raised. */
  function Collect(rs: seq<Result<Input>>): Result<seq<Input>> {
    if |rs| == 0 then Ok([])
    else
      var rest := Collect(rs[1..]);
      if rs[0].Raised? || rest.Raised? then Raised else Ok([rs[0].value] + rest.value)
  }

  lemma {:induction false} CollectsAll(rs: seq<Result<Input>>)
    ensures Collect(rs).Ok? <==> forall i :: 0 <= i < |rs| ==> rs[i].Ok?
    ensures Collect(rs).Ok? ==> |Collect(rs).value| == |rs| && forall i :: 0 <= i < |rs| ==>
              Collect(rs).value[i] == rs[i].value
  {
    if |rs| > 0 {
      CollectsAll(rs[1..]);
      assert forall i :: 1 <= i < |rs| ==> rs[i] == rs[1..][i - 1];
    }
  }

  /** What the Python daemon makes of the three lists, zipped. */
  function PythonZip(sfds: seq<FileDescriptor>): seq<Result<Input>> {
    var storlets, storage, fds := ObjectInStorletMetadata(sfds), ObjectInMetadata(sfds), FindFds(sfds, InputObject);
    var n := if |storlets| <= |storage| then |storlets| else |storage|;
    var m := if n <= |fds| then n else |fds|;
    seq(m, i requires 0 <= i < m => PythonInput(fds[i], storage[i], storlets[i]))
  }

  /** The input files the Python daemon makes; making them may raise. */
  function PythonInputs(sfds: seq<FileDescriptor>): Result<seq<Input>> {
    Collect(PythonZip(sfds))
  }

  /** The three lists are aligned: the zip pairs every input descriptor with its own metadata and drops none.
      So the files are made exactly when the bounds of every input can be used. */
  lemma PythonInputsAreAligned(sfds: seq<FileDescriptor>)
    ensures PythonZip(sfds) == PythonMakes(OfType(sfds, InputObject))
    ensures var ins := OfType(sfds, InputObject);
            PythonInputs(sfds).Ok? <==> forall i :: 0 <= i < |ins| ==> PythonRange(ins[i].storlets).Ok?
  {
    hide PythonRange, Collect, OfType, FindFds, ObjectInMetadata, ObjectInStorletMetadata;
    AccessorsAgree(sfds);
    CollectsAll(PythonZip(sfds));
    var ins := OfType(sfds, InputObject);
    assert PythonZip(sfds) == PythonMakes(ins);
    assert forall i :: 0 <= i < |ins| ==> (PythonMakes(ins)[i].Ok? <==> PythonRange(ins[i].storlets).Ok?);
  }

  lemma AccessorsAgree(sfds: seq<FileDescriptor>)
    ensures var ins := OfType(sfds, InputObject);
            && |ObjectInStorletMetadata(sfds)| == |ObjectInMetadata(sfds)| == |FindFds(sfds, InputObject)| == |ins|
            && forall i :: 0 <= i < |ins| ==>
                 && FindFds(sfds, InputObject)[i] == ins[i].fileno
                 && ObjectInMetadata(sfds)[i] == ins[i].storage
                 && ObjectInStorletMetadata(sfds)[i] == ins[i].storlets
  {
    hide *;
    FindFdsAligned(sfds);
    StorageAligned(sfds);
    StorletsAligned(sfds);
  }

  lemma {:induction false} FindFdsAligned(sfds: seq<FileDescriptor>)
    ensures var ins := OfType(sfds, InputObject);
            |FindFds(sfds, InputObject)| == |ins| && forall i :: 0 <= i < |ins| ==>
                FindFds(sfds, InputObject)[i] == ins[i].fileno
  {
    if |sfds| > 0 {
      FindFdsAligned(sfds[1..]);
    }
  }

  lemma {:induction false} StorageAligned(sfds: seq<FileDescriptor>)
    ensures var ins := OfType(sfds, InputObject);
            |ObjectInMetadata(sfds)| == |ins| && forall i :: 0 <= i < |ins| ==>
                ObjectInMetadata(sfds)[i] == ins[i].storage
  {
    if |sfds| > 0 {
      StorageAligned(sfds[1..]);
    }
  }

  lemma {:induction false} StorletsAligned(sfds: seq<FileDescriptor>)
    ensures var ins := OfType(sfds, InputObject);
            |ObjectInStorletMetadata(sfds)| == |ins| && forall i :: 0 <= i < |ins| ==>
                ObjectInStorletMetadata(sfds)[i] == ins[i].storlets
  {
    if |sfds| > 0 {
      StorletsAligned(sfds[1..]);
    }
  }

  lemma {:induction false} AllInputs(sfds: seq<FileDescriptor>, t: FdType)
    requires forall i :: 0 <= i < |sfds| ==> sfds[i].fdtype == InputObject
    ensures OfType(sfds, t) == if t == InputObject then sfds else []
    ensures FindFds(sfds, t) == if t == InputObject then Filenos(sfds) else []
  {
    if |sfds| > 0 {
      AllInputs(sfds[1..], t);
      assert sfds == [sfds[0]] + sfds[1..];
      assert Filenos(sfds) == [sfds[0].fileno] + Filenos(sfds[1..]);
    }
  }

  lemma OneOf(sfds: seq<FileDescriptor>, t: FdType)
    requires |sfds| > 0
    ensures FindFds(sfds, t) == if sfds[0].fdtype == t then [sfds[0].fileno] + FindFds(sfds[1..], t)
              else FindFds(sfds[1..], t)
    ensures OfType(sfds, t) == if sfds[0].fdtype == t then [sfds[0]] + OfType(sfds[1..], t) else OfType(sfds[1..], t)
  {
  }

  /** The five leading descriptors have their fixed roles; everything after them is one more input. */
  lemma RolesOfExecute(sfds: seq<FileDescriptor>, t: FdType)
    requires Accepted(EXECUTE, sfds)
    ensures |sfds| >= 5 && forall i :: 0 <= i < 5 ==> sfds[i].fdtype == EXECUTE_TYPES[i]
    ensures FindFds(sfds, t) ==
            match t
            case ServiceOut => [sfds[0].fileno]
            case InputObject => [sfds[1].fileno] + Filenos(sfds[5..])
            case OutputObject => [sfds[2].fileno]
            case OutputObjectMetadata => [sfds[3].fileno]
            case Logger => [sfds[4].fileno]
            case OutputObjectAndMetadata => []
    ensures OfType(sfds, InputObject) == [sfds[1]] + sfds[5..]
  {
    LeadingTypes(sfds);
    hide FindFds, OfType, Accepted;
    Unroll(sfds, t);
    Unroll(sfds, InputObject);
    AllInputs(sfds[5..], t);
    AllInputs(sfds[5..], InputObject);
  }

  lemma LeadingTypes(sfds: seq<FileDescriptor>)
    requires Accepted(EXECUTE, sfds)
    ensures |sfds| >= 5 && forall i :: 0 <= i < 5 ==> sfds[i].fdtype == EXECUTE_TYPES[i]
    ensures forall i :: 5 <= i < |sfds| ==> sfds[i].fdtype == InputObject
  {
    var ts := Types(sfds);
    assert forall i :: 0 <= i < 5 ==> ts[i] == EXECUTE_TYPES[i];
  }

  lemma Unroll(sfds: seq<FileDescriptor>, t: FdType)
    requires |sfds| >= 5 && forall i :: 0 <= i < 5 ==> sfds[i].fdtype == EXECUTE_TYPES[i]
    ensures FindFds(sfds, t) ==
            match t
            case ServiceOut => [sfds[0].fileno] + FindFds(sfds[5..], t)
            case InputObject => [sfds[1].fileno] + FindFds(sfds[5..], t)
            case OutputObject => [sfds[2].fileno] + FindFds(sfds[5..], t)
            case OutputObjectMetadata => [sfds[3].fileno] + FindFds(sfds[5..], t)
            case Logger => [sfds[4].fileno] + FindFds(sfds[5..], t)
            case OutputObjectAndMetadata => FindFds(sfds[5..], t)
    ensures t == InputObject ==> OfType(sfds, t) == [sfds[1]] + OfType(sfds[5..], t)
  {
    hide FindFds, OfType;
    var s1, s2, s3, s4 := sfds[1..], sfds[2..], sfds[3..], sfds[4..];
    assert s1[1..] == s2 && s2[1..] == s3 && s3[1..] == s4 && s4[1..] == sfds[5..];
    OneOf(sfds, t);
    OneOf(s1, t);
    OneOf(s2, t);
    OneOf(s3, t);
    OneOf(s4, t);
  }

  // ---- The Java loop over the descriptors ----

  function JavaInput(fd: FileDescriptor): Result<Input> {
    InputWith(fd.fileno, fd.storage, JavaRange(fd.storlets))
  }

  function JavaMakes(fds: seq<FileDescriptor>): (r: seq<Result<Input>>)
    ensures |r| == |fds| && forall i :: 0 <= i < |r| ==> r[i] == JavaInput(fds[i])
  {
    seq(|fds|, i requires 0 <= i < |fds| => JavaInput(fds[i]))
  }

  /** What the Java daemon sets up for a task. */
  datatype Streams = Streams(serviceOut: Option<int>, inputs: seq<Input>, outputs: seq<(int, int)>, logger: Option<int>)

  const NO_STREAMS := Streams(None, [], [], None)

  /** One turn of the loop: the index it leaves and the streams so far. It raises for an index out of bounds
      and for bounds of a range that cannot be used. */
  function Turn(sfds: seq<FileDescriptor>, i: nat, s: Streams): (r: Result<(nat, Streams)>)
    requires i < |sfds|
    ensures r.Ok? ==> i < r.value.0 <= |sfds|
  {
    var fd := sfds[i];
    match fd.fdtype
    case ServiceOut => Ok((i + 1, s.(serviceOut := Some(fd.fileno))))
    case InputObject =>
      (match JavaInput(fd)
       case Raised => Raised
       case Ok(input) => Ok((i + 1, s.(inputs := s.inputs + [input]))))
    case OutputObject =>
      if i + 1 < |sfds| then Ok((i + 2, s.(outputs := s.outputs + [(fd.fileno, sfds[i + 1].fileno)]))) else Raised
    case Logger => Ok((i + 1, s.(logger := Some(fd.fileno))))
    case OutputObjectMetadata => Ok((i + 1, s))
    case OutputObjectAndMetadata => Ok((i + 1, s))
  }

  function Turns(sfds: seq<FileDescriptor>, i: nat, s: Streams): Result<Streams>
    requires i <= |sfds|
    decreases |sfds| - i
  {
    if i == |sfds| then Ok(s)
    else
      match Turn(sfds, i, s)
      case Raised => Raised
      case Ok((next, s')) => Turns(sfds, next, s')
  }

  /** What createExecutionTask sets up for the descriptors of a datagram. */
  function JavaStreams(sfds: seq<FileDescriptor>): Result<Streams> {
    Turns(sfds, 0, NO_STREAMS)
  }

  /** The bounds of every input are texts that Java can use. */
  predicate AllSuitJava(fds: seq<FileDescriptor>) {
    forall i :: 0 <= i < |fds| ==> BoundsSuitJava(fds[i].storlets)
  }

  predicate InputsSuitJava(sfds: seq<FileDescriptor>) {
    AllSuitJava(OfType(sfds, InputObject))
  }

  /** The streams of an execute datagram whose inputs were made. */
  function StreamsOf(sfds: seq<FileDescriptor>, inputs: Result<seq<Input>>): Result<Streams>
    requires |sfds| >= 5
  {
    match inputs
    case Raised => Raised
    case Ok(ins) => Ok(Streams(Some(sfds[0].fileno), ins, [(sfds[2].fileno, sfds[3].fileno)], Some(sfds[4].fileno)))
  }

  method CreateExecutionTask(sfds: seq<FileDescriptor>) returns (r: Result<Streams>)
    ensures r == JavaStreams(sfds)
    ensures Accepted(EXECUTE, sfds) ==>
              |sfds| >= 5 &&
              r == if InputsSuitJava(sfds) then StreamsOf(sfds, PythonInputs(sfds)) else Raised
  {
    hide JavaInput, Accepted, PythonInputs, InputsSuitJava, StreamsOf;
    var serviceOut, logger: Option<int> := None, None;
    var inStreams: seq<Input>, outStreams: seq<(int, int)> := [], [];
    var i := 0;
    JavaMatchesPython(sfds);
    while i < |sfds|
      invariant 0 <= i <= |sfds|
      invariant Turns(sfds, i, Streams(serviceOut, inStreams, outStreams, logger)) == Turns(sfds, 0, NO_STREAMS)
    {
      var fd := sfds[i];
      match fd.fdtype {
        case ServiceOut => serviceOut := Some(fd.fileno);
        case InputObject =>
          var input := JavaInput(fd);
          if input.Raised? { return Raised; }
          inStreams := inStreams + [input.value];
        case OutputObject =>
          if i + 1 >= |sfds| { return Raised; }
          outStreams := outStreams + [(fd.fileno, sfds[i + 1].fileno)];
          i := i + 1;
        case Logger => logger := Some(fd.fileno);
        case OutputObjectMetadata =>
        case OutputObjectAndMetadata =>
      }
      i := i + 1;
    }
    r := Ok(Streams(serviceOut, inStreams, outStreams, logger));
  }

  /** The streams with more inputs, if those were made. */
  function Extended(s: Streams, more: Result<seq<Input>>): Result<Streams> {
    match more
    case Raised => Raised
    case Ok(ins) => Ok(s.(inputs := s.inputs + ins))
  }

  lemma {:induction false} InputTurns(sfds: seq<FileDescriptor>, i: nat, s: Streams)
    requires i <= |sfds| && forall k :: i <= k < |sfds| ==> sfds[k].fdtype == InputObject
    ensures Turns(sfds, i, s) == Extended(s, Collect(JavaMakes(sfds[i..])))
    decreases |sfds| - i
  {
    hide JavaInput, Collect;
    var made := JavaMakes(sfds[i..]);
    if i < |sfds| {
      assert made[1..] == JavaMakes(sfds[i + 1..]);
      CollectStep(made);
      var input := JavaInput(sfds[i]);
      if input.Ok? {
        InputTurns(sfds, i + 1, s.(inputs := s.inputs + [input.value]));
        ExtendedTwice(s, input.value, Collect(made[1..]));
      }
    } else {
      CollectNothing(made);
      assert s.inputs + [] == s.inputs;
    }
  }

  lemma CollectStep(rs: seq<Result<Input>>)
    requires |rs| > 0
    ensures Collect(rs) == if rs[0].Raised? || Collect(rs[1..]).Raised? then Raised
              else Ok([rs[0].value] + Collect(rs[1..]).value)
  {
  }

  lemma CollectNothing(rs: seq<Result<Input>>)
    requires |rs| == 0
    ensures Collect(rs) == Ok([])
  {
  }

  lemma ExtendedTwice(s: Streams, input: Input, more: Result<seq<Input>>)
    ensures Extended(s.(inputs := s.inputs + [input]), more) ==
            if more.Raised? then Raised else Extended(s, Ok([input] + more.value))
  {
    if more.Ok? {
      ConcatAssociates(s.inputs, [input], more.value);
    }
  }

  /** Java makes the inputs that Python makes, or raises; it raises alone exactly for bounds written with
      blanks or underscores, or ends beyond a long. */
  lemma {:induction false} JavaMakesWhatPythonMakes(fds: seq<FileDescriptor>)
    ensures Collect(JavaMakes(fds)) == if AllSuitJava(fds) then Collect(PythonMakes(fds)) else Raised
  {
    hide Collect, PythonRange, JavaRange, BoundsSuitJava;
    var java, python := JavaMakes(fds), PythonMakes(fds);
    forall i | 0 <= i < |fds| ensures java[i] == if BoundsSuitJava(fds[i].storlets) then python[i] else Raised {
      JavaRangeIsPythonRange(fds[i].storlets);
    }
    CollectsAll(java);
    if AllSuitJava(fds) {
      assert java == python;
    } else {
      var i :| 0 <= i < |fds| && !BoundsSuitJava(fds[i].storlets);
      assert java[i].Raised?;
    }
  }

  /** For every accepted execute datagram the index-skipping loop stays in bounds and builds what the
      Python accessors give: the same inputs in the same order, the output paired with its metadata
      descriptor, the logger and the service channel. It raises when Python does, and besides exactly when
      the bounds of some input are texts only Python reads. */
  lemma JavaMatchesPython(sfds: seq<FileDescriptor>)
    ensures Accepted(EXECUTE, sfds) ==>
              |sfds| >= 5 &&
              JavaStreams(sfds) == if InputsSuitJava(sfds) then StreamsOf(sfds, PythonInputs(sfds)) else Raised
  {
    if Accepted(EXECUTE, sfds) {
      LeadingTypes(sfds);
      RolesOfExecute(sfds, InputObject);
      hide *;
      var ins := [sfds[1]] + sfds[5..];
      TurnsOfExecute(sfds, ins);
      JavaMakesWhatPythonMakes(ins);
      MadeFromInputs(sfds, ins);
      NothingMade(sfds);
    }
  }

  /** An input holds the number and the metadata of its own descriptor, and the range its bounds spell. */
  ghost predicate HoldsItsOwn(input: Input, fd: FileDescriptor) {
    && input.fileno == fd.fileno && input.storage == fd.storage
    && if "start" in fd.storlets && "end" in fd.storlets
       then
         var start, end := PythonInt(fd.storlets["start"]), PythonInt(fd.storlets["end"]);
         start.Some? && end.Some? && input.range == Some((start.value, end.value))
       else input.range == None
  }

  lemma {:induction false} MadeInputsHold(fds: seq<FileDescriptor>)
    ensures Collect(PythonMakes(fds)).Ok? ==>
              var made := Collect(PythonMakes(fds)).value;
              |made| == |fds| && forall i :: 0 <= i < |fds| ==> HoldsItsOwn(made[i], fds[i])
  {
    hide Collect, PythonInt;
    CollectsAll(PythonMakes(fds));
  }

  /** What the Python daemon makes of an accepted execute datagram, when it makes it: one input for the second
      descriptor and for each one after the fifth, in this order, each holding what is its own. */
  lemma PythonInputsHold(sfds: seq<FileDescriptor>)
    requires Accepted(EXECUTE, sfds) && PythonInputs(sfds).Ok?
    ensures |sfds| >= 5
    ensures var ins, made := [sfds[1]] + sfds[5..], PythonInputs(sfds).value;
            |made| == |ins| && forall i :: 0 <= i < |ins| ==> HoldsItsOwn(made[i], ins[i])
  {
    RolesOfExecute(sfds, InputObject);
    hide *;
    var ins := [sfds[1]] + sfds[5..];
    MadeFromInputs(sfds, ins);
    MadeInputsHold(ins);
  }

  /** The same for the Java daemon, with the other roles: the first descriptor is the service channel, the
      third and the fourth the output and its metadata, the fifth the log. */
  lemma JavaStreamsHold(sfds: seq<FileDescriptor>)
    requires Accepted(EXECUTE, sfds) && JavaStreams(sfds).Ok?
    ensures |sfds| >= 5
    ensures var ins, made := [sfds[1]] + sfds[5..], JavaStreams(sfds).value;
            && |made.inputs| == |ins| && (forall i :: 0 <= i < |ins| ==> HoldsItsOwn(made.inputs[i], ins[i]))
            && made.serviceOut == Some(sfds[0].fileno) && made.logger == Some(sfds[4].fileno)
            && made.outputs == [(sfds[2].fileno, sfds[3].fileno)]
  {
    JavaMatchesPython(sfds);
    hide Accepted, JavaStreams, PythonInputs, InputsSuitJava, HoldsItsOwn;
    PythonInputsHold(sfds);
  }

  /** A range request as the gateway sends it is served as the range that was asked for. */
  lemma GatewayRangeIsServed(input: Input, fd: FileDescriptor, start: nat, end: nat)
    ensures HoldsItsOwn(input, fd) && HasBounds(fd.storlets, start, end) && start <= MAX_LONG && end <= MAX_LONG ==>
              input == Input(fd.fileno, fd.storage, Some((start as int, end as int)))
  {
    if HoldsItsOwn(input, fd) && HasBounds(fd.storlets, start, end) && start <= MAX_LONG && end <= MAX_LONG {
      GatewayBoundsAreRead(fd.storlets, start, end);
      hide PythonInt, JavaRange;
    }
  }

  /** With bounds as the gateway writes them nothing raises: both languages make the same inputs. */
  lemma GatewayDatagramsAgree(sfds: seq<FileDescriptor>)
    requires Accepted(EXECUTE, sfds)
    requires forall i :: 0 <= i < |sfds| ==> FromGateway(sfds[i].storlets)
    ensures |sfds| >= 5 && PythonInputs(sfds).Ok? && JavaStreams(sfds) == StreamsOf(sfds, PythonInputs(sfds))
  {
    LeadingTypes(sfds);
    RolesOfExecute(sfds, InputObject);
    hide *;
    var ins := [sfds[1]] + sfds[5..];
    assert forall i :: 0 <= i < |ins| ==> ins[i] == if i == 0 then sfds[1] else sfds[i + 4];
    GatewayInputsSuit(ins);
    JavaMatchesPython(sfds);
    PythonInputsAreAligned(sfds);
  }

  /** An accepted datagram whose bounds are no numbers: neither language makes its inputs. */
  lemma BoundsThatAreNoNumbers(sfds: seq<FileDescriptor>)
    requires Accepted(EXECUTE, sfds) && |sfds| >= 5
    requires "start" in sfds[1].storlets && "end" in sfds[1].storlets && sfds[1].storlets["start"] == "x"
    ensures PythonInputs(sfds) == Raised && JavaStreams(sfds) == Raised
  {
    NoNumber();
    assert PythonRange(sfds[1].storlets) == Raised;
    RolesOfExecute(sfds, InputObject);
    hide *;
    var ins := [sfds[1]] + sfds[5..];
    assert ins[0] == sfds[1];
    JavaMatchesPython(sfds);
    PythonInputsAreAligned(sfds);
    NothingMade(sfds);
  }

  lemma GatewayInputsSuit(ins: seq<FileDescriptor>)
    requires forall i :: 0 <= i < |ins| ==> FromGateway(ins[i].storlets)
    ensures AllSuitJava(ins) && forall i :: 0 <= i < |ins| ==> PythonRange(ins[i].storlets).Ok?
  {
    hide FromGateway, BoundsSuitJava, PythonRange;
    forall i | 0 <= i < |ins| ensures PythonRange(ins[i].storlets).Ok? && BoundsSuitJava(ins[i].storlets) {
      GatewayBoundsSuit(ins[i].storlets);
    }
  }

  lemma NothingMade(sfds: seq<FileDescriptor>)
    requires |sfds| >= 5
    ensures StreamsOf(sfds, Raised) == Raised
  {
  }

  lemma MadeFromInputs(sfds: seq<FileDescriptor>, ins: seq<FileDescriptor>)
    requires OfType(sfds, InputObject) == ins
    ensures PythonInputs(sfds) == Collect(PythonMakes(ins))
  {
    hide Collect, PythonZip, PythonMakes, OfType, PythonRange;
    PythonInputsAreAligned(sfds);
  }

  lemma TurnsOfExecute(sfds: seq<FileDescriptor>, ins: seq<FileDescriptor>)
    requires |sfds| >= 5 && forall i :: 0 <= i < 5 ==> sfds[i].fdtype == EXECUTE_TYPES[i]
    requires forall i :: 5 <= i < |sfds| ==> sfds[i].fdtype == InputObject
    requires ins == [sfds[1]] + sfds[5..]
    ensures JavaStreams(sfds) == StreamsOf(sfds, Collect(JavaMakes(ins)))
  {
    hide JavaInput, Collect, Turns;
    var made := JavaMakes(ins);
    assert made[1..] == JavaMakes(sfds[5..]);
    CollectStep(made);
    LeadingTurns(sfds);
  }

  lemma {:induction false} LeadingTurns(sfds: seq<FileDescriptor>)
    requires |sfds| >= 5 && forall i :: 0 <= i < 5 ==> sfds[i].fdtype == EXECUTE_TYPES[i]
    requires forall i :: 5 <= i < |sfds| ==> sfds[i].fdtype == InputObject
    ensures var first, rest := JavaInput(sfds[1]), Collect(JavaMakes(sfds[5..]));
            Turns(sfds, 0, NO_STREAMS) ==
            if first.Raised? || rest.Raised? then Raised else StreamsOf(sfds, Ok([first.value] + rest.value))
  {
    hide Turns, JavaInput, Collect;
    var s1 := NO_STREAMS.(serviceOut := Some(sfds[0].fileno));
    TurnsGoOn(sfds, 0, NO_STREAMS, 1, s1);
    var first := JavaInput(sfds[1]);
    if first.Raised? {
      TurnsEnd(sfds, 1, s1);
    } else {
      var s2 := s1.(inputs := [first.value]);
      var s3 := s2.(outputs := [(sfds[2].fileno, sfds[3].fileno)]);
      var s4 := s3.(logger := Some(sfds[4].fileno));
      assert s1.inputs + [first.value] == s2.inputs && s2.outputs + s3.outputs == s3.outputs;
      TurnsGoOn(sfds, 1, s1, 2, s2);
      TurnsGoOn(sfds, 2, s2, 4, s3);
      TurnsGoOn(sfds, 4, s3, 5, s4);
      InputTurns(sfds, 5, s4);
    }
  }

  lemma TurnsGoOn(sfds: seq<FileDescriptor>, i: nat, s: Streams, next: nat, s': Streams)
    requires i < |sfds| && next <= |sfds| && Turn(sfds, i, s) == Ok((next, s'))
    ensures Turns(sfds, i, s) == Turns(sfds, next, s')
  {
    hide Turn;
  }

  lemma TurnsEnd(sfds: seq<FileDescriptor>, i: nat, s: Streams)
    requires i < |sfds| && Turn(sfds, i, s).Raised?
    ensures Turns(sfds, i, s) == Raised
  {
    hide Turn;
  }
}
