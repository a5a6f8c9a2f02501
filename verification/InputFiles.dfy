/** The files a storlet reads: the Python plain and ranged input files with their push-back buffer, and
    Java's ranged file stream. All of them deliver one window of the underlying file, in order. */
module InputFiles {
  import opened Basics
  import opened Records

  const NEWLINE: Byte := 10

  // ---- What the calls deliver, in terms of the bytes still to come ----

  function ReadLength(rest: seq<Byte>, size: int): nat {
    if size < 0 || size > |rest| then |rest| else size
  }

  /** Length of the first line, its newline included. */
  function LineLength(rest: seq<Byte>): (n: nat)
    ensures n <= |rest| && (|rest| > 0 ==> n > 0)
  {
    if |rest| == 0 then 0 else if rest[0] == NEWLINE then 1 else 1 + LineLength(rest[1..])
  }

  function ReadlineLength(rest: seq<Byte>, size: int): (n: nat)
    ensures n <= |rest|
  {
    var n := LineLength(rest);
    if size < 0 || n <= size then n else size
  }

  function Lines(rest: seq<Byte>): seq<seq<Byte>>
    decreases |rest|
  {
    if |rest| == 0 then [] else [rest[..LineLength(rest)]] + Lines(rest[LineLength(rest)..])
  }

  /** What `readlines(hint)` returns for a non-negative hint. The hint grows by every line read, so it
      only limits the length of a line and never ends the loop. */
  function HintedLines(rest: seq<Byte>, hint: nat): seq<seq<Byte>>
    decreases |rest|
  {
    var n := ReadlineLength(rest, hint);
    if n == 0 then [] else [rest[..n]] + HintedLines(rest[n..], hint + n)
  }

  /** What `readlines` returns. */
  function RestLines(rest: seq<Byte>, hint: int): seq<seq<Byte>> {
    if hint < 0 then Lines(rest) else HintedLines(rest, hint)
  }

  lemma RestLinesStep(rest: seq<Byte>, hint: int)
    ensures var n := ReadlineLength(rest, hint);
            if n == 0 then RestLines(rest, hint) == [] && (hint != 0 ==> |rest| == 0)
            else RestLines(rest, hint) == [rest[..n]] + RestLines(rest[n..], if hint < 0 then hint else hint + n)
  {
    hide LineLength;
  }

  function Concat(parts: seq<seq<Byte>>): seq<Byte> {
    if |parts| == 0 then [] else parts[0] + Concat(parts[1..])
  }

  /** `readline(size)` is the shortest prefix that ends in a newline, at `size`, or at the end of the data. */
  lemma {:induction false} ReadlineIsShortest(rest: seq<Byte>, size: int)
    ensures var n := ReadlineLength(rest, size);
            && (n == |rest| || n == size || (n > 0 && rest[n - 1] == ('\n' as int)))
            && (size >= 0 ==> n <= size)
            && (forall k :: 0 <= k < n - 1 ==> rest[k] != ('\n' as int))
  {
    LineLengthIsFirst(rest);
  }

  lemma {:induction false} LineLengthIsFirst(rest: seq<Byte>)
    ensures var n := LineLength(rest);
            && (n == |rest| || (n > 0 && rest[n - 1] == NEWLINE))
            && (forall k :: 0 <= k < n - 1 ==> rest[k] != NEWLINE)
  {
    if |rest| > 0 && rest[0] != NEWLINE {
      LineLengthIsFirst(rest[1..]);
      assert forall k :: 1 <= k < |rest| ==> rest[k] == rest[1..][k - 1];
    }
  }

  /** The lines are a split of the data: put together they are the data. */
  lemma {:induction false} LinesAreTheData(rest: seq<Byte>)
    ensures Concat(Lines(rest)) == rest
    decreases |rest|
  {
    if |rest| > 0 {
      var n := LineLength(rest);
      LinesAreTheData(rest[n..]);
      ConcatCons(rest[..n], Lines(rest[n..]));
    }
  }

  /** Every line but the last ends in a newline, and no line holds one before its end or is empty. */
  lemma {:induction false} LinesAreLines(rest: seq<Byte>, i: nat)
    requires i < |Lines(rest)|
    ensures var line := Lines(rest)[i];
            && |line| > 0 && (forall k :: 0 <= k < |line| - 1 ==> line[k] != NEWLINE)
            && (i < |Lines(rest)| - 1 ==> line[|line| - 1] == NEWLINE)
    decreases |rest|
  {
    LineLengthIsFirst(rest);
    var n := LineLength(rest);
    if i > 0 {
      LinesAreLines(rest[n..], i - 1);
    }
  }

  lemma {:induction false} HintedLinesAreTheData(rest: seq<Byte>, hint: nat)
    ensures Concat(HintedLines(rest, hint)) == if hint == 0 then [] else rest
    decreases |rest|
  {
    var n := ReadlineLength(rest, hint);
    HintedStep(rest, hint, n);
    ConcatNothing();
    if n > 0 {
      HintedLinesAreTheData(rest[n..], hint + n);
      hide *;
      JoinFirst(rest, n, HintedLines(rest[n..], hint + n), HintedLines(rest, hint));
    }
  }

  lemma JoinFirst(rest: seq<Byte>, n: nat, more: seq<seq<Byte>>, lines: seq<seq<Byte>>)
    requires n <= |rest| && lines == [rest[..n]] + more && Concat(more) == rest[n..]
    ensures Concat(lines) == rest
  {
    hide Concat;
    ConcatCons(rest[..n], more);
  }

  lemma ConcatNothing()
    ensures Concat([]) == []
  {
  }

  lemma HintedStep(rest: seq<Byte>, hint: nat, n: nat)
    requires n == ReadlineLength(rest, hint)
    ensures n == 0 <==> |rest| == 0 || hint == 0
    ensures HintedLines(rest, hint) == if n == 0 then [] else [rest[..n]] + HintedLines(rest[n..], hint + n)
  {
    hide LineLength;
  }

  lemma ConcatCons(part: seq<Byte>, parts: seq<seq<Byte>>)
    ensures Concat([part] + parts) == part + Concat(parts)
  {
    assert ([part] + parts)[1..] == parts;
  }

  /** A newline within a prefix decides the line. */
  lemma {:induction false} LineWithin(data: seq<Byte>, more: seq<Byte>)
    ensures NEWLINE in data ==> LineLength(data + more) == LineLength(data)
    ensures NEWLINE !in data ==> LineLength(data + more) == |data| + LineLength(more)
    decreases |data|
  {
    if |data| == 0 {
      assert data + more == more;
    } else {
      assert (data + more)[1..] == data[1..] + more;
      LineWithin(data[1..], more);
    }
  }

  /** Advancing in a window. */
  lemma WindowAdvance(f: seq<Byte>, pos: nat, limit: nat, k: nat)
    requires k <= |Window(f, pos, limit)|
    ensures Window(f, pos, pos + k) == Window(f, pos, limit)[..k]
    ensures Window(f, pos + k, limit) == Window(f, pos, limit)[k..]
  {
    hide Window;
    var w, taken, left := Window(f, pos, limit), Window(f, pos, pos + k), Window(f, pos + k, limit);
    assert |taken| == k && |left| == |w| - k;
    forall i | 0 <= i < k ensures taken[i] == w[..k][i] {
      WindowAt(f, pos, pos + k, i);
      WindowAt(f, pos, limit, i);
    }
    forall i | 0 <= i < |w| - k ensures left[i] == w[k..][i] {
      WindowAt(f, pos + k, limit, i);
      WindowAt(f, pos, limit, k + i);
    }
  }

  /** Only what lies within the file matters. */
  lemma WindowClipped(f: seq<Byte>, pos: nat, stop: nat, stop': nat)
    requires stop == stop' || (stop >= |f| && stop' >= |f|) || (pos >= |f|)
    ensures Window(f, pos, stop) == Window(f, pos, stop')
  {
  }

  // ---- StorletInputFile and StorletRangeInputFile ----

  class StorletInputFile {
    const content: seq<Byte>    // of the open file
    const ranged: bool
    const start: nat
    const end: nat              // exclusive, for a ranged file
    var position: nat           // of the open file
    var point: nat              // the ranged file's own idea of it
    var buf: seq<Byte>          // pushed back bytes

    ghost predicate Valid()
      reads this
    {
      ranged ==> point == position && start <= point <= end
    }

    function Limit(): nat {
      if ranged then end else |content|
    }

    /** The bytes still to come. */
    ghost function Remaining(): seq<Byte>
      reads this
    {
      buf + Window(content, position, Limit())
    }

    constructor Plain(content: seq<Byte>)
      ensures Valid() && buf == [] && !ranged && this.content == content && position == 0
      ensures Remaining() == content
    {
      this.content, ranged, start, end := content, false, 0, 0;
      position, point, buf := 0, 0, [];
      new;
      assert Window(content, 0, |content|) == content;
    }

    constructor Ranged(content: seq<Byte>, start: nat, end: nat)
      requires start <= end
      ensures Valid() && buf == [] && ranged
      ensures this.content == content && this.start == start && this.end == end && position == start
      ensures Remaining() == Window(content, start, end)
    {
      this.content, ranged := content, true;
      this.start, this.end := start, end;
      position, point, buf := start, start, [];
      new;
      assert [] + Window(content, start, end) == Window(content, start, end);
    }

    /** `_read` of either class. */
    method ReadFile(size: int) returns (data: seq<Byte>)
      requires Valid()
      modifies this`position, this`point
      ensures Valid() && buf == old(buf)
      ensures var rest := old(Window(content, position, Limit()));
              var k := ReadLength(rest, size);
              data == rest[..k] && Window(content, position, Limit()) == rest[k..]
    {
      hide Window;
      ghost var rest := Window(content, position, Limit());
      var n := if !ranged then size
               else if size >= 0 then (if size <= end - point then size else end - point)
               else end - point;
      var stop := if n < 0 then (if position <= |content| then |content| else position) else position + n;
      data := Window(content, position, stop);
      ghost var k := ReadLength(rest, size);
      WindowClipped(content, position, stop, position + k);
      WindowAdvance(content, position, Limit(), k);
      position := position + |data|;
      point := point + |data|;
    }

    method Read(size: int) returns (data: seq<Byte>)
      requires Valid()
      modifies this
      ensures Valid()
      ensures var k := ReadLength(old(Remaining()), size);
              data == old(Remaining())[..k] && Remaining() == old(Remaining())[k..]
      ensures data + Remaining() == old(Remaining())
      ensures Remaining() == [] || (size >= 0 && |data| == size)
      ensures size >= 0 ==> |data| <= size
    {
      hide Window;
      ghost var file := Window(content, position, Limit());
      BufferFirst(buf, file, size);
      ReadExactly(buf + file, size);
      if size >= 0 {
        if |buf| >= size {
          data := buf[..size];
          buf := buf[size..];
        } else {
          var chunk := ReadFile(size - |buf|);
          data := buf + chunk;
          buf := [];
        }
      } else {
        var chunk := ReadFile(-1);
        data := buf + chunk;
        buf := [];
      }
      assert [] + Window(content, position, Limit()) == Window(content, position, Limit());
    }

    /** The loop of `readline`: chunks until there is a newline, enough bytes, or nothing more. */
    method ReadChunks(size: int) returns (data: seq<Byte>)
      requires Valid()
      modifies this
      ensures Valid() && data + Remaining() == old(Remaining())
      ensures size >= 0 ==> |data| <= size
      ensures NEWLINE in data || (size >= 0 && |data| == size) || Remaining() == []
    {
      data := [];
      ghost var rest := Remaining();
      while NEWLINE !in data && (size < 0 || |data| < size)
        invariant Valid() && data + Remaining() == rest
        invariant size >= 0 ==> |data| <= size
        decreases |Remaining()|
      {
        ghost var before := Remaining();
        var chunk := Read(if size < 0 then 1024 else size - |data|);
        if |chunk| == 0 { break; }
        NextChunk(rest, before, data, chunk, Remaining());
        data := data + chunk;
      }
    }

    method Readline(size: int) returns (data: seq<Byte>)
      requires Valid()
      modifies this
      ensures Valid()
      ensures var k := ReadlineLength(old(Remaining()), size);
              data == old(Remaining())[..k] && Remaining() == old(Remaining())[k..]
    {
      hide Window, LineLength;
      data := ReadChunks(size);
      LineWithin(data, Remaining());
      if NEWLINE in data {
        var n := LineLength(data);
        var line, after := data[..n], data[n..];
        PushBack(data, n, buf, Window(content, position, Limit()));
        data := line;
        buf := after + buf;
      }
    }

    method Readlines(sizehint: int) returns (lines: seq<seq<Byte>>)
      requires Valid()
      modifies this
      ensures Valid()
      ensures lines == RestLines(old(Remaining()), sizehint)
      ensures Remaining() == if sizehint == 0 then old(Remaining()) else []
    {
      hide RestLines;
      lines := [];
      var hint := sizehint;
      ghost var rest := Remaining();
      while true
        invariant Valid() && (hint == 0 <==> sizehint == 0)
        invariant lines + RestLines(Remaining(), hint) == RestLines(rest, sizehint)
        invariant sizehint == 0 ==> Remaining() == rest
        decreases |Remaining()|
      {
        ghost var before := Remaining();
        var line := Readline(hint);
        RestLinesStep(before, hint);
        if |line| == 0 { break; }
        ConcatAssociates(lines, [line], RestLines(Remaining(), if hint < 0 then hint else hint + |line|));
        lines := lines + [line];
        if hint >= 0 {
          hint := hint + |line|;
          if hint <= 0 { break; }
        }
      }
    }
  }

  lemma ReadExactly(rest: seq<Byte>, size: int)
    ensures var k := ReadLength(rest, size);
            && k <= |rest| && rest[..k] + rest[k..] == rest
            && (rest[k..] == [] || (size >= 0 && k == size)) && (size >= 0 ==> k <= size)
  {
  }

  /** A read takes from the pushed back bytes, and only when they do not suffice from the file. */
  lemma BufferFirst(buf: seq<Byte>, file: seq<Byte>, size: int)
    ensures var rest := buf + file;
            var k := ReadLength(rest, size);
            if 0 <= size <= |buf| then k == size && rest[..k] == buf[..k] && rest[k..] == buf[k..] + file
            else var j := ReadLength(file, if size < 0 then size else size - |buf|);
                 rest[..k] == buf + file[..j] && rest[k..] == file[j..]
  {
  }

  lemma NextChunk(rest: seq<Byte>, before: seq<Byte>, data: seq<Byte>, chunk: seq<Byte>, after: seq<Byte>)
    requires rest == data + before && |chunk| <= |before| && chunk == before[..|chunk|] && after == before[|chunk|..]
    ensures (data + chunk) + after == rest
  {
  }

  /** Bytes after the line go in front of the bytes already pushed back. */
  lemma PushBack(data: seq<Byte>, n: nat, buf: seq<Byte>, tail: seq<Byte>)
    requires n <= |data|
    ensures var rest := data + (buf + tail);
            rest[..n] == data[..n] && rest[n..] == (data[n..] + buf) + tail
  {
  }

  // ---- Any interleaving of the calls ----

  datatype Call = ReadCall(size: int) | ReadlineCall(size: int) | ReadlinesCall(hint: int)

  function Taken(rest: seq<Byte>, call: Call): (n: nat)
    ensures n <= |rest|
  {
    match call
    case ReadCall(size) => ReadLength(rest, size)
    case ReadlineCall(size) => ReadlineLength(rest, size)
    case ReadlinesCall(hint) => if hint == 0 then 0 else |rest|
  }

  /** How many bytes a run of calls takes in all. */
  function TakenByAll(rest: seq<Byte>, calls: seq<Call>): (n: nat)
    ensures n <= |rest|
    decreases |calls|
  {
    if |calls| == 0 then 0
    else
      var n := Taken(rest, calls[0]);
      n + TakenByAll(rest[n..], calls[1..])
  }

  /** Whatever the calls and their order, the bytes they return, put together, are the bytes that were
      still to come, from the first one on. */
  method Run(file: StorletInputFile, calls: seq<Call>) returns (data: seq<Byte>)
    requires file.Valid()
    modifies file
    ensures file.Valid()
    ensures var n := TakenByAll(old(file.Remaining()), calls);
            data == old(file.Remaining())[..n] && file.Remaining() == old(file.Remaining())[n..]
    decreases |calls|
  {
    hide *;
    ghost var rest := file.Remaining();
    if |calls| == 0 {
      TakenNothing(rest, calls);
      data := [];
    } else {
      var chunk := RunOne(file, calls[0]);
      ghost var later := file.Remaining();
      var more := Run(file, calls[1..]);
      TakenStep(rest, later, calls, Taken(rest, calls[0]), TakenByAll(later, calls[1..]));
      data := chunk + more;
    }
  }

  lemma TakenNothing(rest: seq<Byte>, calls: seq<Call>)
    requires |calls| == 0
    ensures TakenByAll(rest, calls) == 0 && rest[..0] == [] && rest[0..] == rest
  {
  }

  lemma TakenStep(rest: seq<Byte>, later: seq<Byte>, calls: seq<Call>, n: nat, m: nat)
    requires |calls| > 0 && n == Taken(rest, calls[0]) && later == rest[n..] && m == TakenByAll(later, calls[1..])
    ensures TakenByAll(rest, calls) == n + m && n + m <= |rest|
    ensures rest[..n] + later[..m] == rest[..n + m] && later[m..] == rest[n + m..]
  {
    hide Taken;
    AdvancePrefix(rest, n, m);
  }

  lemma AdvancePrefix(rest: seq<Byte>, m: nat, n: nat)
    requires m + n <= |rest|
    ensures rest[..m] + rest[m..][..n] == rest[..m + n] && rest[m..][n..] == rest[m + n..]
  {
  }

  method RunOne(file: StorletInputFile, call: Call) returns (chunk: seq<Byte>)
    requires file.Valid()
    modifies file
    ensures file.Valid()
    ensures var n := Taken(old(file.Remaining()), call);
            chunk == old(file.Remaining())[..n] && file.Remaining() == old(file.Remaining())[n..]
  {
    match call {
      case ReadCall(size) => chunk := file.Read(size);
      case ReadlineCall(size) => chunk := file.Readline(size);
      case ReadlinesCall(hint) =>
        ghost var rest := file.Remaining();
        var lines := file.Readlines(hint);
        chunk := Concat(lines);
        RestLinesAreTheData(rest, hint);
    }
  }

  lemma RestLinesAreTheData(rest: seq<Byte>, hint: int)
    ensures Concat(RestLines(rest, hint)) == if hint == 0 then [] else rest
  {
    if hint < 0 {
      LinesAreTheData(rest);
    } else {
      HintedLinesAreTheData(rest, hint);
    }
  }

  // ---- RangeFileInputStream ----

  /** Java's narrowing cast from long to int. */
  function ToInt(x: int): (r: int)
    ensures MIN_INT <= r <= MAX_INT
    ensures MIN_INT <= x <= MAX_INT ==> r == x
    ensures (x - r) % 0x1_0000_0000 == 0
  {
    (x - MIN_INT) % 0x1_0000_0000 + MIN_INT
  }

  class RangeFileInputStream {
    const content: seq<Byte>
    const start: nat
    const end: nat
    var position: int
    var available: int

    /** When the length of the range fits an int, the stream never stands or reaches past its end. */
    ghost predicate Valid()
      reads this
    {
      position >= 0 && (end - start <= MAX_INT ==> available >= 0 && position + available <= end)
    }

    ghost function Remaining(): seq<Byte>
      requires position >= 0
      reads this
    {
      if available <= 0 then [] else Window(content, position, position + available)
    }

    constructor (content: seq<Byte>, start: nat, end: nat)
      requires start <= end
      ensures Valid() && this.content == content && this.start == start && this.end == end
      ensures position == start && Remaining() == Window(content, start, JavaEnd(start, end))
    {
      this.content, this.start, this.end := content, start, end;
      available := ToInt(end - start);
      position := start;
    }

    method Read() returns (r: int)
      requires Valid()
      modifies this
      ensures Valid() && position >= old(position)
      ensures var rest := old(Remaining());
              if |rest| == 0 then r == -1 && Remaining() == []
              else r == rest[0] && Remaining() == rest[1..]
    {
      hide Window;
      if available > 0 {
        ghost var rest := Remaining();
        available := available - 1;
        if position < |content| {
          WindowAt(content, position, position + available + 1, 0);
          WindowAdvance(content, position, position + available + 1, 1);
          r := content[position];
          position := position + 1;
        } else {
          WindowClipped(content, position, position + available, position);
          r := -1;
        }
      } else {
        r := -1;
      }
    }

    /** The three-argument read. The system call may return fewer bytes than asked for. */
    method ReadInto(len: nat) returns (n: int, bytes: seq<Byte>)
      requires Valid()
      modifies this
      ensures Valid() && position >= old(position)
      ensures n == 0 <==> len == 0
      ensures n > 0 ==>
                n <= |old(Remaining())| && n <= len && bytes == old(Remaining())[..n] &&
                  Remaining() == old(Remaining())[n..]
      ensures n <= 0 ==> bytes == [] && Remaining() == old(Remaining())
      ensures n < 0 ==> n == -1 && old(Remaining()) == []
    {
      hide Window;
      n, bytes := 0, [];
      if len == 0 { return; }
      if available <= 0 { return -1, []; }
      var lenToRead := if len > available then available else len;
      var ready := |Window(content, position, position + lenToRead)|;
      if ready == 0 { return -1, []; }
      n :| 1 <= n <= ready;
      WindowAdvance(content, position, position + available, n);
      bytes := Window(content, position, position + n);
      position := position + n;
      available := available - n;
    }

    /** Skipping forward leaves bytes out; it may move past the end of the file, never past the end of the
        range. A negative argument steps back, and the counter is not told: the bytes stepped over come
        again, and as many at the end of the range no longer do. Stepping back in front of the file raises. */
    method Skip(n: int) returns (r: Result<int>)
      requires Valid()
      modifies this
      ensures Valid()
      ensures var toskip := if n > old(available) then old(available) else n;
              && (r.Raised? <==> old(position) + toskip < 0)
              && (r.Ok? ==> r.value == toskip && position == old(position) + toskip)
              && (r.Raised? ==> position == old(position))
              && (if r.Ok? && toskip > 0 then position + available == old(position + available)
                  else available == old(available))
      ensures n >= 0 ==> (var rest := old(Remaining()); Remaining() == rest[if n <= |rest| then n else |rest|..])
      ensures n >= 0 && end - start <= MAX_INT ==> r.Ok? && position >= old(position)
    {
      hide Window;
      var toskip := if n > available then available else n;
      if position + toskip < 0 { return Raised; }
      if available > 0 && toskip >= 0 {
        SkipWindow(content, position, available, toskip);
      }
      position := position + toskip;
      if toskip > 0 {
        available := available - toskip;
      }
      r := Ok(toskip);
    }
  }

  lemma SkipWindow(f: seq<Byte>, pos: nat, available: nat, k: nat)
    requires 0 <= k <= available
    ensures var rest := Window(f, pos, pos + available);
            Window(f, pos + k, pos + available) == rest[if k <= |rest| then k else |rest|..]
  {
    hide Window;
    var rest := Window(f, pos, pos + available);
    if k <= |rest| {
      WindowAdvance(f, pos, pos + available, k);
    }
  }

  /** Where a Java stream over `start..end` stops, the cast to int included. */
  function JavaEnd(start: nat, end: nat): nat
    requires start <= end
  {
    var length := ToInt(end - start);
    if length <= 0 then start else start + length
  }

  // ---- Any interleaving of the calls on a Java stream ----

  datatype JavaCall = ReadByte | ReadInto(len: nat) | Skip(count: nat)

  /** How many of the bytes still to come one call may use up. The three-argument read may return fewer
      bytes than asked for, but not none unless nothing was asked for or nothing is left. */
  predicate MayUse(rest: seq<Byte>, call: JavaCall, n: nat) {
    n <= |rest| &&
    match call
    case ReadByte => n == if |rest| == 0 then 0 else 1
    case ReadInto(len) => n <= len && (len > 0 && |rest| > 0 ==> n > 0)
    case Skip(count) => n == if count <= |rest| then count else |rest|
  }

  predicate MayUseAll(rest: seq<Byte>, calls: seq<JavaCall>, used: seq<nat>)
    decreases |calls|
  {
    |used| == |calls| &&
    (|calls| > 0 ==> MayUse(rest, calls[0], used[0]) && MayUseAll(rest[used[0]..], calls[1..], used[1..]))
  }

  /** The bytes still to come, with the stretches left out that were skipped. */
  function Kept(rest: seq<Byte>, calls: seq<JavaCall>, used: seq<nat>): seq<Byte>
    requires MayUseAll(rest, calls, used)
    decreases |calls|
  {
    if |calls| == 0 then []
    else (if calls[0].Skip? then [] else rest[..used[0]]) + Kept(rest[used[0]..], calls[1..], used[1..])
  }

  function Total(used: seq<nat>): nat {
    if |used| == 0 then 0 else used[0] + Total(used[1..])
  }

  /** One call: its bytes, the number of bytes used up and the position it leaves. */
  method JavaStep(stream: RangeFileInputStream, call: JavaCall) returns (data: seq<Byte>, ghost n: nat, position: int)
    requires stream.Valid()
    modifies stream
    ensures stream.Valid() && MayUse(old(stream.Remaining()), call, n)
    ensures data == if call.Skip? then [] else old(stream.Remaining())[..n]
    ensures stream.Remaining() == old(stream.Remaining())[n..]
    ensures stream.end - stream.start <= MAX_INT ==> old(stream.position) <= position == stream.position <= stream.end
  {
    ghost var rest := stream.Remaining();
    data := [];
    match call {
      case ReadByte =>
        var b := stream.Read();
        n := if b < 0 then 0 else 1;
        if b >= 0 { data := [b]; }
      case ReadInto(len) =>
        var k;
        k, data := stream.ReadInto(len);
        n := if k < 0 then 0 else k;
      case Skip(count) =>
        ghost var r := stream.Skip(count);
        n := |rest| - |stream.Remaining()|;
    }
    position := stream.position;
  }

  /** Whatever reads and skips are made, in whatever order: the bytes returned are the bytes that were
      still to come with exactly the skipped stretches left out, and no call moves past the end of the range. */
  method RunJava(stream: RangeFileInputStream, calls: seq<JavaCall>)
    returns (data: seq<Byte>, ghost used: seq<nat>, positions: seq<int>)
    requires stream.Valid()
    modifies stream
    ensures stream.Valid() && MayUseAll(old(stream.Remaining()), calls, used)
    ensures data == Kept(old(stream.Remaining()), calls, used)
    ensures Total(used) <= |old(stream.Remaining())| && stream.Remaining() == old(stream.Remaining())[Total(used)..]
    ensures |positions| == |calls|
    ensures stream.end - stream.start <= MAX_INT ==> AllWithin(positions, old(stream.position), stream.end)
    decreases |calls|
  {
    data, used, positions := [], [], [];
    UseNothing(stream.Remaining(), calls);
    hide *;
    if |calls| > 0 {
      ghost var rest := stream.Remaining();
      ghost var from := stream.position;
      var first, n, position := JavaStep(stream, calls[0]);
      ghost var later, at := stream.Remaining(), stream.position;
      var more, morePositions;
      ghost var moreUsed;
      more, moreUsed, morePositions := RunJava(stream, calls[1..]);
      NextUse(rest, later, calls, n, moreUsed);
      OneMoreWithin(morePositions, from, at, stream.end);
      data, used, positions := first + more, [n] + moreUsed, [position] + morePositions;
    } else {
      NoneWithin(stream.position, stream.end);
    }
  }

  /** Every position lies between two bounds. */
  predicate AllWithin(positions: seq<int>, lo: int, hi: int) {
    forall i :: 0 <= i < |positions| ==> lo <= positions[i] <= hi
  }

  lemma NoneWithin(lo: int, hi: int)
    ensures AllWithin([], lo, hi)
  {
  }

  lemma OneMoreWithin(positions: seq<int>, lo: int, at: int, hi: int)
    ensures lo <= at <= hi && AllWithin(positions, at, hi) ==> AllWithin([at] + positions, lo, hi)
  {
  }

  lemma UseNothing(rest: seq<Byte>, calls: seq<JavaCall>)
    ensures |calls| == 0 ==> MayUseAll(rest, calls, []) && Kept(rest, calls, []) == []
    ensures Total([]) == 0 && rest[0..] == rest
  {
  }

  lemma NextUse(rest: seq<Byte>, later: seq<Byte>, calls: seq<JavaCall>, n: nat, used: seq<nat>)
    requires |calls| > 0 && MayUse(rest, calls[0], n) && later == rest[n..] && MayUseAll(later, calls[1..], used)
    requires Total(used) <= |later|
    ensures MayUseAll(rest, calls, [n] + used) && Total([n] + used) == n + Total(used)
    ensures Kept(rest, calls, [n] + used) == (if calls[0].Skip? then [] else rest[..n]) + Kept(later, calls[1..], used)
    ensures later[Total(used)..] == rest[n + Total(used)..]
  {
    hide MayUseAll, Kept, Total;
    var all := [n] + used;
    assert all[1..] == used && all[0] == n;
    UseMore(rest, later, calls, calls[1..], n, used, all);
    AdvancePrefix(rest, n, Total(used));
  }

  lemma UseMore(rest: seq<Byte>, later: seq<Byte>, calls: seq<JavaCall>, more: seq<JavaCall>, n: nat, used: seq<nat>,
                all: seq<nat>)
    requires |calls| > 0 && more == calls[1..] && |all| > 0 && all[0] == n && used == all[1..]
    requires MayUse(rest, calls[0], n) && later == rest[n..] && MayUseAll(later, more, used)
    ensures MayUseAll(rest, calls, all) && Total(all) == n + Total(used)
    ensures Kept(rest, calls, all) == (if calls[0].Skip? then [] else rest[..n]) + Kept(later, more, used)
  {
    hide MayUse;
    assert |used| == |more|;
  }

  /** Reads alone return a prefix of the bytes still to come. */
  lemma {:induction false} ReadsKeepAll(rest: seq<Byte>, calls: seq<JavaCall>, used: seq<nat>)
    requires MayUseAll(rest, calls, used) && forall i :: 0 <= i < |calls| ==> !calls[i].Skip?
    ensures Total(used) <= |rest| && Kept(rest, calls, used) == rest[..Total(used)]
    decreases |calls|
  {
    if |calls| > 0 {
      var n := used[0];
      ReadsKeepAll(rest[n..], calls[1..], used[1..]);
      AdvancePrefix(rest, n, Total(used[1..]));
      assert rest[..n] + rest[n..][..Total(used[1..])] == rest[..n + Total(used[1..])];
    }
  }

  /** Reading a stream to its end, with single-byte reads and requests of any size in any order, gives all
      that remains. */
  method Drain(stream: RangeFileInputStream) returns (data: seq<Byte>)
    requires stream.Valid()
    modifies stream
    ensures data == old(stream.Remaining())
  {
    hide Window, MayUse;
    data := [];
    ghost var rest := stream.Remaining();
    while true
      invariant stream.Valid() && data + stream.Remaining() == rest
      decreases |stream.Remaining()|
    {
      ghost var before := stream.Remaining();
      var single: bool, more: nat := *, *;
      var call := if single then ReadByte else ReadInto(more + 1);
      var bytes, n, _ := JavaStep(stream, call);
      ReadUsesSome(before, call, n);
      if |bytes| == 0 { break; }
      NextChunk(rest, before, data, bytes, stream.Remaining());
      data := data + bytes;
    }
  }

  lemma ReadUsesSome(rest: seq<Byte>, call: JavaCall, n: nat)
    requires MayUse(rest, call, n) && !call.Skip? && (call.ReadInto? ==> call.len > 0)
    ensures n <= |rest| && (n == 0 <==> |rest| == 0)
  {
  }

  /** One range read in both languages, in Java with any reads, in Python with any calls. What Java has
      returned and what Python has returned are prefixes of the same bytes of the file, so that equally many
      bytes are the same bytes, as long as the length of the range fits an int. */
  method ReadInBoth(content: seq<Byte>, start: nat, end: nat, javaCalls: seq<JavaCall>, pythonCalls: seq<Call>)
    returns (java: seq<Byte>, python: seq<Byte>)
    requires start <= end <= start + MAX_INT && forall i :: 0 <= i < |javaCalls| ==> !javaCalls[i].Skip?
    ensures java <= Window(content, start, end) && python <= Window(content, start, end)
    ensures |java| == |python| ==> java == python
  {
    hide Window, Kept, MayUseAll;
    JavaReadsWhatPythonReads(content, start, end);
    var stream := new RangeFileInputStream(content, start, end);
    ghost var used, positions;
    java, used, positions := RunJava(stream, javaCalls);
    ReadsKeepAll(Window(content, start, end), javaCalls, used);
    var file := new StorletInputFile.Ranged(content, start, end);
    python := Run(file, pythonCalls);
  }

  /** The whole of a range read in both languages. The bytes are the same exactly when the bytes that exist
      fit the int that Java counts with; ranges of up to 2147483647 bytes always do. */
  method ReadAllInBoth(content: seq<Byte>, start: nat, end: nat) returns (java: seq<Byte>, python: seq<Byte>)
    requires start <= end
    ensures java == Window(content, start, JavaEnd(start, end)) && python == Window(content, start, end)
    ensures java == python <==> |Window(content, start, end)| <= JavaEnd(start, end) - start
    ensures end - start <= MAX_INT ==> java == python
  {
    hide Window;
    JavaReadsWhatPythonReads(content, start, end);
    var stream := new RangeFileInputStream(content, start, end);
    java := Drain(stream);
    var file := new StorletInputFile.Ranged(content, start, end);
    python := file.Read(-1);
  }

  /** One byte more than an int counts: Java reads nothing of the range, Python all the file has of it. */
  method ReadBeyondAnInt(content: seq<Byte>, start: nat) returns (java: seq<Byte>, python: seq<Byte>)
    requires start < |content|
    ensures java == [] && |python| > 0
  {
    BeyondAnInt(start);
    java, python := ReadAllInBoth(content, start, start + MAX_INT + 1);
  }

  lemma BeyondAnInt(start: nat)
    ensures JavaEnd(start, start + MAX_INT + 1) == start
  {
    assert ToInt(MAX_INT + 1) == MIN_INT;
  }

  /** The windows the two constructors set up are the same exactly when the bytes that exist fit the int. */
  lemma JavaReadsWhatPythonReads(f: seq<Byte>, start: nat, end: nat)
    requires start <= end
    ensures Window(f, start, JavaEnd(start, end)) == Window(f, start, end)
       <==> |Window(f, start, end)| <= JavaEnd(start, end) - start
    ensures end - start <= MAX_INT ==> JavaEnd(start, end) == end
  {
    hide Window;
    var k := JavaEnd(start, end) - start;
    if k >= |Window(f, start, end)| {
      WindowClipped(f, start, start + |Window(f, start, end)|, start + k);
      WindowAdvance(f, start, end, |Window(f, start, end)|);
    }
  }

  // ---- From a byte range of an HTTP request to a window ----

  /** The bounds the object handler hands on for `first-last`, of which either may be missing; the missing
      last position of `first-` makes it raise, since nothing can be added to it. */
  function RangeOptions(first: Option<nat>, last: Option<nat>): Result<(Option<nat>, nat)> {
    match last
    case None => Raised
    case Some(l) => Ok((first, l + 1))
  }

  /** The bytes a storlet is then given: without both bounds, those of the whole file. */
  function BytesGiven(f: seq<Byte>, first: Option<nat>, last: Option<nat>): Result<seq<Byte>> {
    match RangeOptions(first, last)
    case Raised => Raised
    case Ok((None, _)) => Ok(f)
    case Ok((Some(start), end)) => Ok(Window(f, start, end))
  }

  /** Position `i` of a file of `n` bytes is named by the byte range (section 2.1 of RFC 7233): from `first`
      to `last`, both included, from `first` on, or one of the `last` last ones. */
  predicate Named(n: nat, first: Option<nat>, last: Option<nat>, i: nat) {
    i < n &&
    match (first, last)
    case (Some(a), Some(b)) => a <= i <= b
    case (Some(a), None) => a <= i
    case (None, Some(b)) => n - i <= b
    case (None, None) => false
  }

  /** The first named position. */
  function NamedFrom(n: nat, first: Option<nat>, last: Option<nat>): nat {
    match first
    case Some(a) => a
    case None => if last.Some? && last.value < n then n - last.value else 0
  }

  /** The bytes are those at the named positions, in order, and no others. */
  ghost predicate AreNamed(f: seq<Byte>, first: Option<nat>, last: Option<nat>, bytes: seq<Byte>) {
    var from := NamedFrom(|f|, first, last);
    forall i: nat :: (Named(|f|, first, last, i) <==> 0 <= i - from < |bytes|) &&
                     (Named(|f|, first, last, i) ==> bytes[i - from] == f[i])
  }

  /** A byte range with both positions gives exactly the bytes it names. One without a last position is never
      served, and one without a first position gives the whole file, which is right only when it asks for
      at least that much. */
  lemma HttpRange(f: seq<Byte>, first: Option<nat>, last: Option<nat>)
    requires first.Some? && last.Some? ==> first.value <= last.value
    ensures BytesGiven(f, first, last).Raised? <==> last.None?
    ensures last.Some? ==>
              (AreNamed(f, first, last, BytesGiven(f, first, last).value) <==> first.Some? || last.value >= |f|)
  {
    hide AreNamed, Window;
    if last.Some? {
      if first.Some? {
        BothPositions(f, first.value, last.value, Window(f, first.value, last.value + 1));
      } else {
        SuffixOnly(f, last.value);
      }
    }
  }

  lemma BothPositions(f: seq<Byte>, a: nat, b: nat, w: seq<Byte>)
    requires a <= b && w == Window(f, a, b + 1)
    ensures AreNamed(f, Some(a), Some(b), w)
  {
    hide Window;
    forall i: nat | Named(|f|, Some(a), Some(b), i) ensures 0 <= i - a < |w| && w[i - a] == f[i] {
      WindowAt(f, a, b + 1, i - a);
    }
  }

  lemma SuffixOnly(f: seq<Byte>, b: nat)
    ensures AreNamed(f, None, Some(b), f) <==> b >= |f|
  {
    if b < |f| {
      assert !Named(|f|, None, Some(b), |f| - b + |f| - 1);
    }
  }
}
