/** PartitionsIdentityStorlet: copies the records of one byte range of a file, finishing the record
    that crosses the end of the range and leaving a broken first record to the previous range. */
module PartitionsIdentity {
  import opened Basics
  import opened Records

  /** The request parameters; `None` is a parameter that is missing or that does not parse. */
  datatype Parameters = Parameters(start: Option<int>, end: Option<int>,
                                   maxRecordLine: Option<int>, firstPartition: Option<bool>)
  {
    predicate Complete() {
      start.Some? && end.Some? && maxRecordLine.Some? && firstPartition.Some?
    }
  }

  /** The records a range of `length + 1` bytes emits from its stream: the first line only in the first
      partition, then every record that starts no later than one byte past the range. */
  function RangeRecords(stream: string, length: int, first: bool): seq<string> {
    if |stream| == 0 then []
    else
      (if first then [RecordAt(stream, 0)] else []) +
      LinesFrom(stream, NextLine(stream, 0), length + 1)
  }

  class PartitionsIdentityStorlet {
    var length: int               // bytes of the range still unread
    var totalLinesEmitted: nat    // over the life of the storlet object

    constructor ()
      ensures totalLinesEmitted == 0
    {
      length, totalLinesEmitted := 0, 0;
    }

    method Invoke(stream: string, params: Parameters) returns (out: string)
      modifies this
      ensures !params.Complete() ==> out == "" && totalLinesEmitted == old(totalLinesEmitted)
      ensures params.Complete() ==>
                var records := RangeRecords(stream, params.end.value - params.start.value, params.firstPartition.value);
                out == Text(records) && totalLinesEmitted == old(totalLinesEmitted) + |records|
    {
      hide RecordAt, LineEnd, Text;
      EmptyText();
      out := "";
      if !params.Complete() { return; }
      var range := params.end.value - params.start.value;
      length := range;
      if |stream| == 0 { return; }

      // consumeFirstLine
      ghost var records: seq<string> := [];
      if params.firstPartition.value {
        totalLinesEmitted := totalLinesEmitted + 1;
        out := RecordAt(stream, 0) + "\n";
        records := [RecordAt(stream, 0)];
        SingleText(RecordAt(stream, 0));
      }
      RecordLength(stream, 0);
      var pos := NextLine(stream, 0);
      length := length - (|RecordAt(stream, 0)| + 1);

      while pos < |stream| && length >= -1
        invariant length == range - pos
        invariant out == Text(records)
        invariant totalLinesEmitted == old(totalLinesEmitted) + |records|
        invariant records + LinesFrom(stream, pos, range + 1)
               == RangeRecords(stream, range, params.firstPartition.value)
        decreases |stream| - pos
      {
        var line := RecordAt(stream, pos);
        totalLinesEmitted := totalLinesEmitted + 1;
        out := out + line + "\n";
        TextSnoc(records, line);
        RecordLength(stream, pos);
        records := records + [line];
        length := length - (|line| + 1);
        pos := NextLine(stream, pos);
      }
      assert records == RangeRecords(stream, range, params.firstPartition.value);
    }
  }

  // ---- A file cut into adjacent ranges ----

  /** The outputs of one invocation per range, put together. Each invocation is handed the bytes
      `start..end + maxRecordLine`, both included. */
  function Outputs(f: string, start: nat, ends: seq<nat>, first: bool, maxRecordLine: nat): seq<string>
    requires AdjacentRanges(start, ends)
    decreases |ends|
  {
    if |ends| == 0 then []
    else
      RangeRecords(Window(f, start, ends[0] + maxRecordLine + 1), ends[0] - start, first) +
      Outputs(f, ends[0] + 1, ends[1..], false, maxRecordLine)
  }

  /** One range of the file: its records start after `start` (from `start` on in the first partition)
      and no later than `end + 1`. */
  lemma RangeOfFile(f: string, w: string, start: nat, end: nat, first: bool, b: nat, length: int, maxRecordLine: nat)
    requires start <= end && maxRecordLine >= 1 && RecordsFit(f, maxRecordLine)
    requires b == end + maxRecordLine + 1 && w == Window(f, start, b) && length == end - start
    ensures RangeRecords(w, length, first) == LinesFrom(f, FirstStart(f, start, first), end + 1)
  {
    var h, hi := length + 1, end + 1;
    StreamOfRange(w, length, h, first);
    if first {
      WindowLines(f, w, start, b, start, hi, 0, h, maxRecordLine);
    } else {
      WindowDropsFirstLine(f, w, start, b, hi, h, maxRecordLine);
    }
  }

  lemma StreamOfRange(w: string, length: int, h: int, first: bool)
    requires length >= 0 && h == length + 1
    ensures RangeRecords(w, length, first) == LinesFrom(w, FirstStart(w, 0, first), h)
  {
  }

  lemma {:induction false} OutputsTile(f: string, start: nat, ends: seq<nat>, first: bool, maxRecordLine: nat,
                                       last: nat)
    requires AdjacentRanges(start, ends) && |ends| > 0 && last == ends[|ends| - 1]
    requires maxRecordLine >= 1 && RecordsFit(f, maxRecordLine)
    ensures Outputs(f, start, ends, first, maxRecordLine) == LinesFrom(f, FirstStart(f, start, first), last + 1)
    decreases |ends|
  {
    hide LinesFrom, RangeRecords, NextLine, RecordsFit, Window, LineEnd, RecordAt, AdjacentRanges;
    FirstOfRanges(start, ends);
    var end, rest := ends[0], ends[1..];
    var b, length := end + maxRecordLine + 1, end - start;
    RangeOfFile(f, Window(f, start, b), start, end, first, b, length, maxRecordLine);
    if |rest| > 0 {
      LastIsBeyond(end + 1, rest, last);
      OutputsTile(f, end + 1, rest, false, maxRecordLine, last);
      RangesJoin(f, start, end, last, first);
    } else {
      assert Outputs(f, end + 1, rest, false, maxRecordLine) == [];
    }
  }

  lemma FirstOfRanges(start: nat, ends: seq<nat>)
    requires AdjacentRanges(start, ends) && |ends| > 0
    ensures start <= ends[0] && AdjacentRanges(ends[0] + 1, ends[1..])
  {
  }

  /** What one range reads and what the next one reads, put together. */
  lemma RangesJoin(f: string, start: nat, end: nat, last: nat, first: bool)
    requires start <= end < last
    ensures LinesFrom(f, FirstStart(f, start, first), last + 1)
         == LinesFrom(f, FirstStart(f, start, first), end + 1) + LinesFrom(f, NextLine(f, end + 1), last + 1)
  {
    hide RecordAt, LineEnd;
    var from := FirstStart(f, start, first);
    if from <= end + 1 {
      LinesSplit(f, from, end + 1, last + 1);
    } else {
      // the whole range lies inside one record
      SameLineEnd(f, start, end + 1);
    }
  }

  /** However the file is cut into adjacent ranges, the outputs of all ranges in order are the file's
      records, none lost, repeated or cut; byte for byte they are the file with its last line terminated. */
  lemma PartitionsReproduceTheFile(f: string, start: nat, ends: seq<nat>, maxRecordLine: nat)
    requires AdjacentRanges(start, ends) && |ends| > 0 && ends[|ends| - 1] + 1 >= |f| >= start
    requires maxRecordLine >= 1 && RecordsFit(f, maxRecordLine)
    ensures Outputs(f, start, ends, true, maxRecordLine) == LinesFrom(f, start, |f|)
    ensures Text(Outputs(f, start, ends, true, maxRecordLine))
         == f[start..] + MissingNewline(f, start)
  {
    hide LinesFrom, Outputs, Text;
    var last := ends[|ends| - 1];
    OutputsTile(f, start, ends, true, maxRecordLine, last);
    LinesUnbounded(f, start, last + 1, |f|);
    LinesAreTheFile(f, start);
  }

  /** The same without reference to reading: the outputs are the records at the offsets that follow a
      newline, each of them once, in ascending order. */
  lemma EachRecordOnce(f: string, start: nat, ends: seq<nat>, maxRecordLine: nat)
    requires AdjacentRanges(start, ends) && |ends| > 0 && ends[|ends| - 1] + 1 >= |f| >= start
    requires maxRecordLine >= 1 && RecordsFit(f, maxRecordLine)
    ensures var out, ps := Outputs(f, start, ends, true, maxRecordLine), StartsFrom(f, start, |f|);
            && |out| == |ps| && (forall i :: 0 <= i < |out| ==> out[i] == RecordAt(f, ps[i]))
            && (forall i, j :: 0 <= i < j < |ps| ==> ps[i] < ps[j])
            && (forall p :: p in ps <==> IsStart(f, start, p))
  {
    hide LinesFrom, StartsFrom, Outputs, Text, RecordAt;
    PartitionsReproduceTheFile(f, start, ends, maxRecordLine);
    LinesAreTheRecords(f, start, |f|);
    StartsAscend(f, start, |f|);
    forall p ensures p in StartsFrom(f, start, |f|) <==> IsStart(f, start, p) {
      StartsAreExact(f, start, |f|, p);
    }
  }
}
