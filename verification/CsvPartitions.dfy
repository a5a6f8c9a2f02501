/** A CSV file queried range by range: what the outputs of all ranges add up to. */
module CsvPartitions {
  import opened Basics
  import opened Records
  import opened Clauses
  import opened CsvStorlet

  /** The records every range looks at, put together. Each range is handed the bytes
      `start..end + maxRecordLine`, both included. */
  function AllRangeLines(f: string, start: nat, ends: seq<nat>, first: bool, maxRecordLine: nat): seq<string>
    requires AdjacentRanges(start, ends)
    decreases |ends|
  {
    if |ends| == 0 then []
    else
      RangeLines(Window(f, start, ends[0] + maxRecordLine + 1), ends[0] - start, first) +
      AllRangeLines(f, ends[0] + 1, ends[1..], false, maxRecordLine)
  }

  /** First bytes of the ranges after the first one. */
  function LaterStarts(ends: seq<nat>): set<nat> {
    if |ends| <= 1 then {} else {ends[0] + 1} + LaterStarts(ends[1..])
  }

  /** The records from `p` on, a record twice when the byte just before it is in `cuts`. */
  function Doubled(f: string, p: nat, cuts: set<nat>): seq<string>
    decreases |f| - p
  {
    if p >= |f| then []
    else
      (if p > 0 && p - 1 in cuts then [RecordAt(f, p), RecordAt(f, p)] else [RecordAt(f, p)]) +
      Doubled(f, NextLine(f, p), cuts)
  }

  // ---- The records looked at ----

  lemma RangeOfFile(f: string, w: string, start: nat, end: nat, first: bool, b: nat, length: int, maxRecordLine: nat)
    requires start <= end && maxRecordLine >= 2 && RecordsFit(f, maxRecordLine - 1)
    requires b == end + maxRecordLine + 1 && w == Window(f, start, b) && length == end - start
    ensures RangeLines(w, length, first) == LinesFrom(f, FirstStart(f, start, first), end + 2)
  {
    hide RecordsFit, LinesFrom, Window, LineEnd;
    var h, hi := length + 2, end + 2;
    if first {
      WindowLines(f, w, start, b, start, hi, 0, h, maxRecordLine - 1);
    } else {
      WindowDropsFirstLine(f, w, start, b, hi, h, maxRecordLine - 1);
    }
  }

  /** Cuts before `p - 1` no longer matter. */
  lemma {:induction false} PassedCuts(f: string, p: nat, cuts: set<nat>, more: set<nat>, m: nat)
    requires more == {m} + cuts && p > m + 1
    ensures Doubled(f, p, more) == Doubled(f, p, cuts)
    decreases |f| - p
  {
    hide RecordAt, LineEnd;
    if p < |f| {
      PassedCuts(f, NextLine(f, p), cuts, more, m);
    }
  }

  /** A range that goes on two bytes past its end, followed by the next range: the one record they can
      share is the record that starts right after the first byte `m` of the next range. */
  lemma {:induction false} DoubledSplit(f: string, q: nat, m: nat, cuts: set<nat>, more: set<nat>)
    requires more == {m} + cuts && forall x :: x in cuts ==> x > m
    requires q <= m || q == NextLine(f, m)
    ensures Doubled(f, q, more) == LinesFrom(f, q, m + 1) + Doubled(f, NextLine(f, m), cuts)
    decreases |f| - q
  {
    hide RecordAt, LineEnd;
    if q <= m {
      if q < |f| {
        var next := NextLine(f, q);
        if next > m {
          SameLineEnd(f, q, m);
        }
        DoubledSplit(f, next, m, cuts, more);
      }
    } else if q == m + 1 {
      if q < |f| {
        PassedCuts(f, NextLine(f, q), cuts, more, m);
        SharedRecord(f, q, m, cuts, more);
      }
    } else {
      PassedCuts(f, q, cuts, more, m);
    }
  }

  lemma SharedRecord(f: string, q: nat, m: nat, cuts: set<nat>, more: set<nat>)
    requires q == m + 1 < |f| && m in more && m !in cuts
    requires Doubled(f, NextLine(f, q), more) == Doubled(f, NextLine(f, q), cuts)
    ensures Doubled(f, q, more) == LinesFrom(f, q, m + 1) + Doubled(f, q, cuts)
  {
    hide RecordAt, LineEnd;
    assert LinesFrom(f, NextLine(f, q), m + 1) == [];
  }

  lemma {:induction false} NoCuts(f: string, p: nat, hi: int)
    requires |f| <= hi + 1
    ensures Doubled(f, p, {}) == LinesFrom(f, p, hi)
    decreases |f| - p
  {
    hide RecordAt, LineEnd;
    if p < |f| {
      NoCuts(f, NextLine(f, p), hi);
    }
  }

  lemma {:induction false} LaterStartsAreLater(start: nat, ends: seq<nat>)
    requires AdjacentRanges(start, ends)
    ensures forall x :: x in LaterStarts(ends) ==> x > start
    decreases |ends|
  {
    if |ends| > 1 {
      LaterStartsAreLater(ends[0] + 1, ends[1..]);
    }
  }

  lemma {:induction false} RangesLookAt(f: string, start: nat, ends: seq<nat>, first: bool, maxRecordLine: nat)
    requires AdjacentRanges(start, ends) && |ends| > 0 && ends[|ends| - 1] + 1 >= |f|
    requires maxRecordLine >= 2 && RecordsFit(f, maxRecordLine - 1)
    ensures AllRangeLines(f, start, ends, first, maxRecordLine)
         == Doubled(f, FirstStart(f, start, first), LaterStarts(ends))
    decreases |ends|
  {
    hide LinesFrom, RangeLines, RecordsFit, Window, Doubled, LineEnd;
    var end, rest := ends[0], ends[1..];
    var b, length := end + maxRecordLine + 1, end - start;
    var q := FirstStart(f, start, first);
    RangeOfFile(f, Window(f, start, b), start, end, first, b, length, maxRecordLine);
    if |rest| == 0 {
      assert AllRangeLines(f, end + 1, rest, false, maxRecordLine) == [];
      NoCuts(f, q, end + 2);
    } else {
      RangesLookAt(f, end + 1, rest, false, maxRecordLine);
      LaterStartsAreLater(end + 1, rest);
      if q > end + 1 {
        SameLineEnd(f, start, end + 1);
      }
      DoubledSplit(f, q, end + 1, LaterStarts(rest), LaterStarts(ends));
    }
  }

  // ---- The records written ----

  /** What all ranges write, put together. */
  function Outputs(f: string, start: nat, ends: seq<nat>, first: bool, maxRecordLine: nat,
                   select: seq<int>, condition: string, clause: Clause): seq<string>
    requires AdjacentRanges(start, ends)
    decreases |ends|
  {
    if |ends| == 0 then []
    else
      QueryOver(RangeLines(Window(f, start, ends[0] + maxRecordLine + 1), ends[0] - start, first),
                select, condition, clause) +
      Outputs(f, ends[0] + 1, ends[1..], false, maxRecordLine, select, condition, clause)
  }

  /** A query over a list of records. */
  function QueryOver(lines: seq<string>, select: seq<int>, condition: string, clause: Clause): seq<string> {
    Emitted(ProcessAll(lines, select, condition, clause))
  }

  lemma {:induction false} QueryConcat(a: seq<string>, b: seq<string>, select: seq<int>, condition: string,
                                       clause: Clause)
    ensures QueryOver(a + b, select, condition, clause) ==
              QueryOver(a, select, condition, clause) + QueryOver(b, select, condition, clause)
    decreases |b|
  {
    hide ProcessRecord;
    if |b| == 0 {
      assert a + b == a;
    } else {
      var n := |b| - 1;
      var c, x := b[..n], b[n];
      QueryConcat(a, c, select, condition, clause);
      assert a + b == (a + c) + [x] && b == c + [x];
      QuerySnoc(a + c, x, select, condition, clause);
      QuerySnoc(c, x, select, condition, clause);
    }
  }

  lemma QuerySnoc(a: seq<string>, x: string, select: seq<int>, condition: string, clause: Clause)
    ensures QueryOver(a + [x], select, condition, clause) ==
              QueryOver(a, select, condition, clause) + QueryOver([x], select, condition, clause)
  {
    hide ProcessRecord, Emitted, ProcessAll, Tally;
    ProcessSnoc(a, x, select, condition, clause);
    ProcessSnoc([], x, select, condition, clause);
    assert [] + [x] == [x];
    NoQuery(select, condition, clause);
    EmittedSnoc(ProcessAll(a, select, condition, clause), ProcessRecord(x, select, condition, clause));
    EmittedSnoc(ProcessAll([], select, condition, clause), ProcessRecord(x, select, condition, clause));
  }

  lemma NoQuery(select: seq<int>, condition: string, clause: Clause)
    ensures QueryOver([], select, condition, clause) == []
  {
  }

  lemma {:induction false} OutputsAreTheQuery(f: string, start: nat, ends: seq<nat>, first: bool, maxRecordLine: nat,
                                              select: seq<int>, condition: string, clause: Clause)
    requires AdjacentRanges(start, ends)
    ensures Outputs(f, start, ends, first, maxRecordLine, select, condition, clause)
         == QueryOver(AllRangeLines(f, start, ends, first, maxRecordLine), select, condition, clause)
    decreases |ends|
  {
    hide QueryOver, RangeLines, Window;
    if |ends| == 0 {
      NoQuery(select, condition, clause);
    } else {
      OutputsAreTheQuery(f, ends[0] + 1, ends[1..], false, maxRecordLine, select, condition, clause);
      QueryConcat(RangeLines(Window(f, start, ends[0] + maxRecordLine + 1), ends[0] - start, first),
                  AllRangeLines(f, ends[0] + 1, ends[1..], false, maxRecordLine), select, condition, clause);
    }
  }

  /** However the file is cut into adjacent ranges, the outputs of all ranges in order are the query over
      the file's records in order, where a record comes twice exactly when the byte just before it is the
      first byte of a range after the first. */
  lemma PartitionedQuery(f: string, start: nat, ends: seq<nat>, maxRecordLine: nat,
                         select: seq<int>, condition: string, clause: Clause)
    requires AdjacentRanges(start, ends) && |ends| > 0 && ends[|ends| - 1] + 1 >= |f|
    requires maxRecordLine >= 2 && RecordsFit(f, maxRecordLine - 1)
    ensures Outputs(f, start, ends, true, maxRecordLine, select, condition, clause)
         == QueryOver(Doubled(f, start, LaterStarts(ends)), select, condition, clause)
  {
    hide *;
    OutputsAreTheQuery(f, start, ends, true, maxRecordLine, select, condition, clause);
    RangesLookAt(f, start, ends, true, maxRecordLine);
    FirstRangeStartsAtStart(f, start);
  }

  lemma FirstRangeStartsAtStart(f: string, start: nat)
    ensures FirstStart(f, start, true) == start
  {
  }

  /** A range after the first starts past the end of the file. */
  predicate StartsPastEnd(f: string, ends: seq<nat>, i: nat)
    requires i < |ends|
  {
    i > 0 && ends[i - 1] + 1 >= |f|
  }

  /** The query run range by range. An invocation fails exactly when the clause does not parse, or when a
      range after the first starts past the end of the file. Such a range has no record to contribute, so as
      soon as the clause parses the bytes written are those of the query over the file. */
  method InvokeRanges(f: string, start: nat, ends: seq<nat>, maxRecordLine: nat, q: Query)
    returns (outcomes: seq<Outcome>, output: string)
    requires AdjacentRanges(start, ends) && |ends| > 0 && ends[|ends| - 1] + 1 >= |f|
    requires maxRecordLine >= 2 && RecordsFit(f, maxRecordLine - 1)
    ensures |outcomes| == |ends|
    ensures forall i :: 0 <= i < |ends| ==>
              (outcomes[i] == Failed <==> ParseClause(WhereClause(q)).Raised? || StartsPastEnd(f, ends, i))
    ensures var parsed := ParseClause(WhereClause(q));
            output == if parsed.Raised? then ""
                      else Text(QueryOver(Doubled(f, start, LaterStarts(ends)), q.select, WhereClause(q), parsed.value))
  {
    hide *;
    var condition := WhereClause(q);
    ghost var parsed := ParseClause(condition);
    outcomes, output := [], "";
    var s, i := start, 0;
    ghost var all :=
      if parsed.Ok? then Outputs(f, start, ends, true, maxRecordLine, q.select, condition, parsed.value) else [];
    ghost var rest := ends;
    EmptyText();
    while i < |ends|
      invariant 0 <= i <= |ends| && |outcomes| == i && s == (if i == 0 then start else ends[i - 1] + 1)
      invariant rest == ends[i..] && AdjacentRanges(s, rest)
      invariant forall k :: 0 <= k < i ==> (outcomes[k] == Failed <==> parsed.Raised? || StartsPastEnd(f, ends, k))
      invariant parsed.Raised? ==> output == ""
      invariant parsed.Ok? ==>
                  output + Text(Outputs(f, s, rest, i == 0, maxRecordLine, q.select, condition, parsed.value)) ==
                      Text(all)
    {
      var stream := Window(f, s, ends[i] + maxRecordLine + 1);
      var outcome := Invoke(stream, s, ends[i], i == 0, q);
      ghost var last: int, from: int := ends[i], s;
      QueryIsEmitted(RangeLines(stream, last - from, i == 0), q.select, condition, parsed);
      NextRange(f, s, stream, rest, i == 0, maxRecordLine, q.select, condition, parsed, output, outcome);
      PastEnd(f, ends, i, s);
      if outcome.Done? {
        output := output + outcome.output;
      }
      outcomes := outcomes + [outcome];
      i, s, rest := i + 1, ends[i] + 1, rest[1..];
    }
    if parsed.Ok? {
      NoRanges(f, s, rest, i == 0, maxRecordLine, q.select, condition, parsed.value, output);
      PartitionedQuery(f, start, ends, maxRecordLine, q.select, condition, parsed.value);
    }
  }

  lemma QueryIsEmitted(lines: seq<string>, select: seq<int>, condition: string, parsed: Result<Clause>)
    ensures parsed.Ok? ==>
              QueryOver(lines, select, condition, parsed.value) ==
                  Emitted(ProcessAll(lines, select, condition, parsed.value))
  {
  }

  lemma PastEnd(f: string, ends: seq<nat>, i: nat, s: nat)
    requires i < |ends| && (i > 0 ==> s == ends[i - 1] + 1)
    ensures StartsPastEnd(f, ends, i) <==> i > 0 && s >= |f|
  {
  }

  lemma NextRange(f: string, s: nat, stream: string, ends: seq<nat>, first: bool, maxRecordLine: nat, select: seq<int>,
                  condition: string, parsed: Result<Clause>, output: string, outcome: Outcome)
    requires |ends| > 0 && AdjacentRanges(s, ends) && stream == Window(f, s, ends[0] + maxRecordLine + 1)
    requires outcome == Failed <==> parsed.Raised? || (!first && |stream| == 0)
    requires outcome.Done? ==>
               outcome.output ==
                   Text(QueryOver(RangeLines(stream, ends[0] - s, first), select, condition, parsed.value))
    ensures AdjacentRanges(ends[0] + 1, ends[1..])
    ensures outcome == Failed <==> parsed.Raised? || (!first && s >= |f|)
    ensures parsed.Ok? ==>
              output + Text(Outputs(f, s, ends, first, maxRecordLine, select, condition, parsed.value)) ==
              (if outcome.Done? then output + outcome.output else output) +
              Text(Outputs(f, ends[0] + 1, ends[1..], false, maxRecordLine, select, condition, parsed.value))
  {
    hide Text, QueryOver, RangeLines, Window;
    if parsed.Ok? {
      var here := QueryOver(RangeLines(stream, ends[0] - s, first), select, condition, parsed.value);
      var rest := Outputs(f, ends[0] + 1, ends[1..], false, maxRecordLine, select, condition, parsed.value);
      TextConcat(here, rest);
      ConcatAssociates(output, Text(here), Text(rest));
      if outcome == Failed {
        NothingInEmptyStream(ends[0] - s, select, condition, parsed.value);
        assert stream == "" && here == [];
      }
    }
  }

  lemma NothingInEmptyStream(length: int, select: seq<int>, condition: string, clause: Clause)
    ensures QueryOver(RangeLines("", length, false), select, condition, clause) == [] && Text([]) == ""
  {
    NoQuery(select, condition, clause);
  }

  lemma NoRanges(f: string, s: nat, ends: seq<nat>, first: bool, maxRecordLine: nat, select: seq<int>,
                 condition: string, clause: Clause, output: string)
    requires ends == []
    ensures output + Text(Outputs(f, s, ends, first, maxRecordLine, select, condition, clause)) == output
  {
  }

  // ---- Which records are looked at, in terms of the file alone ----

  /** Where the records of `Doubled` start. */
  function DoubledStarts(f: string, p: nat, cuts: set<nat>): seq<nat>
    decreases |f| - p
  {
    if p >= |f| then []
    else (if p > 0 && p - 1 in cuts then [p, p] else [p]) + DoubledStarts(f, NextLine(f, p), cuts)
  }

  function Times(cuts: set<nat>, p: nat): nat {
    if p > 0 && p - 1 in cuts then 2 else 1
  }

  lemma {:induction false} DoubledAtStarts(f: string, p: nat, cuts: set<nat>)
    ensures |Doubled(f, p, cuts)| == |DoubledStarts(f, p, cuts)|
    ensures forall i :: 0 <= i < |Doubled(f, p, cuts)| ==>
              Doubled(f, p, cuts)[i] == RecordAt(f, DoubledStarts(f, p, cuts)[i])
    decreases |f| - p
  {
    hide RecordAt, LineEnd;
    if p < |f| {
      DoubledAtStarts(f, NextLine(f, p), cuts);
    }
  }

  lemma {:induction false} DoubledStartsAscend(f: string, p: nat, cuts: set<nat>)
    ensures forall i :: 0 <= i < |DoubledStarts(f, p, cuts)| ==> DoubledStarts(f, p, cuts)[i] >= p
    ensures forall i, j :: 0 <= i < j < |DoubledStarts(f, p, cuts)| ==>
              DoubledStarts(f, p, cuts)[i] <= DoubledStarts(f, p, cuts)[j]
    decreases |f| - p
  {
    hide LineEnd;
    if p < |f| {
      DoubledStartsAscend(f, NextLine(f, p), cuts);
    }
  }

  lemma {:induction false} DoubledStartsCount(f: string, p: nat, cuts: set<nat>, x: nat)
    ensures multiset(DoubledStarts(f, p, cuts))[x] == if IsStart(f, p, x) then Times(cuts, x) else 0
    decreases |f| - p
  {
    hide LineEnd;
    if p < |f| {
      DoubledStartsCount(f, NextLine(f, p), cuts, x);
      StartsGoOn(f, p, x);
    }
  }

  /** All ranges together look, in ascending order, at the records at the offsets that follow a newline and
      at no others: at each of them once, or twice exactly when the byte before it is the first byte of a
      range after the first. */
  lemma OnceOrTwice(f: string, start: nat, ends: seq<nat>, maxRecordLine: nat)
    requires AdjacentRanges(start, ends) && |ends| > 0 && ends[|ends| - 1] + 1 >= |f|
    requires maxRecordLine >= 2 && RecordsFit(f, maxRecordLine - 1)
    ensures var lines, ps :=
            AllRangeLines(f, start, ends, true, maxRecordLine), DoubledStarts(f, start, LaterStarts(ends));
            && |lines| == |ps| && (forall i :: 0 <= i < |lines| ==> lines[i] == RecordAt(f, ps[i]))
            && (forall i, j :: 0 <= i < j < |ps| ==> ps[i] <= ps[j])
            && (forall p: nat :: multiset(ps)[p] == if IsStart(f, start, p) then Times(LaterStarts(ends), p) else 0)
  {
    hide Doubled, DoubledStarts, LaterStarts, AllRangeLines, RecordsFit, RecordAt, Times;
    RangesLookAt(f, start, ends, true, maxRecordLine);
    FirstRangeStartsAtStart(f, start);
    DoubledAtStarts(f, start, LaterStarts(ends));
    DoubledStartsAscend(f, start, LaterStarts(ends));
    forall p: nat
      ensures multiset(DoubledStarts(f, start, LaterStarts(ends)))[p] ==
                if IsStart(f, start, p) then Times(LaterStarts(ends), p) else 0
    {
      DoubledStartsCount(f, start, LaterStarts(ends), p);
    }
  }

  /** A file of two records cut after its first byte: the second record is looked at by both ranges. */
  lemma SecondRecordTwice(maxRecordLine: nat)
    requires maxRecordLine >= 2
    ensures AdjacentRanges(0, [0, 3]) && RecordsFit("a\nb\n", maxRecordLine - 1)
    ensures AllRangeLines("a\nb\n", 0, [0, 3], true, maxRecordLine) == ["a", "b", "b"]
  {
    var f, ends := "a\nb\n", [0, 3];
    assert LineEnd(f, 4) == 4 && LineEnd(f, 3) == 3 && LineEnd(f, 2) == 3 && LineEnd(f, 1) == 1 && LineEnd(f, 0) == 1;
    assert RecordsFit(f, maxRecordLine - 1);
    assert ends[1..] == [3] && [3][1..] == [];
    assert AdjacentRanges(4, []) && AdjacentRanges(1, [3]);
    assert LaterStarts(ends) == {1};
    RangesLookAt(f, 0, ends, true, maxRecordLine);
    assert RecordAt(f, 0) == "a" && RecordAt(f, 2) == "b";
    assert Doubled(f, 4, {1}) == [] && Doubled(f, 2, {1}) == ["b", "b"];
  }

  // ---- Exactly when no record is repeated ----

  lemma StartsGoOn(f: string, p: nat, y: nat)
    requires p < |f|
    ensures IsStart(f, p, y) <==> y == p || IsStart(f, NextLine(f, p), y)
  {
    LineEndIsFirstNewline(f, p);
  }

  lemma {:induction false} DoubledAtLeast(f: string, p: nat, cuts: set<nat>, hi: int)
    requires |f| <= hi + 1
    ensures |Doubled(f, p, cuts)| >= |LinesFrom(f, p, hi)|
    ensures (forall x :: x in cuts ==> !IsStart(f, p, x + 1)) ==> Doubled(f, p, cuts) == LinesFrom(f, p, hi)
    decreases |f| - p
  {
    hide RecordAt, LineEnd;
    if p < |f| {
      DoubledAtLeast(f, NextLine(f, p), cuts, hi);
      forall x | x in cuts && IsStart(f, NextLine(f, p), x + 1) ensures IsStart(f, p, x + 1) {
        StartsGoOn(f, p, x + 1);
      }
      assert p > 0 && p - 1 in cuts ==> IsStart(f, p, (p - 1) + 1);
    }
  }

  lemma {:induction false} CutMakesLonger(f: string, p: nat, cuts: set<nat>, hi: int, x: nat)
    requires |f| <= hi + 1 && x in cuts && IsStart(f, p, x + 1)
    ensures |Doubled(f, p, cuts)| > |LinesFrom(f, p, hi)|
    decreases |f| - p
  {
    hide RecordAt, LineEnd;
    if p == x + 1 {
      DoubledAtLeast(f, NextLine(f, p), cuts, hi);
    } else {
      StartsGoOn(f, p, x + 1);
      CutMakesLonger(f, NextLine(f, p), cuts, hi, x);
    }
  }

  /** The ranges look at every record once if and only if no range after the first starts on the newline
      that ends a record which is not the last one. */
  lemma NoRepetitionIff(f: string, start: nat, ends: seq<nat>, maxRecordLine: nat)
    requires AdjacentRanges(start, ends) && |ends| > 0 && ends[|ends| - 1] + 1 >= |f|
    requires maxRecordLine >= 2 && RecordsFit(f, maxRecordLine - 1)
    ensures AllRangeLines(f, start, ends, true, maxRecordLine) == LinesFrom(f, start, |f|)
       <==> forall x :: x in LaterStarts(ends) && x + 1 < |f| ==> f[x] != '\n'
  {
    hide Doubled, LinesFrom, LaterStarts, AllRangeLines, RecordsFit;
    RangesLookAt(f, start, ends, true, maxRecordLine);
    FirstRangeStartsAtStart(f, start);
    LaterStartsAreLater(start, ends);
    var cuts := LaterStarts(ends);
    DoubledAtLeast(f, start, cuts, |f|);
    if x :| x in cuts && x + 1 < |f| && f[x] == '\n' {
      CutMakesLonger(f, start, cuts, |f|, x);
    } else {
      assert forall x :: x in cuts ==> !IsStart(f, start, x + 1);
    }
  }
}
