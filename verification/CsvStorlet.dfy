/** CSVStorlet: filters and projects the records of one byte range of a CSV file. */
module CsvStorlet {
  import opened Basics
  import opened JavaText
  import opened Records
  import opened Clauses

  /** The columns to keep (none means all) and the where-clause text. */
  datatype Query = Query(select: seq<int>, whereText: string)

  /** What happens to one record. */
  datatype RowResult = Selected(text: string) | Rejected | Malformed | TooShort

  const SPACE_MARK := "XYZYX"

  /** The text the parser is given: spaces may be written XYZYX. */
  function WhereClause(q: Query): string {
    ReplaceAll(Trim(q.whereText), SPACE_MARK, " ")
  }

  // ---- Projection ----

  /** The selected fields the row is long enough to have. */
  function Picked(row: seq<string>, select: seq<int>): seq<string>
    requires forall i :: 0 <= i < |select| ==> select[i] >= 0
  {
    if |select| == 0 then []
    else
      var n := |select| - 1;
      Picked(row, select[..n]) + if select[n] < |row| then [row[select[n]]] else []
  }

  /** `None` is the ArrayIndexOutOfBoundsException of a negative column. */
  function Projection(row: seq<string>, select: seq<int>): Option<string> {
    if forall i :: 0 <= i < |select| ==> select[i] >= 0 then Some(Join(Picked(row, select), ","))
    else None
  }

  method ChooseColumns(row: seq<string>, select: seq<int>) returns (r: Option<string>)
    ensures r == Projection(row, select)
  {
    var sb := "";
    var first := true;
    var index := 0;
    while index < |select|
      invariant 0 <= index <= |select|
      invariant forall i :: 0 <= i < index ==> select[i] >= 0
      invariant sb == Join(Picked(row, select[..index]), ",")
      invariant first <==> |Picked(row, select[..index])| == 0
    {
      ghost var before := Picked(row, select[..index]);
      assert select[..index + 1][..index] == select[..index];
      if select[index] > |row| - 1 {
        assert Picked(row, select[..index + 1]) == before;
        index := index + 1;
        continue;
      }
      if select[index] < 0 { return None; }
      if !first { sb := sb + ","; } else { first := false; }
      assert Picked(row, select[..index + 1]) == before + [row[select[index]]];
      assert |before| == 0 ==> sb + row[select[index]] == row[select[index]];
      sb := sb + row[select[index]];
      JoinSnoc(before, row[select[index]]);
      index := index + 1;
    }
    assert select[..index] == select;
    r := Some(sb);
  }

  lemma {:induction false} JoinSnoc(ps: seq<string>, p: string)
    ensures Join(ps + [p], ",") == if |ps| == 0 then p else Join(ps, ",") + "," + p
  {
    if |ps| == 1 {
      assert (ps + [p])[1..] == [p];
    } else if |ps| > 1 {
      JoinSnoc(ps[1..], p);
      assert (ps + [p])[1..] == ps[1..] + [p];
      ConcatAssociates(ps[0] + ",", Join(ps[1..], ","), "," + p);
      ConcatAssociates(Join(ps[1..], ","), ",", p);
      ConcatAssociates(Join(ps, ","), ",", p);
    }
  }

  // ---- One record ----

  function ProcessRecord(line: string, select: seq<int>, condition: string, clause: Clause): RowResult {
    var needsFields := |select| > 0 || |condition| > 0;
    var row := if needsFields then Split(line, ',') else [];
    if needsFields && |row| < MaxCol(clause) then TooShort
    else
      var verdict := if |condition| == 0 then Answer(true) else IsValid(clause, row);
      if verdict == OutOfBounds then Malformed
      else if verdict == Answer(false) then Rejected
      else if |select| == 0 then Selected(line)
      else
        match Projection(row, select)
        case None => Malformed
        case Some(text) => Selected(text)
  }

  /** The records of a list, each processed on its own. */
  function ProcessAll(lines: seq<string>, select: seq<int>, condition: string, clause: Clause): (rs: seq<RowResult>)
    ensures |rs| == |lines|
    ensures forall i :: 0 <= i < |rs| ==> rs[i] == ProcessRecord(lines[i], select, condition, clause)
  {
    seq(|lines|, i requires 0 <= i < |lines| => ProcessRecord(lines[i], select, condition, clause))
  }

  /** The texts written out. */
  function Emitted(rs: seq<RowResult>): seq<string> {
    if |rs| == 0 then []
    else
      var n := |rs| - 1;
      Emitted(rs[..n]) + if rs[n].Selected? then [rs[n].text] else []
  }

  /** The four row counters. */
  datatype Counters = Counters(valid: nat, invalid: nat, malformed: nat, tooShort: nat)

  function Tally(rs: seq<RowResult>): Counters {
    if |rs| == 0 then Counters(0, 0, 0, 0)
    else
      var n := |rs| - 1;
      var c := Tally(rs[..n]);
      match rs[n]
      case Selected(_) => c.(valid := c.valid + 1)
      case Rejected => c.(invalid := c.invalid + 1)
      case Malformed => c.(malformed := c.malformed + 1)
      case TooShort => c.(tooShort := c.tooShort + 1)
  }

  /** Every row consumed moves exactly one counter: the valid ones are the rows written, and the other three
      count the rows rejected, malformed and too short. */
  lemma {:induction false} CountersConserveRows(rs: seq<RowResult>)
    ensures var c := Tally(rs);
            && c.valid + c.invalid + c.malformed + c.tooShort == |rs| && c.valid == |Emitted(rs)|
            && c.invalid == multiset(rs)[Rejected] && c.malformed == multiset(rs)[Malformed]
            && c.tooShort == multiset(rs)[TooShort]
  {
    if |rs| > 0 {
      var n := |rs| - 1;
      var before, r := rs[..n], rs[n];
      CountersConserveRows(before);
      assert rs == before + [r];
      EmittedSnoc(before, r);
      hide Emitted, Tally;
      assert multiset(rs) == multiset(before) + multiset{r};
    }
  }

  lemma NoneEmitted()
    ensures Emitted([]) == []
  {
  }

  /** The rows written are those selected, in order, each with its own text. */
  lemma {:induction false} EmittedInOrder(a: seq<RowResult>, b: seq<RowResult>)
    ensures Emitted(a + b) == Emitted(a) + Emitted(b)
    ensures |b| == 1 ==> Emitted(b) == EmittedOne(b[0])
    decreases |b|
  {
    if |b| == 0 {
      assert a + b == a;
    } else {
      var n := |b| - 1;
      var c, x := b[..n], b[n];
      EmittedInOrder(a, c);
      NoneEmitted();
      assert a + b == (a + c) + [x] && b == c + [x];
      EmittedOneMore(a + c, x);
      EmittedOneMore(c, x);
      hide *;
      ConcatAssociates(Emitted(a), Emitted(c), EmittedOne(x));
    }
  }

  function EmittedOne(r: RowResult): seq<string> {
    if r.Selected? then [r.text] else []
  }

  lemma EmittedOneMore(rs: seq<RowResult>, r: RowResult)
    ensures Emitted(rs + [r]) == Emitted(rs) + EmittedOne(r)
  {
    assert (rs + [r])[..|rs|] == rs;
  }

  /** What becomes of any record under any where-clause: short rows are counted, then the clause is
      evaluated, which may raise, and what passes is projected, which may raise too. */
  lemma RecordsAreDecided(line: string, select: seq<int>, condition: string, clause: Clause)
    requires |condition| > 0
    ensures var row := Split(line, ',');
            ProcessRecord(line, select, condition, clause) ==
            if |row| < MaxCol(clause) then TooShort
            else if Raises(clause, row) then Malformed
            else if !Means(clause, row) then Rejected
            else if exists i :: 0 <= i < |select| && select[i] < 0 then Malformed
            else Selected(if |select| == 0 then line else Join(Picked(row, select), ","))
  {
    hide Split, IsValid, Means, Raises, Picked, Join, MaxCol;
    EvaluationExactly(clause, Split(line, ','));
  }

  /** On rows with more fields than the maximum column, and no negative column anywhere, a record is
      never malformed or too short: it is written, projected, exactly when the clause holds of it. */
  lemma LongRowsAreDecided(line: string, select: seq<int>, condition: string, clause: Clause)
    requires |condition| > 0 && |Split(line, ',')| > MaxCol(clause) && NoNegativeColumn(clause)
    requires forall i :: 0 <= i < |select| ==> select[i] >= 0
    ensures var row := Split(line, ',');
            ProcessRecord(line, select, condition, clause) ==
            if !Means(clause, row) then Rejected
            else Selected(if |select| == 0 then line else Join(Picked(row, select), ","))
  {
    hide ProcessRecord, Split, Means, Raises, Picked, Join, MaxCol;
    RecordsAreDecided(line, select, condition, clause);
    OnlyShortRowsRaise(clause, Split(line, ','));
  }

  /** Without negative columns only rows that lack a column of the clause can raise. */
  lemma OnlyShortRowsRaise(clause: Clause, row: seq<string>)
    requires NoNegativeColumn(clause)
    ensures Raises(clause, row) ==> |row| <= MaxCol(clause)
  {
    hide IsValid, Means, Raises;
    MaxColIsNatural(clause);
    if |row| > MaxCol(clause) {
      MaxColDecidesColumns(clause, |row|);
      EvaluationIsMeaning(clause, row);
      EvaluationExactly(clause, row);
    }
  }

  /** The guard against short rows is one short. Rows with fewer fields than the last column's index are
      counted as short; rows that lack just that column get to the clause, and are malformed exactly when
      evaluation reaches a leaf they have no field for. No other row is malformed. */
  lemma GuardIsOneShort(line: string, select: seq<int>, condition: string, clause: Clause)
    requires |condition| > 0 && NoNegativeColumn(clause)
    requires forall i :: 0 <= i < |select| ==> select[i] >= 0
    ensures var row, result := Split(line, ','), ProcessRecord(line, select, condition, clause);
            && (result == TooShort <==> |row| < MaxCol(clause))
            && (result == Malformed <==> |row| == MaxCol(clause) && Raises(clause, row))
            && (result == Rejected <==> |row| >= MaxCol(clause) && !Raises(clause, row) && !Means(clause, row))
  {
    hide ProcessRecord, Split, Means, Raises, Picked, Join, MaxCol;
    RecordsAreDecided(line, select, condition, clause);
    OnlyShortRowsRaise(clause, Split(line, ','));
  }

  /** A row of three fields under clauses whose last column is the fourth: a leaf raises, an And may reject
      the row before it gets there, and an Or may accept it. */
  lemma OneShortWitnesses(condition: string)
    requires |condition| > 0
    ensures var last := Leaf(EqualTo, 3, "y");
            && ProcessRecord("a,b,c", [], condition, last) == Malformed
            && ProcessRecord("a,b,c", [], condition, And([Leaf(EqualTo, 0, "x"), last])) == Rejected
            && ProcessRecord("a,b,c", [], condition, Or([Leaf(EqualTo, 0, "a"), last])) == Selected("a,b,c")
  {
    ThreeFields();
    hide Split;
    var last, row := Leaf(EqualTo, 3, "y"), ["a", "b", "c"];
    ShortPair(Leaf(EqualTo, 0, "x"), last, row);
    ShortPair(Leaf(EqualTo, 0, "a"), last, row);
    assert IsValid(Leaf(EqualTo, 0, "x"), row) == Answer(false) && IsValid(Leaf(EqualTo, 0, "a"), row) == Answer(true);
  }

  lemma ShortPair(a: Clause, b: Clause, row: seq<string>)
    ensures MaxCol(a) >= 0 ==> MaxColOf([a, b]) == if MaxCol(a) > MaxCol(b) then MaxCol(a) else MaxCol(b)
    ensures AllValid([a, b], row) == if IsValid(a, row) == Answer(true) then IsValid(b, row) else IsValid(a, row)
    ensures AnyValid([a, b], row) == if IsValid(a, row) == Answer(false) then IsValid(b, row) else IsValid(a, row)
  {
    hide IsValid, MaxCol;
    var both := [a, b];
    assert both[1..] == [b] && [b][1..] == [];
    assert MaxColOf([]) == 0 && AllValid([], row) == Answer(true) && AnyValid([], row) == Answer(false);
    assert AllValid([b], row) == AnyValid([b], row) == IsValid(b, row);
    assert MaxColOf([b]) == if MaxCol(b) > 0 then MaxCol(b) else 0;
  }

  lemma ThreeFields()
    ensures Split("a,b,c", ',') == ["a", "b", "c"]
  {
    PiecesWithoutSeparator("c", ',');
    PiecesOfPrefix("b", ",c", ',');
    PiecesOfPrefix("a", ",b,c", ',');
    assert ",c"[1..] == "c" && ",b,c"[1..] == "b" + ",c" && "a,b,c" == "a" + ",b,c";
    assert "a" + "" == "a" && "b" + "" == "b";
    assert Pieces(",c", ',') == ["", "c"];
    assert Pieces("b" + ",c", ',') == ["b", "c"];
    assert Pieces(",b,c", ',') == ["", "b", "c"];
    assert Pieces("a" + ",b,c", ',') == ["a", "b", "c"];
  }

  /** Without a where-clause every record is written, projected if columns were chosen; a negative column
      makes it malformed. */
  lemma WithoutCondition(line: string, select: seq<int>)
    ensures ProcessRecord(line, select, "", Empty) ==
            if |select| == 0 then Selected(line)
            else if exists i :: 0 <= i < |select| && select[i] < 0 then Malformed
            else Selected(Join(Picked(Split(line, ','), select), ","))
  {
    hide Split, Picked, Join;
  }

  /** With every selected column in the row, the projection is those columns in the order they were asked for. */
  lemma {:induction false} PickedInOrder(row: seq<string>, select: seq<int>)
    requires forall i :: 0 <= i < |select| ==> 0 <= select[i] < |row|
    ensures |Picked(row, select)| == |select| && forall i :: 0 <= i < |select| ==>
              Picked(row, select)[i] == row[select[i]]
  {
    if |select| > 0 {
      PickedInOrder(row, select[..|select| - 1]);
    }
  }

  /** Selections add up, a column the row has gives its field, and one past the end of the row gives nothing,
      so that no comma is written for it either. */
  lemma {:induction false} PickedOneByOne(row: seq<string>, a: seq<int>, b: seq<int>)
    requires forall i :: 0 <= i < |a| ==> a[i] >= 0
    requires forall i :: 0 <= i < |b| ==> b[i] >= 0
    ensures forall i :: 0 <= i < |a + b| ==> (a + b)[i] >= 0
    ensures Picked(row, a + b) == Picked(row, a) + Picked(row, b)
    ensures |b| == 1 ==> Picked(row, b) == FieldAt(row, b[0])
    decreases |b|
  {
    if |b| == 0 {
      assert a + b == a;
    } else {
      var n := |b| - 1;
      var c, x := b[..n], b[n];
      PickedOneByOne(row, a, c);
      assert a + b == (a + c) + [x] && b == c + [x];
      assert Picked(row, []) == [];
      PickedSnoc(row, a + c, x);
      PickedSnoc(row, c, x);
      hide *;
      ConcatAssociates(Picked(row, a), Picked(row, c), FieldAt(row, x));
    }
  }

  /** The field of a column the row has; nothing for a column past its end. */
  function FieldAt(row: seq<string>, column: int): seq<string>
    requires column >= 0
  {
    if column < |row| then [row[column]] else []
  }

  lemma PickedSnoc(row: seq<string>, a: seq<int>, x: int)
    requires x >= 0 && forall i :: 0 <= i < |a| ==> a[i] >= 0
    ensures forall i :: 0 <= i < |a + [x]| ==> (a + [x])[i] >= 0
    ensures Picked(row, a + [x]) == Picked(row, a) + FieldAt(row, x)
  {
    assert (a + [x])[..|a|] == a;
  }

  /** A query without a where-clause, or with a blank one, never fails over the clause. */
  lemma BlankConditionParses(q: Query)
    requires forall i :: 0 <= i < |q.whereText| ==> q.whereText[i] <= ' '
    ensures WhereClause(q) == "" && ParseClause(WhereClause(q)) == Ok(Empty)
  {
    BlankIsTrimmed(q.whereText);
    BlankIsTrimmed("");
  }

  // ---- One range ----

  /** How an invocation ends: with an exception before any record is read, or with its output. */
  datatype Outcome = Failed | Done(output: string, counters: Counters)

  /** The records a range looks at: a later partition drops the line it starts in, and every range goes
      on up to two bytes past its last byte. */
  function RangeLines(stream: string, length: int, first: bool): seq<string> {
    LinesFrom(stream, FirstStart(stream, 0, first), length + 2)
  }

  method Invoke(stream: string, start: int, end: int, first: bool, q: Query) returns (res: Outcome)
    ensures res == Failed <==> ParseClause(WhereClause(q)).Raised? || (!first && |stream| == 0)
    ensures res.Done? ==>
              var results := ProcessAll(RangeLines(stream, end - start, first), q.select, WhereClause(q),
                                        ParseClause(WhereClause(q)).value);
              res.output == Text(Emitted(results)) && res.counters == Tally(results)
  {
    hide ProcessRecord, RecordAt, LineEnd, Text, ParseClause, WhereClause, Emitted, Tally, ProcessAll, LinesFrom;
    var condition := WhereClause(q);
    var parsed := ParseClause(condition);
    if parsed.Raised? { return Failed; }
    var theClause := parsed.value;
    var pos := 0;
    var rangeBytesLeft := end - start + 1;
    ghost var length := end - start;
    if !first {
      if |stream| == 0 { return Failed; }
      RecordLength(stream, 0);
      rangeBytesLeft := rangeBytesLeft - (|RecordAt(stream, 0)| + 1);
      pos := NextLine(stream, 0);
    }
    var output := "";
    var validCount, invalidCount, probablyMalformedLines, lineWithoutEnoughFields := 0, 0, 0, 0;
    ghost var lines: seq<string> := [];
    ghost var all := RangeLines(stream, length, first);
    ghost var results := ProcessAll(lines, q.select, condition, theClause);
    NothingProcessed(q.select, condition, theClause);
    while pos < |stream| && rangeBytesLeft >= -1
      invariant rangeBytesLeft == length + 1 - pos
      invariant lines + LinesFrom(stream, pos, length + 2) == all
      invariant results == ProcessAll(lines, q.select, condition, theClause)
      invariant output == Text(Emitted(results))
      invariant Counters(validCount, invalidCount, probablyMalformedLines, lineWithoutEnoughFields) == Tally(results)
      decreases |stream| - pos
    {
      var line := RecordAt(stream, pos);
      RecordLength(stream, pos);
      rangeBytesLeft := rangeBytesLeft - (|line| + 1);
      ReadOne(stream, pos, length + 2, lines, line);
      pos := NextLine(stream, pos);
      var result := ProcessRecord(line, q.select, condition, theClause);
      ProcessSnoc(lines, line, q.select, condition, theClause);
      EmittedSnoc(results, result);
      match result {
        case TooShort => lineWithoutEnoughFields := lineWithoutEnoughFields + 1;
        case Malformed => probablyMalformedLines := probablyMalformedLines + 1;
        case Rejected => invalidCount := invalidCount + 1;
        case Selected(text) =>
          output := output + text + "\n";
          TextSnoc(Emitted(results), text);
          validCount := validCount + 1;
      }
      lines, results := lines + [line], results + [result];
    }
    NothingLeft(stream, pos, length + 2, lines);
    res := Done(output, Counters(validCount, invalidCount, probablyMalformedLines, lineWithoutEnoughFields));
  }

  lemma NothingProcessed(select: seq<int>, condition: string, clause: Clause)
    ensures var rs := ProcessAll([], select, condition, clause);
            Text(Emitted(rs)) == "" && Tally(rs) == Counters(0, 0, 0, 0)
  {
  }

  lemma NothingLeft(stream: string, pos: nat, hi: int, lines: seq<string>)
    requires pos >= |stream| || pos > hi
    ensures lines + LinesFrom(stream, pos, hi) == lines
  {
  }

  lemma ReadOne(stream: string, pos: nat, hi: int, lines: seq<string>, line: string)
    requires pos < |stream| && pos <= hi && line == RecordAt(stream, pos)
    ensures lines + LinesFrom(stream, pos, hi) == lines + [line] + LinesFrom(stream, NextLine(stream, pos), hi)
  {
    hide RecordAt, LineEnd;
  }

  lemma ProcessSnoc(lines: seq<string>, line: string, select: seq<int>, condition: string, clause: Clause)
    ensures ProcessAll(lines + [line], select, condition, clause)
         == ProcessAll(lines, select, condition, clause) + [ProcessRecord(line, select, condition, clause)]
  {
    hide ProcessRecord;
  }

  lemma EmittedSnoc(rs: seq<RowResult>, r: RowResult)
    ensures r.Selected? ==> Emitted(rs + [r]) == Emitted(rs) + [r.text]
    ensures !r.Selected? ==> Emitted(rs + [r]) == Emitted(rs)
    ensures var c := Tally(rs);
            Tally(rs + [r]) ==
            match r
            case Selected(_) => c.(valid := c.valid + 1)
            case Rejected => c.(invalid := c.invalid + 1)
            case Malformed => c.(malformed := c.malformed + 1)
            case TooShort => c.(tooShort := c.tooShort + 1)
  {
    assert (rs + [r])[..|rs|] == rs;
  }
}
