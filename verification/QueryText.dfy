/** The where-clause parameter of a request, where spaces may be written XYZYX. */
module QueryText {
  import opened Basics
  import opened JavaText
  import opened Clauses
  import opened ClausePrinting
  import opened CsvStorlet

  /** Replacing passes over text that does not hold the pattern and does not end in one of its letters. */
  lemma {:induction false} ReplaceSkips(p: string, y: string)
    requires |p| > 0 && p[|p| - 1] !in SPACE_MARK && !Occurs(SPACE_MARK, p)
    ensures ReplaceAll(p + y, SPACE_MARK, " ") == p + ReplaceAll(y, SPACE_MARK, " ")
    decreases |p|
  {
    MarkNotAtFront(p, y);
    var rest := p[1..];
    assert (p + y)[1..] == rest + y;
    if |rest| > 0 {
      NotInSuffix(p);
      hide ReplaceAll, Occurs;
      ReplaceSkips(rest, y);
      ReplaceChar(p, y);
      assert [p[0]] + (rest + ReplaceAll(y, SPACE_MARK, " ")) == p + ReplaceAll(y, SPACE_MARK, " ");
    } else {
      assert rest + y == y;
    }
  }

  lemma ReplaceChar(p: string, y: string)
    requires |p| > 0 && !(SPACE_MARK <= p + y)
    ensures ReplaceAll(p + y, SPACE_MARK, " ") == [p[0]] + ReplaceAll(p[1..] + y, SPACE_MARK, " ")
  {
    assert (p + y)[1..] == p[1..] + y;
  }

  lemma MarkNotAtFront(p: string, y: string)
    requires |p| > 0 && p[|p| - 1] !in SPACE_MARK && !Occurs(SPACE_MARK, p)
    ensures !(SPACE_MARK <= p + y)
  {
    assert p[0..] == p;
    if |p| < |SPACE_MARK| {
      assert SPACE_MARK[|p| - 1] in SPACE_MARK && (p + y)[|p| - 1] == p[|p| - 1];
    }
  }

  lemma NotInSuffix(p: string)
    requires |p| > 0 && !Occurs(SPACE_MARK, p)
    ensures !Occurs(SPACE_MARK, p[1..])
  {
    if Occurs(SPACE_MARK, p[1..]) {
      SuffixOccurs(p);
    }
  }

  lemma SuffixOccurs(p: string)
    requires |p| > 0 && Occurs(SPACE_MARK, p[1..])
    ensures Occurs(SPACE_MARK, p)
  {
    var i :| 0 <= i <= |p[1..]| && SPACE_MARK <= p[1..][i..];
    assert p[1..][i..] == p[i + 1..];
  }

  lemma ReplaceMark(y: string)
    ensures ReplaceAll(SPACE_MARK + y, SPACE_MARK, " ") == " " + ReplaceAll(y, SPACE_MARK, " ")
  {
    assert (SPACE_MARK + y)[|SPACE_MARK|..] == y;
  }

  lemma {:induction false} MarksAreSpaces(ps: seq<string>)
    requires forall i :: 0 <= i < |ps| ==>
               |ps[i]| > 0 && ps[i][|ps[i]| - 1] !in SPACE_MARK && !Occurs(SPACE_MARK, ps[i])
    ensures ReplaceAll(Join(ps, SPACE_MARK), SPACE_MARK, " ") == Join(ps, " ")
  {
    if |ps| == 1 {
      ReplaceSkips(ps[0], "");
      assert ps[0] + "" == ps[0];
    } else if |ps| > 1 {
      hide ReplaceAll, Occurs;
      var tail := Join(ps[1..], SPACE_MARK);
      MarksAreSpaces(ps[1..]);
      assert ps[0] + SPACE_MARK + tail == ps[0] + (SPACE_MARK + tail);
      ReplaceSkips(ps[0], SPACE_MARK + tail);
      ReplaceMark(tail);
      assert ps[0] + (" " + Join(ps[1..], " ")) == ps[0] + " " + Join(ps[1..], " ");
    }
  }

  lemma PrintEndsInBracket(c: Clause)
    requires WellFormed(c)
    ensures |Print(c)| > 0 && Print(c)[0] > ' ' && Print(c)[|Print(c)| - 1] == ')'
  {
    hide Solid;
    PrintIsSolid(c);
    SolidStarts(Print(c));
  }

  lemma SolidStarts(s: string)
    requires Solid(s)
    ensures |s| > 0 && s[0] > ' '
  {
  }

  lemma {:induction false} JoinEnds(ps: seq<string>, sep: string)
    requires |ps| > 0 && forall i :: 0 <= i < |ps| ==> |ps[i]| > 0 && ps[i][0] > ' ' && ps[i][|ps[i]| - 1] == ')'
    ensures var s := Join(ps, sep);
            |s| > 0 && s[0] > ' ' && s[|s| - 1] > ' '
  {
    if |ps| > 1 {
      JoinEnds(ps[1..], sep);
    }
  }

  /** Clauses joined by XYZYX reach the parser as their conjunction. */
  lemma MarksMeanAnd(cs: seq<Clause>, select: seq<int>)
    requires |cs| >= 2
    requires forall i :: 0 <= i < |cs| ==> WellFormed(cs[i]) && !Occurs(SPACE_MARK, Print(cs[i]))
    ensures ParseClause(WhereClause(Query(select, Join(PrintEach(cs), "XYZYX")))) == Ok(And(cs))
  {
    hide Print, PrintEach, Join, ReplaceAll, Occurs, WellFormed, ParseClause, Trim;
    var ps := PrintEach(cs);
    forall i | 0 <= i < |ps|
      ensures |ps[i]| > 0 && ps[i][0] > ' ' && ps[i][|ps[i]| - 1] == ')' && !Occurs(SPACE_MARK, ps[i])
    {
      PrintEndsInBracket(cs[i]);
    }
    JoinEnds(ps, SPACE_MARK);
    NotTrimmed(Join(ps, SPACE_MARK));
    MarksAreSpaces(ps);
    SpacesMeanAnd(cs);
  }
}
