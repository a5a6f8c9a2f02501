/** The where-clause of a CSV query: the tree, its parser and its evaluation on a row. */
module Clauses {
  import opened Basics
  import opened JavaText
  import opened CommaHiding

  datatype LeafOp = EqualTo | NotEqualTo | StartsWith | EndsWith | Contains

  datatype Clause =
    | Empty
    | Leaf(op: LeafOp, column: int, operand: string)
    | And(children: seq<Clause>)
    | Or(children: seq<Clause>)

  // ---- Parsing ----

  function Label(op: LeafOp): string {
    match op
    case EqualTo => "EqualTo"
    case NotEqualTo => "NotEqualTo"
    case StartsWith => "StringStartsWith"
    case EndsWith => "StringEndsWith"
    case Contains => "StringContains"
  }

  function OpOf(s: string): Option<LeafOp> {
    if Label(EqualTo) <= s then Some(EqualTo)
    else if Label(NotEqualTo) <= s then Some(NotEqualTo)
    else if Label(StartsWith) <= s then Some(StartsWith)
    else if Label(EndsWith) <= s then Some(EndsWith)
    else if Label(Contains) <= s then Some(Contains)
    else None
  }

  /** LeafClause.parse. Every array or substring access that Java would reject raises. */
  function ParseLeaf(s: string): Result<Clause> {
    match OpOf(s)
    case None => Raised
    case Some(op) =>
      var ops := if Label(op) <= s then Split(s[|Label(op)|..], ',') else [];
      if |ops| == 0 || |ops[0]| == 0 then Raised
      else
        match ParseInt(ops[0][1..])
        case None => Raised
        case Some(column) =>
          if |ops| < 2 || |ops[1]| == 0 then Raised
          else Ok(Leaf(op, column, ops[1][..|ops[1]| - 1]))
  }

  /** The text between the brackets of `And(...)` or `Or(...)`, found by position only; `None` when Java's
      substring rejects it. */
  function Inside(s: string, opLabel: string): (r: Option<string>)
    ensures r.Some? ==> |r.value| < |s|
  {
    if |opLabel| + 1 > |s| - 1 then None else Some(s[|opLabel| + 1..|s| - 1])
  }

  function ParseClause(s: string): Result<Clause>
    decreases |s|, 3
  {
    var text := Trim(s);
    if |text| == 0 then Ok(Empty)
    else
      var parts := Split(text, ' ');
      if |parts| > 1 then
        PieceLengths(text, ' ');
        var children := ParseChildren(parts, |s|);
        if children.Ok? then Ok(And(children.value)) else Raised
      else if |parts| == 0 then Raised
      else
        PieceLengths(text, ' ');
        ParseWord(parts[0], |s|)
  }

  /** A clause without spaces: a bracketed list or a leaf. */
  function ParseWord(s: string, ghost bound: nat): Result<Clause>
    requires |s| <= bound
    decreases bound, 2
  {
    if "Or" <= s then
      var children := ParseArguments(s, "Or", bound);
      if children.Ok? then Ok(Or(children.value)) else Raised
    else if "And" <= s then
      var children := ParseArguments(s, "And", bound);
      if children.Ok? then Ok(And(children.value)) else Raised
    else
      ParseLeaf(s)
  }

  function ParseArguments(s: string, opLabel: string, ghost bound: nat): Result<seq<Clause>>
    requires |s| <= bound
    decreases bound, 1
  {
    match Inside(s, opLabel)
    case None => Raised
    case Some(inside) =>
      var parts := Arguments(inside);
      if |parts| < 2 then Raised
      else
        ArgumentsShrink(inside);
        ParseChildren(parts, bound)
  }

  function ParseChildren(parts: seq<string>, ghost bound: nat): Result<seq<Clause>>
    requires forall i :: 0 <= i < |parts| ==> |parts[i]| < bound
    decreases bound, 0, |parts|
  {
    if |parts| == 0 then Ok([])
    else
      var first := ParseClause(parts[0]);
      if first.Raised? then Raised
      else
        var rest := ParseChildren(parts[1..], bound);
        if rest.Raised? then Raised else Ok([first.value] + rest.value)
  }

  /** Every And and Or has at least two children, and every column is an int. */
  predicate Shaped(c: Clause) {
    match c
    case Empty => true
    case Leaf(_, column, _) => MIN_INT <= column <= MAX_INT
    case And(children) => |children| >= 2 && forall i :: 0 <= i < |children| ==> Shaped(children[i])
    case Or(children) => |children| >= 2 && forall i :: 0 <= i < |children| ==> Shaped(children[i])
  }

  /** Whatever text is parsed, a clause that comes out is shaped. */
  lemma {:induction false} ParsedIsShaped(s: string)
    ensures ParseClause(s).Ok? ==> Shaped(ParseClause(s).value)
    decreases |s|, 3
  {
    var text := Trim(s);
    if |text| > 0 {
      var parts := Split(text, ' ');
      PieceLengths(text, ' ');
      hide Split, Trim, ParseWord;
      if |parts| > 1 {
        ChildrenAreShaped(parts, |s|);
      } else if |parts| == 1 {
        WordIsShaped(parts[0], |s|);
      }
    }
  }

  lemma {:induction false} WordIsShaped(s: string, bound: nat)
    requires |s| <= bound
    ensures ParseWord(s, bound).Ok? ==> Shaped(ParseWord(s, bound).value)
    decreases bound, 2
  {
    hide ParseArguments;
    ArgumentsAreShaped(s, "Or", bound);
    ArgumentsAreShaped(s, "And", bound);
  }

  lemma {:induction false} ArgumentsAreShaped(s: string, opLabel: string, bound: nat)
    requires |s| <= bound
    ensures var r := ParseArguments(s, opLabel, bound);
            r.Ok? ==> |r.value| >= 2 && forall i :: 0 <= i < |r.value| ==> Shaped(r.value[i])
    decreases bound, 1
  {
    hide Shaped, Arguments;
    var inside := Inside(s, opLabel);
    if inside.Some? {
      ArgumentsShrink(inside.value);
      ChildrenAreShaped(Arguments(inside.value), bound);
    }
  }

  lemma {:induction false} ChildrenAreShaped(parts: seq<string>, bound: nat)
    requires forall i :: 0 <= i < |parts| ==> |parts[i]| < bound
    ensures var r := ParseChildren(parts, bound);
            r.Ok? ==> |r.value| == |parts| && forall i :: 0 <= i < |r.value| ==> Shaped(r.value[i])
    decreases bound, 0, |parts|
  {
    hide Shaped, ParseClause;
    if |parts| > 0 {
      ParsedIsShaped(parts[0]);
      ChildrenAreShaped(parts[1..], bound);
    }
  }

  // ---- Evaluation ----

  function Holds(op: LeafOp, operand: string, field: string): bool {
    match op
    case EqualTo => operand == field
    case NotEqualTo => operand != field
    case StartsWith => |operand| == 0 || (|field| > 0 && operand <= field)
    case EndsWith => |operand| == 0 || (|field| > 0 && |operand| <= |field| && field[|field| - |operand|..] == operand)
    case Contains => |operand| == 0 || (|field| > 0 && Occurs(operand, field))
  }

  /** The verdict on a row, or the ArrayIndexOutOfBoundsException of a column the row does not have. */
  datatype Verdict = Answer(valid: bool) | OutOfBounds

  function IsValid(c: Clause, row: seq<string>): Verdict
    decreases c, 1
  {
    match c
    case Empty => Answer(true)
    case Leaf(op, column, operand) =>
      if 0 <= column < |row| then Answer(Holds(op, operand, row[column])) else OutOfBounds
    case And(children) => AllValid(children, row)
    case Or(children) => AnyValid(children, row)
  }

  function AllValid(cs: seq<Clause>, row: seq<string>): Verdict
    decreases cs, 0
  {
    if |cs| == 0 then Answer(true)
    else
      var first := IsValid(cs[0], row);
      if first == Answer(true) then AllValid(cs[1..], row) else first
  }

  function AnyValid(cs: seq<Clause>, row: seq<string>): Verdict
    decreases cs, 0
  {
    if |cs| == 0 then Answer(false)
    else
      var first := IsValid(cs[0], row);
      if first == Answer(false) then AnyValid(cs[1..], row) else first
  }

  function MaxCol(c: Clause): int
    decreases c, 1
  {
    match c
    case Empty => 0
    case Leaf(_, column, _) => column
    case And(children) => MaxColOf(children)
    case Or(children) => MaxColOf(children)
  }

  function MaxColOf(cs: seq<Clause>): (m: int)
    ensures m >= 0
    decreases cs, 0
  {
    if |cs| == 0 then 0
    else
      var first, rest := MaxCol(cs[0]), MaxColOf(cs[1..]);
      if first > rest then first else rest
  }

  // ---- The meaning of a clause, without evaluation order ----

  ghost predicate FieldMeets(op: LeafOp, operand: string, field: string) {
    match op
    case EqualTo => field == operand
    case NotEqualTo => field != operand
    case StartsWith => exists after :: field == operand + after
    case EndsWith => exists before :: field == before + operand
    case Contains => exists before, after :: field == before + operand + after
  }

  ghost predicate Means(c: Clause, row: seq<string>) {
    match c
    case Empty => true
    case Leaf(op, column, operand) => 0 <= column < |row| && FieldMeets(op, operand, row[column])
    case And(children) => forall i :: 0 <= i < |children| ==> Means(children[i], row)
    case Or(children) => exists i :: 0 <= i < |children| && Means(children[i], row)
  }

  /** Every column the clause names exists in a row of `n` fields. */
  predicate ColumnsIn(c: Clause, n: int) {
    match c
    case Empty => true
    case Leaf(_, column, _) => 0 <= column < n
    case And(children) => forall i :: 0 <= i < |children| ==> ColumnsIn(children[i], n)
    case Or(children) => forall i :: 0 <= i < |children| ==> ColumnsIn(children[i], n)
  }

  predicate NoNegativeColumn(c: Clause) {
    match c
    case Empty => true
    case Leaf(_, column, _) => 0 <= column
    case And(children) => forall i :: 0 <= i < |children| ==> NoNegativeColumn(children[i])
    case Or(children) => forall i :: 0 <= i < |children| ==> NoNegativeColumn(children[i])
  }

  lemma HoldsIsFieldMeets(op: LeafOp, operand: string, field: string)
    ensures Holds(op, operand, field) <==> FieldMeets(op, operand, field)
  {
    match op
    case EqualTo =>
    case NotEqualTo =>
    case StartsWith =>
      if Holds(op, operand, field) {
        assert field == operand + field[|operand|..];
      }
    case EndsWith =>
      if Holds(op, operand, field) {
        var n := |field| - |operand|;
        assert field == field[..n] + operand;
      }
      forall before | field == before + operand ensures Holds(op, operand, field) {
        assert field[|field| - |operand|..] == operand;
      }
    case Contains =>
      if Holds(op, operand, field) {
        ContainedIsFound(operand, field);
      }
      forall before, after | field == before + operand + after ensures Holds(op, operand, field) {
        assert field[|before|..] == operand + after;
      }
  }

  lemma ContainedIsFound(operand: string, field: string)
    requires Occurs(operand, field) || |operand| == 0
    ensures FieldMeets(Contains, operand, field)
  {
    if |operand| == 0 {
      assert field == "" + operand + field;
    } else {
      var i :| 0 <= i <= |field| && operand <= field[i..];
      assert field == field[..i] + operand + field[i + |operand|..];
    }
  }

  /** Whenever evaluation answers, the answer is the meaning; it answers whenever the columns exist. */
  lemma {:induction false} EvaluationIsMeaning(c: Clause, row: seq<string>)
    ensures IsValid(c, row).Answer? ==> IsValid(c, row).valid == Means(c, row)
    ensures ColumnsIn(c, |row|) ==> IsValid(c, row).Answer?
    decreases c, 1
  {
    match c
    case Empty =>
    case Leaf(op, column, operand) =>
      if 0 <= column < |row| {
        HoldsIsFieldMeets(op, operand, row[column]);
      }
    case And(children) => AllValidIsMeaning(children, row);
    case Or(children) => AnyValidIsMeaning(children, row);
  }

  lemma {:induction false} AllValidIsMeaning(cs: seq<Clause>, row: seq<string>)
    ensures AllValid(cs, row).Answer? ==> AllValid(cs, row).valid == (forall i :: 0 <= i < |cs| ==> Means(cs[i], row))
    ensures (forall i :: 0 <= i < |cs| ==> ColumnsIn(cs[i], |row|)) ==> AllValid(cs, row).Answer?
    decreases cs, 0
  {
    if |cs| > 0 {
      EvaluationIsMeaning(cs[0], row);
      AllValidIsMeaning(cs[1..], row);
      assert forall i :: 1 <= i < |cs| ==> cs[i] == cs[1..][i - 1];
    }
  }

  lemma {:induction false} AnyValidIsMeaning(cs: seq<Clause>, row: seq<string>)
    ensures AnyValid(cs, row).Answer? ==> AnyValid(cs, row).valid == (exists i :: 0 <= i < |cs| && Means(cs[i], row))
    ensures (forall i :: 0 <= i < |cs| ==> ColumnsIn(cs[i], |row|)) ==> AnyValid(cs, row).Answer?
    decreases cs, 0
  {
    if |cs| > 0 {
      EvaluationIsMeaning(cs[0], row);
      AnyValidIsMeaning(cs[1..], row);
      assert forall i :: 1 <= i < |cs| ==> cs[i] == cs[1..][i - 1];
    }
  }

  // ---- Which rows make evaluation raise ----

  /** Evaluation reads a column the row does not have: a leaf of its own accord, an And once all children
      before hold, an Or once all children before fail. */
  ghost predicate Raises(c: Clause, row: seq<string>)
    decreases c, 1
  {
    match c
    case Empty => false
    case Leaf(_, column, _) => !(0 <= column < |row|)
    case And(children) => ScanRaises(children, row, true)
    case Or(children) => ScanRaises(children, row, false)
  }

  /** Some child raises, and all children before it answer `go`. */
  ghost predicate ScanRaises(cs: seq<Clause>, row: seq<string>, go: bool)
    decreases cs, 0
  {
    exists i :: 0 <= i < |cs| && Raises(cs[i], row) &&
      forall j :: 0 <= j < i ==> !Raises(cs[j], row) && Means(cs[j], row) == go
  }

  lemma ScanGoesOn(cs: seq<Clause>, rest: seq<Clause>, row: seq<string>, go: bool)
    requires |cs| > 0 && rest == cs[1..] && !Raises(cs[0], row)
    ensures ScanRaises(cs, row, go) ==> Means(cs[0], row) == go && ScanRaises(rest, row, go)
  {
    hide Raises, Means;
    if ScanRaises(cs, row, go) {
      var i :| 0 <= i < |cs| && Raises(cs[i], row) &&
        forall j :: 0 <= j < i ==> !Raises(cs[j], row) && Means(cs[j], row) == go;
      assert forall j :: 0 <= j < |rest| ==> rest[j] == cs[j + 1];
      assert Raises(rest[i - 1], row);
    }
  }

  lemma ScanComesFrom(cs: seq<Clause>, rest: seq<Clause>, row: seq<string>, go: bool)
    requires |cs| > 0 && rest == cs[1..] && !Raises(cs[0], row) && Means(cs[0], row) == go && ScanRaises(rest, row, go)
    ensures ScanRaises(cs, row, go)
  {
    hide Raises, Means;
    var i :| 0 <= i < |rest| && Raises(rest[i], row) &&
      forall j :: 0 <= j < i ==> !Raises(rest[j], row) && Means(rest[j], row) == go;
    forall j | 0 <= j < i + 1 ensures !Raises(cs[j], row) && Means(cs[j], row) == go {
      if j > 0 {
        assert cs[j] == rest[j - 1];
      }
    }
    assert Raises(cs[i + 1], row);
  }

  lemma ScanRaisesLater(cs: seq<Clause>, row: seq<string>, go: bool)
    requires |cs| > 0
    ensures ScanRaises(cs, row, go) <==> Raises(cs[0], row) || (Means(cs[0], row) == go && ScanRaises(cs[1..], row, go))
  {
    hide Raises, Means;
    if !Raises(cs[0], row) {
      hide ScanRaises;
      ScanGoesOn(cs, cs[1..], row, go);
      if Means(cs[0], row) == go && ScanRaises(cs[1..], row, go) {
        ScanComesFrom(cs, cs[1..], row, go);
      }
    }
  }

  /** What evaluation does with any clause and any row: it raises exactly where `Raises` says, and answers
      the meaning everywhere else. */
  lemma {:induction false} EvaluationExactly(c: Clause, row: seq<string>)
    ensures IsValid(c, row) == if Raises(c, row) then OutOfBounds else Answer(Means(c, row))
    decreases c, 1
  {
    EvaluationIsMeaning(c, row);
    hide Means, ScanRaises;
    match c
    case Empty =>
    case Leaf(_, _, _) =>
    case And(children) => AllValidExactly(children, row);
    case Or(children) => AnyValidExactly(children, row);
  }

  lemma {:induction false} AllValidExactly(cs: seq<Clause>, row: seq<string>)
    ensures AllValid(cs, row) == OutOfBounds <==> ScanRaises(cs, row, true)
    decreases cs, 0
  {
    if |cs| > 0 {
      hide Raises, Means, ScanRaises;
      EvaluationExactly(cs[0], row);
      AllValidExactly(cs[1..], row);
      ScanRaisesLater(cs, row, true);
    }
  }

  lemma {:induction false} AnyValidExactly(cs: seq<Clause>, row: seq<string>)
    ensures AnyValid(cs, row) == OutOfBounds <==> ScanRaises(cs, row, false)
    decreases cs, 0
  {
    if |cs| > 0 {
      hide Raises, Means, ScanRaises;
      EvaluationExactly(cs[0], row);
      AnyValidExactly(cs[1..], row);
      ScanRaisesLater(cs, row, false);
    }
  }

  /** The maximum column tells exactly which non-empty rows have every column the clause reads. */
  lemma {:induction false} MaxColDecidesColumns(c: Clause, n: int)
    requires NoNegativeColumn(c) && n > 0
    ensures MaxCol(c) < n <==> ColumnsIn(c, n)
    decreases c, 1
  {
    match c
    case Empty =>
    case Leaf(_, _, _) =>
    case And(children) => MaxColOfDecidesColumns(children, n);
    case Or(children) => MaxColOfDecidesColumns(children, n);
  }

  lemma {:induction false} MaxColOfDecidesColumns(cs: seq<Clause>, n: int)
    requires (forall i :: 0 <= i < |cs| ==> NoNegativeColumn(cs[i])) && n > 0
    ensures MaxColOf(cs) < n <==> forall i :: 0 <= i < |cs| ==> ColumnsIn(cs[i], n)
    decreases cs, 0
  {
    if |cs| > 0 {
      MaxColDecidesColumns(cs[0], n);
      MaxColOfDecidesColumns(cs[1..], n);
      assert forall i :: 1 <= i < |cs| ==> cs[i] == cs[1..][i - 1];
    }
  }

  lemma MaxColIsNatural(c: Clause)
    requires NoNegativeColumn(c)
    ensures MaxCol(c) >= 0
  {
  }

  // ---- The memo of Clause.getMaxCol ----

  const UNINITIALIZED := -12345

  /** An And or Or object: children are appended, and the maximum column is computed once. */
  class CompoundClause {
    var children: seq<Clause>
    var maxCol: int

    /** The memo, once set, is what recomputing would give. */
    ghost predicate Valid()
      reads this
    {
      maxCol == UNINITIALIZED || maxCol == MaxColOf(children)
    }

    constructor ()
      ensures Valid() && children == [] && maxCol == UNINITIALIZED
    {
      children, maxCol := [], UNINITIALIZED;
    }

    /** A memo that was already taken survives exactly the children that do not exceed it. */
    method AddChild(child: Clause)
      requires Valid()
      modifies this
      ensures children == old(children) + [child] && maxCol == old(maxCol)
      ensures Valid() <==> maxCol == UNINITIALIZED || MaxCol(child) <= maxCol
    {
      children := children + [child];
      MaxColOfSnoc(old(children), child);
    }

    method GetMaxCol() returns (m: int)
      requires Valid()
      modifies this`maxCol
      ensures m == MaxColOf(children) == maxCol && Valid()
    {
      if maxCol == UNINITIALIZED {
        maxCol := 0;
        var i := 0;
        assert children[..0] == [];
        while i < |children|
          invariant 0 <= i <= |children| && maxCol == MaxColOf(children[..i])
        {
          var newVal := MaxCol(children[i]);
          MaxColOfSnoc(children[..i], children[i]);
          assert children[..i + 1] == children[..i] + [children[i]];
          if newVal > maxCol {
            maxCol := newVal;
          }
          i := i + 1;
        }
        assert children[..i] == children;
      }
      m := maxCol;
    }
  }

  lemma {:induction false} MaxColOfSnoc(cs: seq<Clause>, c: Clause)
    ensures MaxColOf(cs + [c]) == if MaxCol(c) > MaxColOf(cs) then MaxCol(c) else MaxColOf(cs)
    decreases |cs|
  {
    hide MaxCol;
    if |cs| == 0 {
      assert cs + [c] == [c];
    } else {
      assert (cs + [c])[1..] == cs[1..] + [c];
      MaxColOfSnoc(cs[1..], c);
    }
  }
}
