/** Printing a where-clause and parsing it back. */
module ClausePrinting {
  import opened Basics
  import opened JavaText
  import opened CommaHiding
  import opened Clauses

  function Print(c: Clause): string
    decreases c, 1
  {
    match c
    case Empty => ""
    case Leaf(op, column, operand) => Call(Label(op), IntText(column) + "," + operand)
    case And(children) => Call("And", Join(PrintEach(children), ","))
    case Or(children) => Call("Or", Join(PrintEach(children), ","))
  }

  function Call(name: string, inside: string): string {
    name + "(" + inside + ")"
  }

  function PrintEach(cs: seq<Clause>): (r: seq<string>)
    ensures |r| == |cs| && forall i :: 0 <= i < |r| ==> r[i] == Print(cs[i])
    decreases cs, 0
  {
    if |cs| == 0 then [] else [Print(cs[0])] + PrintEach(cs[1..])
  }

  /** Operands the textual form can carry: no separator, no token, brackets that cancel out. */
  predicate Printable(operand: string) {
    ' ' !in operand && ',' !in operand && Depth(operand, 0) == 0 && !Occurs(TOKEN, operand)
  }

  predicate WellFormed(c: Clause) {
    match c
    case Empty => false
    case Leaf(_, column, operand) => MIN_INT <= column <= MAX_INT && Printable(operand)
    case And(children) => |children| >= 2 && forall i :: 0 <= i < |children| ==> WellFormed(children[i])
    case Or(children) => |children| >= 2 && forall i :: 0 <= i < |children| ==> WellFormed(children[i])
  }

  // ---- A printed clause is one unbroken piece of text ----

  /** What printing a clause guarantees about its text: the text is not trimmed, holds no space and no
      token, keeps the bracket depth, and has every comma inside brackets. */
  ghost predicate Solid(s: string) {
    && |s| > 0 && s[0] > ' ' && s[|s| - 1] > ' ' && ' ' !in s
    && !Occurs(TOKEN, s)
    && forall d: nat :: Closed(s, d)
  }

  ghost predicate Closed(s: string, d: int) {
    Depth(s, d) == d && NoTopComma(s, d)
  }

  /** Read from depth `d`, every comma of `s` is inside brackets. */
  predicate NoTopComma(s: string, d: int) {
    |s| == 0 ||
    (var d' := d + DepthChange(s[0]); !(s[0] == ',' && d' <= 0) && NoTopComma(s[1..], d'))
  }

  lemma {:induction false} NoTopCommaConcat(x: string, y: string, d: int)
    ensures NoTopComma(x + y, d) <==> NoTopComma(x, d) && NoTopComma(y, Depth(x, d))
  {
    if |x| == 0 {
      assert x + y == y;
    } else {
      assert (x + y)[1..] == x[1..] + y;
      NoTopCommaConcat(x[1..], y, d + DepthChange(x[0]));
    }
  }

  lemma {:induction false} CommaFree(s: string, d: int)
    requires ',' !in s
    ensures NoTopComma(s, d)
  {
    if |s| > 0 {
      CommaFree(s[1..], d + DepthChange(s[0]));
    }
  }

  lemma {:induction false} DepthShifts(s: string, d: int)
    ensures Depth(s, d) == d + Depth(s, 0)
  {
    if |s| > 0 {
      DepthShifts(s[1..], d + DepthChange(s[0]));
      DepthShifts(s[1..], DepthChange(s[0]));
    }
  }

  lemma {:induction false} NoBrackets(s: string, d: int)
    requires forall i :: 0 <= i < |s| ==> DepthChange(s[i]) == 0
    ensures Depth(s, d) == d
  {
    if |s| > 0 {
      NoBrackets(s[1..], d);
    }
  }

  // ---- Where the token can occur ----

  lemma OccurrenceBringsLetters(s: string, c: char)
    requires c in TOKEN && Occurs(TOKEN, s)
    ensures c in s
  {
    var i :| 0 <= i <= |s| && TOKEN <= s[i..];
    var j :| 0 <= j < |TOKEN| && TOKEN[j] == c;
    assert s[i..][j] == c;
    assert s[i + j] == c;
  }

  /** An occurrence cannot straddle a character that is not in the token. */
  lemma TokenBesideSeparator(x: string, c: char, y: string)
    requires c !in TOKEN && !Occurs(TOKEN, x) && !Occurs(TOKEN, y)
    ensures !Occurs(TOKEN, x + [c] + y)
  {
    var s := x + [c] + y;
    if Occurs(TOKEN, s) {
      var i :| 0 <= i <= |s| && TOKEN <= s[i..];
      TokenSide(x, c, y, i);
    }
  }

  lemma TokenSide(x: string, c: char, y: string, i: nat)
    requires c !in TOKEN && i <= |x + [c] + y| && TOKEN <= (x + [c] + y)[i..]
    ensures Occurs(TOKEN, x) || Occurs(TOKEN, y)
  {
    var s := x + [c] + y;
    if i <= |x| {
      var k := |x| - i;
      assert s[i..][k] == c;
      assert k >= 8;
      assert s[i..][..8] == x[i..][..8];
      assert TOKEN <= x[i..];
    } else {
      var k := i - |x| - 1;
      assert s[i..] == y[k..];
    }
  }

  // ---- Printed clauses are solid ----

  /** An operator name: letters only, and not all the letters of the token. */
  predicate IsName(s: string) {
    |s| > 0 && '3' !in s && forall i :: 0 <= i < |s| ==> 'A' <= s[i] <= 'z' && s[i] != '[' && s[i] != ']'
  }

  /** Text that may stand between brackets. */
  ghost predicate Fits(inside: string) {
    ' ' !in inside && !Occurs(TOKEN, inside) && forall d: nat :: d > 0 ==> Closed(inside, d)
  }

  lemma CallIsSolid(name: string, inside: string)
    requires IsName(name) && Fits(inside)
    ensures Solid(Call(name, inside))
  {
    hide Occurs, Depth, NoTopComma;
    forall d: nat ensures Closed(Call(name, inside), d) {
      CallIsClosed(name, inside, d);
    }
    CallHasNoToken(name, inside);
  }

  lemma CallIsClosed(name: string, inside: string, d: nat)
    requires IsName(name) && Closed(inside, d + 1)
    ensures Closed(Call(name, inside), d)
  {
    NoBrackets(name, d);
    CommaFree(name, d);
    hide Depth, NoTopComma;
    Step(name, "(", d);
    Step(name + "(", inside, d);
    Step(name + "(" + inside, ")", d);
    Single('(', d);
    Single(')', d + 1);
  }

  lemma Step(x: string, y: string, d: int)
    ensures Depth(x + y, d) == Depth(y, Depth(x, d))
    ensures NoTopComma(x + y, d) <==> NoTopComma(x, d) && NoTopComma(y, Depth(x, d))
  {
    DepthConcat(x, y, d);
    NoTopCommaConcat(x, y, d);
  }

  lemma Single(c: char, d: int)
    requires c != ','  || d > 0
    ensures Depth([c], d) == d + DepthChange(c) && NoTopComma([c], d)
  {
  }

  lemma CallHasNoToken(name: string, inside: string)
    requires IsName(name) && !Occurs(TOKEN, inside)
    ensures !Occurs(TOKEN, Call(name, inside))
  {
    hide Occurs;
    WithoutThree(name);
    WithoutThree("");
    TokenBesideSeparator(name, '(', inside);
    TokenBesideSeparator(name + "(" + inside, ')', "");
    assert name + "(" + inside + ")" + "" == Call(name, inside);
  }

  lemma WithoutThree(s: string)
    requires '3' !in s
    ensures !Occurs(TOKEN, s)
  {
    if Occurs(TOKEN, s) {
      OccurrenceBringsLetters(s, '3');
    }
  }

  lemma LeafFits(column: int, operand: string)
    requires Printable(operand)
    ensures Fits(IntText(column) + "," + operand)
  {
    var digits := IntText(column);
    hide Occurs, Depth, NoTopComma, IntText;
    forall d: nat | d > 0 ensures Closed(digits + "," + operand, d) {
      NoBrackets(digits, d);
      CommaFree(digits, d);
      Step(digits, ",", d);
      Single(',', d);
      Step(digits + ",", operand, d);
      DepthShifts(operand, d);
      CommaFree(operand, d);
    }
    if Occurs(TOKEN, digits) {
      OccurrenceBringsLetters(digits, 'H');
    }
    TokenBesideSeparator(digits, ',', operand);
  }

  lemma {:induction false} JoinFits(ps: seq<string>)
    requires |ps| > 0 && forall i :: 0 <= i < |ps| ==> Solid(ps[i])
    ensures Fits(Join(ps, ","))
  {
    hide Occurs, Depth, NoTopComma;
    var p := ps[0];
    assert Solid(p);
    if |ps| > 1 {
      var rest := ps[1..];
      var tail := Join(rest, ",");
      JoinFits(rest);
      TokenBesideSeparator(p, ',', tail);
      forall d: nat | d > 0 ensures Closed(p + "," + tail, d) {
        assert Closed(p, d) && Closed(tail, d);
        Step(p, ",", d);
        Single(',', d);
        Step(p + ",", tail, d);
      }
    }
  }

  lemma {:induction false} PrintIsSolid(c: Clause)
    requires WellFormed(c)
    ensures Solid(Print(c))
    decreases c, 1
  {
    hide Solid, Fits, Call, IsName;
    match c
    case Leaf(op, column, operand) =>
      LeafFits(column, operand);
      NamesAreNames(op);
      CallIsSolid(Label(op), IntText(column) + "," + operand);
    case And(children) =>
      EachIsSolid(children);
      ListIsSolid("And", PrintEach(children));
    case Or(children) =>
      EachIsSolid(children);
      ListIsSolid("Or", PrintEach(children));
  }

  lemma {:induction false} EachIsSolid(cs: seq<Clause>)
    requires forall i :: 0 <= i < |cs| ==> WellFormed(cs[i])
    ensures forall i :: 0 <= i < |cs| ==> Solid(PrintEach(cs)[i])
    decreases cs, 0
  {
    hide Solid, Print;
    forall i | 0 <= i < |cs| ensures Solid(PrintEach(cs)[i]) {
      PrintIsSolid(cs[i]);
    }
  }

  lemma ListIsSolid(name: string, ps: seq<string>)
    requires name == "And" || name == "Or"
    requires |ps| > 0 && forall i :: 0 <= i < |ps| ==> Solid(ps[i])
    ensures Solid(Call(name, Join(ps, ",")))
  {
    hide Solid, Fits, Call, Join;
    JoinFits(ps);
    CallIsSolid(name, Join(ps, ","));
  }

  lemma NamesAreNames(op: LeafOp)
    ensures IsName(Label(op))
  {
  }

  // ---- Splitting printed arguments ----

  lemma {:induction false} DepthPiecesOfPrefix(x: string, y: string, d: int)
    requires NoTopComma(x, d)
    ensures var r := DepthPieces(y, Depth(x, d));
            DepthPieces(x + y, d) == [x + r[0]] + r[1..]
  {
    var r := DepthPieces(y, Depth(x, d));
    if |x| == 0 {
      assert x + y == y && x + r[0] == r[0] && [r[0]] + r[1..] == r;
    } else {
      var tail, d' := x[1..], d + DepthChange(x[0]);
      DepthPiecesOfPrefix(tail, y, d');
      assert Depth(x, d) == Depth(tail, d');
      assert x[0] != ',' || d' > 0;
      hide NoTopComma, Depth;
      PiecesAfterFirst(x, y, tail, d, d', r);
    }
  }

  lemma PiecesAfterFirst(x: string, y: string, tail: string, d: int, d': int, r: seq<string>)
    requires |x| > 0 && tail == x[1..] && d' == d + DepthChange(x[0]) && (x[0] != ',' || d' > 0) && |r| > 0
    requires DepthPieces(tail + y, d') == [tail + r[0]] + r[1..]
    ensures DepthPieces(x + y, d) == [x + r[0]] + r[1..]
  {
    var all, rest := x + y, DepthPieces(tail + y, d');
    assert all[0] == x[0] && all[1..] == tail + y;
    assert DepthPieces(all, d) == [[x[0]] + rest[0]] + rest[1..] by { hide DepthChange; }
    hide DepthPieces;
    assert rest[0] == tail + r[0] && rest[1..] == r[1..];
    assert [x[0]] + (tail + r[0]) == x + r[0];
  }

  lemma {:induction false} DepthPiecesOfJoin(ps: seq<string>)
    requires |ps| > 0 && forall i :: 0 <= i < |ps| ==> Closed(ps[i], 0)
    ensures DepthPieces(Join(ps, ","), 0) == ps
  {
    var p := ps[0];
    assert Closed(p, 0);
    if |ps| == 1 {
      DepthPiecesOfPrefix(p, "", 0);
      assert p + "" == p;
    } else {
      var tail := Join(ps[1..], ",");
      DepthPiecesOfJoin(ps[1..]);
      DepthPiecesOfPrefix(p, "," + tail, 0);
      assert p + "," + tail == p + ("," + tail);
      TopComma(tail);
      assert p + "" == p;
    }
  }

  lemma TopComma(s: string)
    ensures DepthPieces("," + s, 0) == [""] + DepthPieces(s, 0)
  {
    assert ("," + s)[1..] == s;
  }

  lemma ArgumentsOfJoin(ps: seq<string>)
    requires |ps| > 0 && forall i :: 0 <= i < |ps| ==> Solid(ps[i])
    ensures Arguments(Join(ps, ",")) == ps
  {
    hide Arguments, DepthPieces, Join, Solid, Occurs, Depth, NoTopComma;
    JoinFits(ps);
    ArgumentsAreDepthSplit(Join(ps, ","));
    forall i | 0 <= i < |ps| ensures Closed(ps[i], 0) && |ps[i]| > 0 {
      SolidIsClosed(ps[i]);
    }
    DepthPiecesOfJoin(ps);
    NothingTrails(ps);
  }

  lemma SolidIsClosed(s: string)
    requires Solid(s)
    ensures Closed(s, 0) && |s| > 0
  {
  }

  // ---- Parsing printed text ----

  predicate Blank(s: string) {
    forall i :: 0 <= i < |s| ==> s[i] <= ' '
  }

  /** Text without spaces is parsed as one word, whatever blanks surround it. */
  lemma SolidIsOneWord(before: string, s: string, after: string)
    requires Solid(s) && Blank(before) && Blank(after)
    ensures ParseClause(before + s + after) == ParseWord(s, |before + s + after|)
  {
    hide ParseWord, ParseChildren, Trim;
    Trimmed(before, s, after);
    PiecesWithoutSeparator(s, ' ');
  }

  lemma Trimmed(before: string, s: string, after: string)
    requires Blank(before) && Blank(after) && |s| > 0 && s[0] > ' ' && s[|s| - 1] > ' '
    ensures Trim(before + s + after) == s
  {
    assert before + s + after == before + (s + after);
    TrimmedLeft(before, s + after);
    TrimmedRight(s, after);
  }

  lemma {:induction false} TrimmedLeft(before: string, s: string)
    requires Blank(before) && |s| > 0 && s[0] > ' '
    ensures TrimLeft(before + s) == s
  {
    if |before| == 0 {
      assert before + s == s;
    } else {
      assert (before + s)[1..] == before[1..] + s;
      TrimmedLeft(before[1..], s);
    }
  }

  lemma {:induction false} TrimmedRight(s: string, after: string)
    requires Blank(after) && |s| > 0 && s[|s| - 1] > ' '
    ensures TrimRight(s + after) == s
    decreases |after|
  {
    if |after| == 0 {
      assert s + after == s;
    } else {
      var n := |after| - 1;
      assert (s + after)[..|s| + n] == s + after[..n];
      TrimmedRight(s, after[..n]);
    }
  }

  lemma NotTrimmed(s: string)
    requires |s| > 0 && s[0] > ' ' && s[|s| - 1] > ' '
    ensures Trim(s) == s
  {
  }

  lemma InsideOfCall(name: string, inside: string)
    ensures Inside(Call(name, inside), name) == Some(inside)
    ensures name <= Call(name, inside)
  {
    var s := Call(name, inside);
    assert s[|name| + 1..|s| - 1] == inside;
  }

  lemma {:induction false} JoinLongest(ps: seq<string>, sep: string, i: nat)
    requires i < |ps|
    ensures |ps[i]| <= |Join(ps, sep)|
  {
    if i > 0 {
      JoinLongest(ps[1..], sep, i - 1);
    }
  }

  /** Printing any tree with at least two children per node and parsing the text, with or without blanks
      around it, gives the tree back. */
  lemma ParsePrinted(before: string, c: Clause, after: string)
    requires WellFormed(c) && Blank(before) && Blank(after)
    ensures ParseClause(before + Print(c) + after) == Ok(c)
    ensures ParseClause(Print(c)) == Ok(c)
  {
    hide *;
    PrintIsSolid(c);
    SolidIsOneWord(before, Print(c), after);
    ParseWordPrinted(c, |before + Print(c) + after|);
    ParseBare(c);
  }

  lemma ParseBare(c: Clause)
    requires WellFormed(c)
    ensures ParseClause(Print(c)) == Ok(c)
    decreases c, 2
  {
    hide WellFormed, Print, ParseClause, ParseWord, Solid;
    PrintIsSolid(c);
    SolidIsOneWord("", Print(c), "");
    assert "" + Print(c) + "" == Print(c);
    ParseWordPrinted(c, |Print(c)|);
  }

  lemma {:induction false} ParseWordPrinted(c: Clause, bound: nat)
    requires WellFormed(c) && |Print(c)| <= bound
    ensures ParseWord(Print(c), bound) == Ok(c)
    decreases c, 1
  {
    var s := Print(c);
    hide ParseClause, ParseWord, Solid, Call;
    match c
    case Leaf(op, column, operand) =>
      ParseLeafPrinted(op, column, operand, s, bound);
    case And(children) =>
      ParseEachPrinted(children, Join(PrintEach(children), ","), s, "And", bound);
      ParseListPrinted(PrintEach(children), children, s, "And", bound);
    case Or(children) =>
      ParseEachPrinted(children, Join(PrintEach(children), ","), s, "Or", bound);
      ParseListPrinted(PrintEach(children), children, s, "Or", bound);
  }

  lemma {:induction false} ParseEachPrinted(cs: seq<Clause>, joined: string, s: string, name: string, bound: nat)
    requires forall i :: 0 <= i < |cs| ==> WellFormed(cs[i])
    requires joined == Join(PrintEach(cs), ",") && s == Call(name, joined) && |s| <= bound
    ensures forall i :: 0 <= i < |cs| ==> |PrintEach(cs)[i]| < bound && Solid(PrintEach(cs)[i])
    ensures ParseChildren(PrintEach(cs), bound) == Ok(cs)
    decreases cs, 0
  {
    hide Print, ParseClause, ParseChildren, Solid, WellFormed;
    EachIsSolid(cs);
    forall i | 0 <= i < |cs| ensures |PrintEach(cs)[i]| < bound && ParseClause(PrintEach(cs)[i]) == Ok(cs[i]) {
      JoinLongest(PrintEach(cs), ",", i);
      ParseBare(cs[i]);
    }
    ChildrenParse(PrintEach(cs), cs, bound);
  }

  lemma {:induction false} ChildrenParse(ps: seq<string>, cs: seq<Clause>, bound: nat)
    requires |ps| == |cs| && forall i :: 0 <= i < |ps| ==> |ps[i]| < bound && ParseClause(ps[i]) == Ok(cs[i])
    ensures ParseChildren(ps, bound) == Ok(cs)
    decreases |ps|
  {
    hide ParseClause;
    if |ps| > 0 {
      ChildrenParse(ps[1..], cs[1..], bound);
      assert [cs[0]] + cs[1..] == cs;
    }
  }

  lemma ParseListPrinted(ps: seq<string>, cs: seq<Clause>, s: string, name: string, bound: nat)
    requires name == "And" || name == "Or"
    requires |ps| >= 2 && s == Call(name, Join(ps, ",")) && |s| <= bound
    requires forall i :: 0 <= i < |ps| ==> |ps[i]| < bound && Solid(ps[i])
    requires ParseChildren(ps, bound) == Ok(cs)
    ensures ParseWord(s, bound) == Ok(if name == "And" then And(cs) else Or(cs))
  {
    hide ParseChildren, Solid, Call, Join, Inside, Arguments, ParseLeaf;
    InsideOfCall(name, Join(ps, ","));
    ArgumentsOfJoin(ps);
    CallStarts("And", Join(ps, ","), "Or");
  }

  lemma CallStarts(name: string, inside: string, other: string)
    requires |name| > 0 && |other| > 0 && name[0] != other[0]
    ensures !(other <= Call(name, inside))
  {
    assert Call(name, inside)[0] == name[0];
  }

  lemma ParseLeafPrinted(op: LeafOp, column: int, operand: string, s: string, bound: nat)
    requires MIN_INT <= column <= MAX_INT && Printable(operand)
    requires s == Call(Label(op), IntText(column) + "," + operand) && |s| <= bound
    ensures ParseWord(s, bound) == Ok(Leaf(op, column, operand))
  {
    var digits := IntText(column);
    hide Call, IntText, ParseInt, Depth, Occurs, Split, OpOf;
    OpOfCall(op, digits + "," + operand);
    CallStarts(Label(op), digits + "," + operand, "Or");
    CallStarts(Label(op), digits + "," + operand, "And");
    IntRoundTrip(column);
    InsideOfCall(Label(op), digits + "," + operand);
    LeafFields(Label(op), digits, operand);
  }

  lemma OpOfCall(op: LeafOp, inside: string)
    ensures OpOf(Call(Label(op), inside)) == Some(op)
    ensures Label(op)[0] != 'O' && Label(op)[0] != 'A'
  {
    var s := Call(Label(op), inside);
    assert Label(op) <= s;
    assert s[0] == Label(op)[0] && s[6] == Label(op)[6];
  }

  lemma LeafFields(name: string, digits: string, operand: string)
    requires ',' !in digits && ',' !in operand
    ensures var s := Call(name, digits + "," + operand);
            |name| <= |s| && Split(s[|name|..], ',') == ["(" + digits, operand + ")"]
  {
    var s := Call(name, digits + "," + operand);
    var x, z := "(" + digits, operand + ")";
    assert s[|name|..] == x + ("," + z);
    PiecesOfPrefix(x, "," + z, ',');
    assert ("," + z)[1..] == z;
    PiecesWithoutSeparator(z, ',');
    assert Pieces("," + z, ',') == [""] + [z];
    assert x + "" == x;
    assert Pieces(x + ("," + z), ',') == [x, z];
    NothingTrails([x, z]);
  }

  // ---- Space-separated lists and the meaning of a text ----

  lemma {:induction false} SpacesSplit(ps: seq<string>)
    requires |ps| > 0 && forall i :: 0 <= i < |ps| ==> Solid(ps[i])
    ensures var s := Join(ps, " ");
            |s| > 0 && s[0] > ' ' && s[|s| - 1] > ' ' && Pieces(s, ' ') == ps
  {
    hide Occurs, Closed;
    var p := ps[0];
    assert Solid(p);
    if |ps| == 1 {
      PiecesWithoutSeparator(p, ' ');
    } else {
      var tail := Join(ps[1..], " ");
      SpacesSplit(ps[1..]);
      assert p + " " + tail == p + (" " + tail);
      PiecesOfPrefix(p, " " + tail, ' ');
      assert (" " + tail)[1..] == tail;
      assert p + "" == p;
    }
  }

  /** Clauses separated by spaces parse to their conjunction, the tree that `And(...)` of them has. */
  lemma SpacesMeanAnd(cs: seq<Clause>)
    requires |cs| >= 2 && forall i :: 0 <= i < |cs| ==> WellFormed(cs[i])
    ensures ParseClause(Join(PrintEach(cs), " ")) == Ok(And(cs)) == ParseClause(Print(And(cs)))
  {
    hide *;
    AndIsWellFormed(cs);
    ParseBare(And(cs));
    PrintedWordsParse(cs, PrintEach(cs));
    ParseSpaced(cs, PrintEach(cs));
  }

  lemma AndIsWellFormed(cs: seq<Clause>)
    requires |cs| >= 2 && forall i :: 0 <= i < |cs| ==> WellFormed(cs[i])
    ensures WellFormed(And(cs))
  {
  }

  lemma PrintedWordsParse(cs: seq<Clause>, ps: seq<string>)
    requires ps == PrintEach(cs) && forall i :: 0 <= i < |cs| ==> WellFormed(cs[i])
    ensures forall i :: 0 <= i < |ps| ==> Solid(ps[i]) && ParseClause(ps[i]) == Ok(cs[i])
  {
    hide *;
    EachIsSolid(cs);
    forall i | 0 <= i < |ps| ensures ParseClause(ps[i]) == Ok(cs[i]) {
      ParseBare(cs[i]);
    }
  }

  lemma ParseSpaced(cs: seq<Clause>, ps: seq<string>)
    requires |ps| == |cs| >= 2
    requires forall i :: 0 <= i < |ps| ==> Solid(ps[i]) && ParseClause(ps[i]) == Ok(cs[i])
    ensures ParseClause(Join(ps, " ")) == Ok(And(cs))
  {
    hide *;
    var s := Join(ps, " ");
    SpacesSplit(ps);
    NotTrimmed(s);
    PieceLengths(s, ' ');
    LastIsNotEmpty(ps);
    ListOfWords(s, ps, cs);
  }

  lemma LastIsNotEmpty(ps: seq<string>)
    requires |ps| > 0 && forall i :: 0 <= i < |ps| ==> Solid(ps[i])
    ensures DropTrailingEmpty(ps) == ps
  {
    hide Solid;
    SolidIsClosed(ps[|ps| - 1]);
    NothingTrails(ps);
  }

  lemma ListOfWords(s: string, ps: seq<string>, cs: seq<Clause>)
    requires |ps| == |cs| >= 2 && Trim(s) == s && |s| > 0 && Pieces(s, ' ') == ps == DropTrailingEmpty(ps)
    requires forall i :: 0 <= i < |ps| ==> |ps[i]| < |s| && ParseClause(ps[i]) == Ok(cs[i])
    ensures ParseClause(s) == Ok(And(cs))
  {
    hide ParseChildren, Trim, Pieces, DropTrailingEmpty, ParseWord;
    ChildrenParse(ps, cs, |s|);
  }

  // ---- The text format, with its names written out ----

  /** The five leaf operators as they are written in a where-clause. */
  lemma LeafTexts(column: int, operand: string)
    requires MIN_INT <= column <= MAX_INT && Printable(operand)
    ensures var rest := "(" + IntText(column) + "," + operand + ")";
            && ParseClause("EqualTo" + rest) == Ok(Leaf(EqualTo, column, operand))
            && ParseClause("NotEqualTo" + rest) == Ok(Leaf(NotEqualTo, column, operand))
            && ParseClause("StringStartsWith" + rest) == Ok(Leaf(StartsWith, column, operand))
            && ParseClause("StringEndsWith" + rest) == Ok(Leaf(EndsWith, column, operand))
            && ParseClause("StringContains" + rest) == Ok(Leaf(Contains, column, operand))
  {
    hide ParseClause, IntText, Printable;
    LeafText(EqualTo, "EqualTo", column, operand);
    LeafText(NotEqualTo, "NotEqualTo", column, operand);
    LeafText(StartsWith, "StringStartsWith", column, operand);
    LeafText(EndsWith, "StringEndsWith", column, operand);
    LeafText(Contains, "StringContains", column, operand);
  }

  lemma LeafText(op: LeafOp, name: string, column: int, operand: string)
    requires MIN_INT <= column <= MAX_INT && Printable(operand) && name == Label(op)
    ensures ParseClause(name + ("(" + IntText(column) + "," + operand + ")")) == Ok(Leaf(op, column, operand))
  {
    hide ParseClause, IntText, Printable, Label;
    var digits := IntText(column);
    var c := Leaf(op, column, operand);
    ParseBare(c);
    assert Print(c) == name + ("(" + digits + "," + operand + ")") by {
      var inside := digits + "," + operand;
      assert name + "(" + inside + ")" == name + ("(" + digits + "," + operand + ")");
    }
  }

  /** A conjunction and a disjunction of two clauses as they are written. */
  lemma ListTexts(a: Clause, b: Clause)
    requires WellFormed(a) && WellFormed(b)
    ensures ParseClause("And" + "(" + Print(a) + "," + Print(b) + ")") == Ok(And([a, b]))
    ensures ParseClause("Or" + "(" + Print(a) + "," + Print(b) + ")") == Ok(Or([a, b]))
  {
    var both := [a, b];
    assert WellFormed(And(both)) && WellFormed(Or(both));
    hide WellFormed, ParseClause;
    ListText(a, b, And(both), "And");
    ListText(a, b, Or(both), "Or");
    ParseBare(And(both));
    ParseBare(Or(both));
  }

  lemma ListText(a: Clause, b: Clause, c: Clause, name: string)
    requires (c == And([a, b]) && name == "And") || (c == Or([a, b]) && name == "Or")
    ensures Print(c) == name + "(" + Print(a) + "," + Print(b) + ")"
  {
    var ps := PrintEach([a, b]);
    assert Print(c) == Call(name, Join(ps, ","));
    hide Print;
    assert ps == [Print(a), Print(b)] && ps[1..] == [Print(b)];
    assert Join(ps, ",") == Print(a) + "," + Print(b);
    CallOfTwo(name, Print(a), Print(b));
  }

  lemma CallOfTwo(name: string, x: string, y: string)
    ensures Call(name, x + "," + y) == name + "(" + x + "," + y + ")"
  {
  }

  /** A conjunction or disjunction of a single clause raises. */
  lemma {:induction false} OneArgumentRaises(c: Clause, name: string)
    requires WellFormed(c) && (name == "And" || name == "Or")
    ensures ParseClause(name + "(" + Print(c) + ")") == Raised
  {
    var inside := Print(c);
    var s := Call(name, inside);
    PrintIsSolid(c);
    InsideOfCall(name, inside);
    assert Join([inside], ",") == inside;
    ArgumentsOfJoin([inside]);
    CallStarts("And", inside, "Or");
    assert s[0] == name[0] && s[|s| - 1] == ')' && ' ' !in s;
    OneWord(s);
    hide Call, Print, Solid, Join, Arguments, Inside, ParseLeaf, ParseClause;
  }

  /** A leaf whose column is no number raises. */
  lemma {:induction false} BadColumnRaises(op: LeafOp, digits: string, operand: string)
    requires ParseInt(digits) == None && ',' !in digits && ' ' !in digits && ',' !in operand && ' ' !in operand
    ensures ParseClause(Call(Label(op), digits + "," + operand)) == Raised
  {
    var inside := digits + "," + operand;
    var s := Call(Label(op), inside);
    assert s[0] == Label(op)[0] && s[0] > ' ' && s[|s| - 1] == ')' && ' ' !in s;
    OpOfCall(op, inside);
    CallStarts(Label(op), inside, "Or");
    CallStarts(Label(op), inside, "And");
    InsideOfCall(Label(op), inside);
    LeafFields(Label(op), digits, operand);
    OneWord(s);
    assert ("(" + digits)[1..] == digits;
    hide Call, Split, OpOf, ParseInt, ParseClause;
  }

  /** A word that starts with none of the seven names raises. */
  lemma {:induction false} UnknownOperatorRaises(s: string)
    requires |s| > 0 && s[0] > ' ' && s[|s| - 1] > ' ' && ' ' !in s
    requires !("Or" <= s) && !("And" <= s) && !("EqualTo" <= s) && !("NotEqualTo" <= s)
    requires !("StringStartsWith" <= s) && !("StringEndsWith" <= s) && !("StringContains" <= s)
    ensures ParseClause(s) == Raised
  {
    assert OpOf(s) == None;
    hide *;
    OneWord(s);
    NoSuchWord(s, |s|);
  }

  lemma OneWord(s: string)
    requires |s| > 0 && s[0] > ' ' && s[|s| - 1] > ' ' && ' ' !in s
    ensures ParseClause(s) == ParseWord(s, |s|)
  {
    NotTrimmed(s);
    PiecesWithoutSeparator(s, ' ');
    hide Trim, Pieces, ParseWord;
  }

  lemma NoSuchWord(s: string, bound: nat)
    requires |s| <= bound && !("Or" <= s) && !("And" <= s) && OpOf(s) == None
    ensures ParseWord(s, bound) == Raised
  {
    hide OpOf, Label;
  }

  /** The text of a clause, parsed and evaluated on a row with more fields than its maximum column,
      never leaves the row and answers what the clause means. */
  lemma TextEvaluatesToMeaning(c: Clause, row: seq<string>)
    requires WellFormed(c) && NoNegativeColumn(c) && MaxCol(c) < |row|
    ensures ParseClause(Print(c)).Ok?
    ensures IsValid(ParseClause(Print(c)).value, row) == Answer(Means(c, row))
  {
    hide ParseClause, Print, IsValid, Means;
    ParseBare(c);
    MaxColIsNatural(c);
    MaxColDecidesColumns(c, |row|);
    EvaluationIsMeaning(c, row);
  }
}
