/** The parts of java.lang.String, Integer and Long that the model relies on. */
module JavaText {
  import opened Basics

  // ---- String.split on a single literal character ----

  /** All pieces between separators, empty ones included. */
  function Pieces(s: string, sep: char): (ps: seq<string>)
    ensures |ps| >= 1
  {
    if |s| == 0 then [""]
    else
      var rest := Pieces(s[1..], sep);
      if s[0] == sep then [""] + rest else [[s[0]] + rest[0]] + rest[1..]
  }

  function DropTrailingEmpty(ps: seq<string>): (r: seq<string>)
    ensures |r| <= |ps| && forall i :: 0 <= i < |r| ==> r[i] == ps[i]
  {
    if |ps| > 0 && |ps[|ps| - 1]| == 0 then DropTrailingEmpty(ps[..|ps| - 1]) else ps
  }

  /** `s.split(sep)`: trailing empty pieces go, unless there was no separator at all. */
  function Split(s: string, sep: char): (r: seq<string>) {
    var ps := Pieces(s, sep);
    if |ps| == 1 then ps else DropTrailingEmpty(ps)
  }

  /** The texts with the separator between them. */
  function Join(ps: seq<string>, sep: string): string {
    if |ps| == 0 then "" else if |ps| == 1 then ps[0] else ps[0] + sep + Join(ps[1..], sep)
  }

  lemma {:induction false} PiecesWithoutSeparator(s: string, sep: char)
    requires sep !in s
    ensures Pieces(s, sep) == [s]
  {
    if |s| > 0 {
      PiecesWithoutSeparator(s[1..], sep);
      assert [s[0]] + s[1..] == s;
    }
  }

  /** Text without the separator only lengthens the first piece. */
  lemma {:induction false} PiecesOfPrefix(x: string, y: string, sep: char)
    requires sep !in x
    ensures Pieces(x + y, sep) == [x + Pieces(y, sep)[0]] + Pieces(y, sep)[1..]
  {
    var ps := Pieces(y, sep);
    if |x| == 0 {
      assert x + y == y && x + ps[0] == ps[0] && [ps[0]] + ps[1..] == ps;
    } else {
      var tail := x[1..];
      PiecesOfPrefix(tail, y, sep);
      assert (x + y)[0] == x[0] && (x + y)[1..] == tail + y;
      assert [x[0]] + (tail + ps[0]) == x + ps[0];
    }
  }

  /** Pieces never hold more characters than the text, and lose the separators. */
  lemma {:induction false} PieceLengths(s: string, sep: char)
    ensures forall i :: 0 <= i < |Pieces(s, sep)| ==> |Pieces(s, sep)[i]| <= |s|
    ensures |Pieces(s, sep)| > 1 ==> forall i :: 0 <= i < |Pieces(s, sep)| ==> |Pieces(s, sep)[i]| < |s|
  {
    if |s| > 0 {
      PieceLengths(s[1..], sep);
    }
  }

  lemma {:induction false} NothingTrails(ps: seq<string>)
    requires |ps| == 0 || |ps[|ps| - 1]| > 0
    ensures DropTrailingEmpty(ps) == ps
  {
  }

  /** The pieces put together with separators are the text, and no piece holds one; so they are what lies
      between the separators. */
  lemma {:induction false} PiecesAreTheText(s: string, sep: char)
    ensures Join(Pieces(s, sep), [sep]) == s
    ensures forall i :: 0 <= i < |Pieces(s, sep)| ==> sep !in Pieces(s, sep)[i]
  {
    if |s| > 0 {
      var rest := Pieces(s[1..], sep);
      PiecesAreTheText(s[1..], sep);
      assert s == [s[0]] + s[1..];
      if s[0] == sep {
        var ps := [""] + rest;
        assert Pieces(s, sep) == ps && ps[1..] == rest;
        assert "" + [sep] + Join(rest, [sep]) == [sep] + s[1..];
      } else {
        JoinLonger(rest, [s[0]], [sep]);
      }
    }
  }

  lemma JoinLonger(ps: seq<string>, x: string, sep: string)
    requires |ps| > 0
    ensures Join([x + ps[0]] + ps[1..], sep) == x + Join(ps, sep)
  {
    var longer := [x + ps[0]] + ps[1..];
    assert longer[1..] == ps[1..];
    if |ps| > 1 {
      ConcatAssociates(x, ps[0], sep);
      ConcatAssociates(x, ps[0] + sep, Join(ps[1..], sep));
    }
  }

  /** What a split keeps: all pieces up to the last one that is not empty, and the whole text when there is
      no separator. */
  lemma SplitKeeps(s: string, sep: char)
    ensures sep !in s ==> Split(s, sep) == [s]
    ensures sep in s ==>
              var ps, r := Pieces(s, sep), Split(s, sep);
              && |r| <= |ps| && r == ps[..|r|]
              && (|r| > 0 ==> r[|r| - 1] != "")
              && forall i :: |r| <= i < |ps| ==> ps[i] == ""
  {
    if sep !in s {
      PiecesWithoutSeparator(s, sep);
    } else {
      PiecesAreTheText(s, sep);
      OnlyTrailingDropped(Pieces(s, sep));
    }
  }

  lemma {:induction false} OnlyTrailingDropped(ps: seq<string>)
    ensures var r := DropTrailingEmpty(ps);
            && r == ps[..|r|] && (|r| > 0 ==> r[|r| - 1] != "")
            && forall i :: |r| <= i < |ps| ==> ps[i] == ""
    decreases |ps|
  {
    if |ps| > 0 && |ps[|ps| - 1]| == 0 {
      OnlyTrailingDropped(ps[..|ps| - 1]);
    }
  }

  // ---- String.trim ----

  function TrimLeft(s: string): (r: string)
    ensures |r| <= |s|
  {
    if |s| > 0 && s[0] <= ' ' then TrimLeft(s[1..]) else s
  }

  function TrimRight(s: string): (r: string)
    ensures |r| <= |s|
  {
    if |s| > 0 && s[|s| - 1] <= ' ' then TrimRight(s[..|s| - 1]) else s
  }

  function Trim(s: string): (r: string)
    ensures |r| <= |s|
  {
    TrimRight(TrimLeft(s))
  }

  lemma {:induction false} BlankIsTrimmed(s: string)
    requires forall i :: 0 <= i < |s| ==> s[i] <= ' '
    ensures Trim(s) == ""
  {
    if |s| > 0 {
      BlankIsTrimmed(s[1..]);
    }
  }

  /** What trimming takes away is blank, and what it leaves neither starts nor ends with a blank. */
  lemma TrimExactly(s: string) returns (before: string, after: string)
    ensures s == before + Trim(s) + after
    ensures forall i :: 0 <= i < |before| ==> before[i] <= ' '
    ensures forall i :: 0 <= i < |after| ==> after[i] <= ' '
    ensures |Trim(s)| > 0 ==> Trim(s)[0] > ' ' && Trim(s)[|Trim(s)| - 1] > ' '
  {
    before := TrimsLeft(s);
    after := TrimsRight(TrimLeft(s));
    ConcatAssociates(before, Trim(s), after);
  }

  lemma {:induction false} TrimsLeft(s: string) returns (before: string)
    ensures s == before + TrimLeft(s)
    ensures forall i :: 0 <= i < |before| ==> before[i] <= ' '
    ensures |TrimLeft(s)| > 0 ==> TrimLeft(s)[0] > ' '
  {
    before := "";
    if |s| > 0 && s[0] <= ' ' {
      before := TrimsLeft(s[1..]);
      before := [s[0]] + before;
      assert s == [s[0]] + s[1..];
    }
  }

  lemma {:induction false} TrimsRight(s: string) returns (after: string)
    ensures s == TrimRight(s) + after
    ensures forall i :: 0 <= i < |after| ==> after[i] <= ' '
    ensures |TrimRight(s)| > 0 ==> TrimRight(s)[|TrimRight(s)| - 1] > ' ' && TrimRight(s)[0] == s[0]
  {
    after := "";
    if |s| > 0 && s[|s| - 1] <= ' ' {
      after := TrimsRight(s[..|s| - 1]);
      after := after + [s[|s| - 1]];
      assert s == s[..|s| - 1] + [s[|s| - 1]];
    }
  }

  // ---- String.startsWith and String.replaceAll of a literal pattern ----

  /** `s.replaceAll(pattern, replacement)`: leftmost occurrences first, none overlapping. */
  function ReplaceAll(s: string, pattern: string, replacement: string): string
    requires |pattern| > 0
    decreases |s|
  {
    if |s| == 0 then ""
    else if pattern <= s then replacement + ReplaceAll(s[|pattern|..], pattern, replacement)
    else [s[0]] + ReplaceAll(s[1..], pattern, replacement)
  }

  predicate Occurs(pattern: string, s: string) {
    exists i :: 0 <= i <= |s| && pattern <= s[i..]
  }

  // ---- Integer.parseInt and decimal text ----

  predicate IsDigits(s: string) {
    forall i :: 0 <= i < |s| ==> '0' <= s[i] <= '9'
  }

  function DigitsValue(s: string): nat
    requires IsDigits(s)
  {
    if |s| == 0 then 0 else 10 * DigitsValue(s[..|s| - 1]) + (s[|s| - 1] as int - '0' as int)
  }

  /** A decimal number with an optional sign. */
  function ParseDecimal(s: string): Option<int> {
    if |s| == 0 then None
    else
      var signed := s[0] == '-' || s[0] == '+';
      var digits := if signed then s[1..] else s;
      if |digits| == 0 || !IsDigits(digits) then None
      else
        var magnitude := DigitsValue(digits);
        Some(if s[0] == '-' then 0 - magnitude else magnitude + 0)
  }

  /** `Integer.parseInt(s)`; `None` is a NumberFormatException. */
  function ParseInt(s: string): (r: Option<int>)
    ensures r.Some? ==> MIN_INT <= r.value <= MAX_INT
  {
    var n := ParseDecimal(s);
    if n.Some? && MIN_INT <= n.value <= MAX_INT then n else None
  }

  /** `Long.parseLong(s)`; `None` is a NumberFormatException. */
  function ParseLong(s: string): (r: Option<int>)
    ensures r.Some? ==> MIN_LONG <= r.value <= MAX_LONG
  {
    var n := ParseDecimal(s);
    if n.Some? && MIN_LONG <= n.value <= MAX_LONG then n else None
  }

  /** Decimal text of a number, as `Integer.toString` gives it. */
  function NatText(n: nat): (s: string)
    ensures |s| > 0 && IsDigits(s)
  {
    var last := [('0' as int + n % 10) as char];
    if n < 10 then last else NatText(n / 10) + last
  }

  function IntText(n: int): (s: string)
    ensures |s| > 0
    ensures forall i :: 0 <= i < |s| ==> s[i] == '-' || '0' <= s[i] <= '9'
  {
    if n < 0 then "-" + NatText(-n) else NatText(n)
  }

  lemma {:induction false} DigitsOfNat(n: nat)
    ensures DigitsValue(NatText(n)) == n
  {
    var last := [('0' as int + n % 10) as char];
    if n < 10 {
      assert last[..0] == "";
    } else {
      DigitsOfNat(n / 10);
      assert (NatText(n / 10) + last)[..|NatText(n / 10)|] == NatText(n / 10);
    }
  }

  lemma DecimalRoundTrip(n: int)
    ensures ParseDecimal(IntText(n)) == Some(n)
  {
    hide DigitsValue, NatText;
    if n < 0 {
      DigitsOfNat(-n);
      assert ("-" + NatText(-n))[1..] == NatText(-n);
    } else {
      DigitsOfNat(n);
      var s := NatText(n);
      assert '0' <= s[0] <= '9';
    }
  }

  /** Digits count in tens, and only '0' to '9' are digits. */
  lemma DigitsCountInTens(s: string, c: char)
    requires IsDigits(s) && '0' <= c <= '9'
    ensures IsDigits(s + [c]) && DigitsValue(s + [c]) == 10 * DigitsValue(s) + (c as int - 48)
    ensures DigitsValue("") == 0
  {
    assert (s + [c])[..|s|] == s;
  }

  /** A text that is no decimal number, or one that does not fit, is refused. */
  lemma RefusedNumbers(s: string)
    ensures s == "" || s == "-" || s == "+" ==> ParseInt(s) == ParseLong(s) == None
    ensures (exists i :: 0 < i < |s| && !('0' <= s[i] <= '9')) ==> ParseInt(s) == ParseLong(s) == None
    ensures ParseInt(IntText(2147483648)) == None && ParseInt(IntText(-2147483649)) == None
    ensures ParseLong(IntText(9223372036854775808)) == None && ParseLong(IntText(-9223372036854775809)) == None
  {
    DecimalRoundTrip(2147483648);
    DecimalRoundTrip(-2147483649);
    DecimalRoundTrip(9223372036854775808);
    DecimalRoundTrip(-9223372036854775809);
    hide IntText, DigitsValue;
    if i :| 0 < i < |s| && !('0' <= s[i] <= '9') {
      assert s[1..][i - 1] == s[i];
    }
  }

  lemma IntRoundTrip(n: int)
    requires MIN_INT <= n <= MAX_INT
    ensures ParseInt(IntText(n)) == Some(n)
  {
    hide ParseDecimal, IntText;
    DecimalRoundTrip(n);
  }
}
