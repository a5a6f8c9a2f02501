/** The bounds of an input range: written by the gateway as decimal text, read by Python's `int` and by
    Java's `Long.parseLong`, which do not accept the same texts. */
module RangeTexts {
  import opened Basics
  import opened JavaText
  import opened Datagrams

  // ---- int(text) ----

  predicate IsBlank(c: char) {
    c == ' ' || '\t' <= c <= '\r'
  }

  predicate IsDigit(c: char) {
    '0' <= c <= '9'
  }

  function StripLeft(s: string): (r: string)
    ensures |r| <= |s|
  {
    if |s| > 0 && IsBlank(s[0]) then StripLeft(s[1..]) else s
  }

  function StripRight(s: string): (r: string)
    ensures |r| <= |s|
  {
    if |s| > 0 && IsBlank(s[|s| - 1]) then StripRight(s[..|s| - 1]) else s
  }

  /** Digits, with single underscores between them. */
  predicate IsGrouped(s: string) {
    && |s| > 0 && IsDigit(s[0]) && IsDigit(s[|s| - 1])
    && (forall i :: 0 <= i < |s| ==> IsDigit(s[i]) || s[i] == '_')
    && (forall i :: 0 <= i < |s| - 1 ==> s[i] != '_' || s[i + 1] != '_')
  }

  function Ungrouped(s: string): (r: string)
    requires forall i :: 0 <= i < |s| ==> IsDigit(s[i]) || s[i] == '_'
    ensures IsDigits(r)
  {
    if |s| == 0 then ""
    else
      var n := |s| - 1;
      var r := Ungrouped(s[..n]);
      assert IsDigit(s[n]) || s[n] == '_';
      if s[n] == '_' then r else r + [s[n]]
  }

  /** `int(s)`; `None` is a ValueError. */
  function PythonInt(s: string): Option<int> {
    var text := StripRight(StripLeft(s));
    if |text| == 0 then None
    else
      var signed := text[0] == '-' || text[0] == '+';
      var digits := if signed then text[1..] else text;
      if !IsGrouped(digits) then None
      else
        var magnitude := DigitsValue(Ungrouped(digits));
        Some(if text[0] == '-' then 0 - magnitude else magnitude + 0)
  }

  // ---- The two conversions compared ----

  /** Neither blanks nor underscores. */
  predicate IsPlain(s: string) {
    forall i :: 0 <= i < |s| ==> !IsBlank(s[i]) && s[i] != '_'
  }

  lemma {:induction false} PlainIsUngrouped(s: string)
    requires IsDigits(s)
    ensures Ungrouped(s) == s
  {
    if |s| > 0 {
      PlainIsUngrouped(s[..|s| - 1]);
      assert s == s[..|s| - 1] + [s[|s| - 1]];
    }
  }

  /** A sign and digits, read by either. */
  lemma PlainMagnitude(digits: string)
    requires IsPlain(digits)
    ensures IsGrouped(digits) <==> |digits| > 0 && IsDigits(digits)
    ensures IsDigits(digits) ==> Ungrouped(digits) == digits
  {
    if IsDigits(digits) {
      PlainIsUngrouped(digits);
    }
  }

  lemma DecimalIsPlain(s: string)
    requires ParseDecimal(s).Some?
    ensures IsPlain(s)
  {
    var digits := if s[0] == '-' || s[0] == '+' then s[1..] else s;
    forall i | 0 <= i < |s| ensures !IsBlank(s[i]) && s[i] != '_' {
      if digits != s && i > 0 {
        assert s[i] == digits[i - 1];
      }
    }
  }

  lemma PlainText(s: string)
    requires IsPlain(s)
    ensures PythonInt(s) == ParseDecimal(s)
  {
    if |s| > 0 {
      assert StripLeft(s) == s && StripRight(s) == s;
      hide StripLeft, StripRight, DigitsValue, Ungrouped, IsGrouped, IsDigits;
      var digits := if s[0] == '-' || s[0] == '+' then s[1..] else s;
      assert IsPlain(digits);
      PlainMagnitude(digits);
    }
  }

  /** Java accepts exactly the texts that Python accepts, that hold no blanks and no underscores, and whose
      number fits a long; it then reads the same number. */
  lemma LongIsPlainInt(s: string)
    ensures ParseLong(s) ==
            if IsPlain(s) && PythonInt(s).Some? && MIN_LONG <= PythonInt(s).value <= MAX_LONG then PythonInt(s)
                else None
  {
    hide ParseDecimal, PythonInt, IsPlain;
    if IsPlain(s) {
      PlainText(s);
    } else if ParseDecimal(s).Some? {
      DecimalIsPlain(s);
    }
  }

  // ---- The range of an input ----

  /** _create_input_file: the bounds of a ranged file, `None` for a plain one. Converting a bound raises, and
      so does seeking to a start that is negative or no offset of a file. */
  function PythonRange(storlets: Metadata): Result<Option<(int, int)>> {
    if "start" !in storlets || "end" !in storlets then Ok(None)
    else
      var start, end := PythonInt(storlets["start"]), PythonInt(storlets["end"]);
      if start.None? || end.None? || !(0 <= start.value <= MAX_LONG) then Raised
      else Ok(Some((start.value, end.value)))
  }

  /** The same in createExecutionTask, where skipping to a negative start raises. */
  function JavaRange(storlets: Metadata): Result<Option<(int, int)>> {
    if "start" !in storlets || "end" !in storlets then Ok(None)
    else
      var start, end := ParseLong(storlets["start"]), ParseLong(storlets["end"]);
      if start.None? || end.None? || start.value < 0 then Raised
      else Ok(Some((start.value, end.value)))
  }

  /** Both bounds are there only as plain texts, and the end fits a long. */
  predicate BoundsSuitJava(storlets: Metadata) {
    "start" in storlets && "end" in storlets ==>
      && IsPlain(storlets["start"]) && IsPlain(storlets["end"])
      && (PythonInt(storlets["end"]).Some? ==> MIN_LONG <= PythonInt(storlets["end"]).value <= MAX_LONG)
  }

  /** Java makes of the bounds what Python makes of them, or raises; it raises where Python does not
      exactly for texts with blanks or underscores and for ends beyond a long. */
  lemma JavaRangeIsPythonRange(storlets: Metadata)
    ensures JavaRange(storlets) == if BoundsSuitJava(storlets) then PythonRange(storlets) else Raised
  {
    hide PythonInt, ParseLong, IsPlain;
    if "start" in storlets && "end" in storlets {
      LongIsPlainInt(storlets["start"]);
      LongIsPlainInt(storlets["end"]);
    }
  }

  /** The bounds as the gateway writes them: both as decimal numbers, or not at all. */
  ghost predicate FromGateway(storlets: Metadata) {
    "start" in storlets && "end" in storlets ==>
      exists start: nat, end: nat :: start <= MAX_LONG && end <= MAX_LONG && HasBounds(storlets, start, end)
  }

  predicate HasBounds(storlets: Metadata, start: nat, end: nat) {
    "start" in storlets && "end" in storlets && storlets["start"] == IntText(start) && storlets["end"] == IntText(end)
  }

  /** What the gateway writes, both languages read back. */
  lemma GatewayBoundsAreRead(storlets: Metadata, start: nat, end: nat)
    requires start <= MAX_LONG && end <= MAX_LONG && HasBounds(storlets, start, end)
    ensures PythonRange(storlets) == JavaRange(storlets) == Ok(Some((start as int, end as int))) &&
            BoundsSuitJava(storlets)
  {
    hide ParseDecimal, PythonInt, IsPlain, IntText;
    DecimalRoundTrip(start);
    DecimalRoundTrip(end);
    JavaRangeIsPythonRange(storlets);
    LongIsPlainInt(storlets["start"]);
    LongIsPlainInt(storlets["end"]);
  }

  /** A start in front of the file, or beyond any offset of one, raises in both languages. */
  lemma StartOutOfRangeRaises(storlets: Metadata, n: int)
    requires "start" in storlets && "end" in storlets && storlets["start"] == IntText(n)
    requires n < 0 || n > 9223372036854775807
    ensures PythonRange(storlets) == Raised && JavaRange(storlets) == Raised
  {
    hide ParseDecimal, PythonInt, IsPlain, IntText;
    DecimalRoundTrip(n);
    DecimalIsPlain(IntText(n));
    PlainText(IntText(n));
  }

  lemma GatewayBoundsSuit(storlets: Metadata)
    requires FromGateway(storlets)
    ensures PythonRange(storlets).Ok? && BoundsSuitJava(storlets)
  {
    hide HasBounds, PythonInt, IsPlain;
    if "start" in storlets && "end" in storlets {
      var start: nat, end: nat :| start <= MAX_LONG && end <= MAX_LONG && HasBounds(storlets, start, end);
      GatewayBoundsAreRead(storlets, start, end);
    }
  }

  /** A number with a blank in front: Python reads it, Java does not. The six blanks are the space and the
      characters 9 to 13. */
  lemma BlankInFront(n: int, c: char)
    requires c == ' ' || 9 <= c as int <= 13
    ensures PythonInt([c] + IntText(n)) == Some(n) && ParseLong([c] + IntText(n)) == None
  {
    var text, blank := IntText(n), [c] + IntText(n);
    assert blank[1..] == text;
    assert !IsPlain(blank) by { assert IsBlank(blank[0]); }
    DecimalRoundTrip(n);
    DecimalIsPlain(text);
    PlainText(text);
    assert StripLeft(blank) == text && StripLeft(text) == text;
    hide ParseDecimal, IntText, StripLeft, StripRight, IsPlain, IsGrouped;
    LongIsPlainInt(blank);
  }

  /** Python also passes over blanks at the end, and over single underscores between digits. */
  lemma BlankBehind(n: int, c: char)
    requires c == ' ' || 9 <= c as int <= 13
    ensures PythonInt(IntText(n) + [c]) == Some(n) && ParseLong(IntText(n) + [c]) == None
  {
    var text, blank := IntText(n), IntText(n) + [c];
    assert blank[..|blank| - 1] == text && blank[|blank| - 1] == c && blank[0] == text[0];
    assert !IsPlain(blank) by { assert IsBlank(blank[|blank| - 1]); }
    DecimalRoundTrip(n);
    DecimalIsPlain(text);
    PlainText(text);
    assert !IsBlank(text[0]) && !IsBlank(text[|text| - 1]);
    assert StripLeft(blank) == blank && StripRight(blank) == StripRight(text) == text && StripLeft(text) == text;
    hide ParseDecimal, IntText, StripLeft, StripRight, IsPlain, IsGrouped;
    LongIsPlainInt(blank);
  }

  lemma UnderscoreBetween(a: string, b: string)
    requires |a| > 0 && |b| > 0 && IsDigits(a) && IsDigits(b)
    ensures IsDigits(a + b) && PythonInt(a + "_" + b) == Some(DigitsValue(a + b))
  {
    var s := a + "_" + b;
    assert IsDigit(s[0]) && IsDigit(s[|s| - 1]) && IsGrouped(s);
    assert StripLeft(s) == s && StripRight(s) == s;
    UngroupedParts(a, b);
    hide StripLeft, StripRight, DigitsValue, Ungrouped, IsGrouped;
  }

  lemma {:induction false} UngroupedParts(a: string, b: string)
    requires IsDigits(a) && IsDigits(b)
    ensures IsDigits(a + b) && Ungrouped(a + "_" + b) == a + b
    decreases |b|
  {
    var s := a + "_" + b;
    var n := |s| - 1;
    if |b| == 0 {
      assert s[..n] == a && s[n] == '_' && a + b == a;
      PlainIsUngrouped(a);
    } else {
      var m := |b| - 1;
      UngroupedParts(a, b[..m]);
      assert s[..n] == a + "_" + b[..m] && s[n] == b[m];
      assert a + b[..m] + [b[m]] == a + b;
    }
  }

  /** An underscore at an end, or next to another one, is refused. */
  lemma MisplacedUnderscore(s: string)
    requires IsPlainButUnderscores(s) && |s| > 0
    requires s[0] == '_' || s[|s| - 1] == '_' || exists i :: 0 <= i < |s| - 1 && s[i] == s[i + 1] == '_'
    ensures PythonInt(s) == None
  {
    assert StripLeft(s) == s && StripRight(s) == s;
    hide StripLeft, StripRight, Ungrouped, DigitsValue;
    if s[0] == '-' || s[0] == '+' {
      var digits := s[1..];
      assert |digits| > 0 ==> digits[|digits| - 1] == s[|s| - 1];
      if i :| 0 <= i < |s| - 1 && s[i] == s[i + 1] == '_' {
        assert digits[i - 1] == s[i] && digits[i] == s[i + 1];
      }
    }
  }

  /** No blanks, so that only the underscores matter. */
  predicate IsPlainButUnderscores(s: string) {
    forall i :: 0 <= i < |s| ==> !IsBlank(s[i])
  }

  /** A text that is no number, read by neither. */
  lemma NoNumber()
    ensures PythonInt("x") == None && ParseLong("x") == None
  {
    assert !IsDigit("x"[0]);
    LongIsPlainInt("x");
  }
}
