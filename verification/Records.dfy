/** Newline-separated records of a file, the byte window a range request exposes,
    and the positions at which the records of one range start. */
module Records {
  import opened Basics

  /** The bytes of `f` at the offsets `start <= i < end`, clipped to the file. */
  function Window<T>(f: seq<T>, start: nat, end: nat): (w: seq<T>)
    ensures start >= |f| || start >= end ==> |w| == 0
    ensures start < |f| && start < end ==> start + |w| == if end <= |f| then end else |f|
  {
    if start >= |f| || start >= end then []
    else
      var stop := if end <= |f| then end else |f|;
      seq(stop - start, i requires 0 <= i < stop - start => f[start + i])
  }

  lemma WindowAt<T>(f: seq<T>, start: nat, end: nat, k: nat)
    requires k < |Window(f, start, end)|
    ensures start + k < end && start + k < |f| && Window(f, start, end)[k] == f[start + k]
  {
  }

  /** Offset of the newline that ends the line holding offset `p`; the end of the file when there is none. */
  function LineEnd(f: string, p: nat): (e: nat)
    ensures p <= e
    ensures p <= |f| ==> e <= |f|
    ensures p >= |f| ==> e == p
    decreases |f| - p
  {
    if p >= |f| || f[p] == '\n' then p else LineEnd(f, p + 1)
  }

  lemma {:induction false} LineEndIsFirstNewline(f: string, p: nat)
    ensures LineEnd(f, p) < |f| ==> f[LineEnd(f, p)] == '\n'
    ensures forall i :: p <= i < LineEnd(f, p) ==> i < |f| && f[i] != '\n'
    decreases |f| - p
  {
    if p < |f| && f[p] != '\n' {
      LineEndIsFirstNewline(f, p + 1);
    }
  }

  /** Where the next line starts. A line that the end of the file cuts off counts as terminated,
      just as the storlets charge every line one separator byte. */
  function NextLine(f: string, p: nat): nat {
    LineEnd(f, p) + 1
  }

  /** The text of the record that starts at `p`, without its terminator. */
  function RecordAt(f: string, p: nat): string {
    if p < |f| then Window(f, p, LineEnd(f, p)) else ""
  }

  /** The record starts met when reading lines from `p` until a start lies past `hi`. */
  function StartsFrom(f: string, p: nat, hi: int): seq<nat>
    decreases |f| - p
  {
    if p >= |f| || p > hi then [] else [p] + StartsFrom(f, NextLine(f, p), hi)
  }

  /** The records read from `p` until one starts past `hi`. */
  function LinesFrom(f: string, p: nat, hi: int): seq<string>
    decreases |f| - p
  {
    if p >= |f| || p > hi then [] else [RecordAt(f, p)] + LinesFrom(f, NextLine(f, p), hi)
  }

  /** What a storlet writes for a list of records: each one followed by a newline. */
  function Text(records: seq<string>): string {
    if |records| == 0 then "" else records[0] + "\n" + Text(records[1..])
  }

  /** No record of the file is longer than `n`, its terminator not counted. */
  ghost predicate RecordsFit(f: string, n: int) {
    forall p: nat :: LineFits(f, p, n)
  }

  predicate LineFits(f: string, p: nat, n: int) {
    p < |f| ==> LineEnd(f, p) - p <= n
  }

  /** `p` is where a record starts when reading begins at offset `from`. */
  predicate IsStart(f: string, from: nat, p: nat) {
    from <= p < |f| && (p == from || f[p - 1] == '\n')
  }

  // ---- StartsFrom is exactly the set of record starts up to a bound ----

  lemma {:induction false} StartsAreExact(f: string, from: nat, hi: int, p: nat)
    ensures p in StartsFrom(f, from, hi) <==> IsStart(f, from, p) && p <= hi
    decreases |f| - from
  {
    if from < |f| && from <= hi {
      var next := NextLine(f, from);
      LineEndIsFirstNewline(f, from);
      StartsAreExact(f, next, hi, p);
      if from < p < |f| && p <= hi && f[p - 1] == '\n' {
        assert next <= p;
      }
    }
  }

  lemma {:induction false} StartsAscend(f: string, from: nat, hi: int)
    ensures var ps := StartsFrom(f, from, hi);
            forall i, j :: 0 <= i < j < |ps| ==> ps[i] < ps[j]
    decreases |f| - from
  {
    var ps := StartsFrom(f, from, hi);
    if from < |f| && from <= hi {
      var next := NextLine(f, from);
      var rest := StartsFrom(f, next, hi);
      assert ps[0] == from && ps[1..] == rest;
      hide StartsFrom, LineEnd;
      StartsAscend(f, next, hi);
      forall j | 0 < j < |ps| ensures ps[0] < ps[j] && ps[j] == rest[j - 1] {
        assert ps[j] == ps[1..][j - 1];
        StartsAreExact(f, next, hi, rest[j - 1]);
      }
    }
  }

  lemma {:induction false} LinesAreTheRecords(f: string, from: nat, hi: int)
    ensures |LinesFrom(f, from, hi)| == |StartsFrom(f, from, hi)|
    ensures forall i :: 0 <= i < |StartsFrom(f, from, hi)| ==>
              LinesFrom(f, from, hi)[i] == RecordAt(f, StartsFrom(f, from, hi)[i])
    decreases |f| - from
  {
    if from < |f| && from <= hi {
      LinesAreTheRecords(f, NextLine(f, from), hi);
    }
  }

  /** Dropping the line at `m` and reading on resumes exactly where reading up to `m` stopped. */
  lemma {:induction false} LinesSplit(f: string, from: nat, m: nat, hi: int)
    requires from <= m <= hi
    ensures LinesFrom(f, from, hi) == LinesFrom(f, from, m) + LinesFrom(f, NextLine(f, m), hi)
    decreases |f| - from
  {
    hide RecordAt, LineEnd;
    if from < |f| {
      var next := NextLine(f, from);
      if next <= m {
        LinesSplit(f, next, m, hi);
      } else {
        SameLineEnd(f, from, m);
        assert LinesFrom(f, next, m) == [];
      }
    }
  }

  lemma {:induction false} SameLineEnd(f: string, p: nat, q: nat)
    requires p <= q <= LineEnd(f, p)
    ensures LineEnd(f, q) == LineEnd(f, p)
    decreases q - p
  {
    if p < q {
      SameLineEnd(f, p + 1, q);
    }
  }

  /** A bound past the end of the file is no bound. */
  lemma {:induction false} LinesUnbounded(f: string, from: nat, hi: int, hi': int)
    requires |f| <= hi + 1 && |f| <= hi' + 1
    ensures LinesFrom(f, from, hi) == LinesFrom(f, from, hi')
    decreases |f| - from
  {
    if from < |f| {
      LinesUnbounded(f, NextLine(f, from), hi, hi');
    }
  }

  // ---- Reading a window of the file instead of the file ----

  lemma {:induction false} WindowLineEnd(f: string, a: nat, b: nat, p: nat)
    requires a <= p < |f| && p < b
    ensures var e := LineEnd(f, p);
            LineEnd(Window(f, a, b), p - a) == (if e <= b then e else b) - a
    decreases |f| - p
  {
    var w := Window(f, a, b);
    assert w[p - a] == f[p];
    if f[p] != '\n' && p + 1 < |f| && p + 1 < b {
      WindowLineEnd(f, a, b, p + 1);
    }
  }

  /** Lines read from a window that reaches far enough past `hi` are the lines of the file. */
  lemma {:induction false} WindowLines(f: string, w: string, a: nat, b: nat, p: nat, hi: int, q: nat, h: int, n: nat)
    requires w == Window(f, a, b) && p == a + q && hi == a + h
    requires hi < b && hi + n <= b && RecordsFit(f, n)
    ensures LinesFrom(w, q, h) == LinesFrom(f, p, hi)
    decreases |f| - p
  {
    if p < |f| && p <= hi {
      assert LineFits(f, p, n);
      WindowLineEnd(f, a, b, p);
      assert LineEnd(w, q) == LineEnd(f, p) - a;
      assert RecordAt(w, q) == RecordAt(f, p);
      WindowLines(f, w, a, b, NextLine(f, p), hi, NextLine(w, q), h, n);
    }
  }

  /** The same after the first, possibly broken, line of the window was discarded. */
  lemma WindowDropsFirstLine(f: string, w: string, a: nat, b: nat, hi: int, h: int, n: nat)
    requires w == Window(f, a, b) && hi == a + h
    requires a <= hi < b && hi + n <= b && RecordsFit(f, n)
    ensures LinesFrom(w, NextLine(w, 0), h) == LinesFrom(f, NextLine(f, a), hi)
  {
    if a < |f| {
      assert LineFits(f, a, n);
      WindowLineEnd(f, a, b, a);
      WindowLines(f, w, a, b, NextLine(f, a), hi, NextLine(w, 0), h, n);
    }
  }

  // ---- Records and bytes ----

  lemma {:induction false} TextConcat(rs: seq<string>, ss: seq<string>)
    ensures Text(rs + ss) == Text(rs) + Text(ss)
  {
    if |rs| == 0 {
      assert rs + ss == ss;
    } else {
      assert (rs + ss)[1..] == rs[1..] + ss;
      TextConcat(rs[1..], ss);
      ConcatAssociates(rs[0] + "\n", Text(rs[1..]), Text(ss));
    }
  }

  /** Writing every record back reproduces the file, plus the final newline when it is missing. */
  lemma {:induction false} LinesAreTheFile(f: string, from: nat)
    requires from <= |f|
    ensures Text(LinesFrom(f, from, |f|)) == f[from..] + MissingNewline(f, from)
    decreases |f| - from
  {
    hide RecordAt, Text, LineEnd;
    EmptyText();
    if from < |f| {
      var e := LineEnd(f, from);
      TextCons(RecordAt(f, from), LinesFrom(f, e + 1, |f|));
      SplitFirstLine(f, from, e);
      if e < |f| {
        LinesAreTheFile(f, e + 1);
        ConcatAssociates(RecordAt(f, from) + "\n", f[e + 1..], MissingNewline(f, e + 1));
      }
    }
  }

  lemma SplitFirstLine(f: string, from: nat, e: nat)
    requires from < |f| && e == LineEnd(f, from)
    ensures if e < |f| then f[from..] == RecordAt(f, from) + "\n" + f[e + 1..] && (e + 1 < |f| || f[|f| - 1] == '\n')
            else f[from..] == RecordAt(f, from) && f[|f| - 1] != '\n'
  {
    LineEndIsFirstNewline(f, from);
    assert RecordAt(f, from) == f[from..e];
  }

  lemma TextSnoc(rs: seq<string>, r: string)
    ensures Text(rs + [r]) == Text(rs) + r + "\n"
  {
    TextConcat(rs, [r]);
    SingleText(r);
    ConcatAssociates(Text(rs), r, "\n");
  }

  lemma EmptyText()
    ensures Text([]) == ""
  {
  }

  lemma RecordLength(f: string, p: nat)
    requires p < |f|
    ensures |RecordAt(f, p)| + 1 == NextLine(f, p) - p
  {
  }

  lemma SingleText(r: string)
    ensures Text([r]) == r + "\n"
  {
    assert r + "\n" + "" == r + "\n";
  }

  lemma TextCons(r: string, rs: seq<string>)
    ensures Text([r] + rs) == r + "\n" + Text(rs)
  {
    assert ([r] + rs)[1..] == rs;
  }

  /** What has to be added after offset `from` for the file to end in a newline. */
  function MissingNewline(f: string, from: nat): string {
    if from >= |f| || f[|f| - 1] == '\n' then "" else "\n"
  }

  // ---- Files cut into adjacent ranges ----

  /** `ends` are the inclusive last bytes of ranges laid end to end from `start`, none empty. */
  predicate AdjacentRanges(start: nat, ends: seq<nat>)
    decreases |ends|
  {
    |ends| == 0 || (start <= ends[0] && AdjacentRanges(ends[0] + 1, ends[1..]))
  }

  /** Where the first record of a range starts: a later partition leaves the line at `start` to its predecessor. */
  function FirstStart(f: string, start: nat, first: bool): nat {
    if first then start else NextLine(f, start)
  }

  lemma {:induction false} LastIsBeyond(start: nat, ends: seq<nat>, last: nat)
    requires AdjacentRanges(start, ends) && |ends| > 0 && last == ends[|ends| - 1]
    ensures start <= last
    decreases |ends|
  {
    if |ends| > 1 {
      LastIsBeyond(ends[0] + 1, ends[1..], last);
    }
  }
}
