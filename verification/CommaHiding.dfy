/** How Clause.java splits the arguments of And(...) and Or(...): commas inside brackets are hidden
    behind a token, the text is split at the commas that are left, and the token is turned back. */
module CommaHiding {
  import opened Basics
  import opened JavaText

  const TOKEN := "HJ3Y5XMC"

  function DepthChange(c: char): int {
    if c == '(' || c == '[' then 1 else if c == ')' || c == ']' then -1 else 0
  }

  /** Bracket depth after reading `s` from depth `d`; it may become negative. */
  function Depth(s: string, d: int): int {
    if |s| == 0 then d else Depth(s[1..], d + DepthChange(s[0]))
  }

  /** `s`, read from depth `d`, with every comma inside brackets replaced by the token. */
  function Hide(s: string, d: int): string {
    if |s| == 0 then ""
    else
      var d' := d + DepthChange(s[0]);
      (if s[0] == ',' && d' > 0 then TOKEN else [s[0]]) + Hide(s[1..], d')
  }

  function Restore(s: string): string {
    ReplaceAll(s, TOKEN, ",")
  }

  function RestoreEach(ps: seq<string>): (r: seq<string>)
    ensures |r| == |ps| && forall i :: 0 <= i < |r| ==> r[i] == Restore(ps[i])
  {
    seq(|ps|, i requires 0 <= i < |ps| => Restore(ps[i]))
  }

  /** The argument texts as the code computes them. */
  function Arguments(s: string): seq<string> {
    RestoreEach(Split(Hide(s, 0), ','))
  }

  // ---- The loops of replaceNonRelevantCommas and replaceBackCommas ----

  method ReplaceNonRelevantCommas(s: string) returns (r: string)
    ensures r == Hide(s, 0)
  {
    if |s| == 0 { return s; }
    var inhibited := new bool[|s|];
    var encounteredInhibitors := 0;
    var index := 0;
    while index < |s|
      invariant 0 <= index <= |s|
      invariant encounteredInhibitors == Depth(s[..index], 0)
      invariant forall i :: 0 <= i < index ==> inhibited[i] == (Depth(s[..i + 1], 0) > 0)
    {
      encounteredInhibitors := encounteredInhibitors + DepthChange(s[index]);
      DepthSnoc(s, index);
      inhibited[index] := encounteredInhibitors > 0;
      index := index + 1;
    }
    r := "";
    index := 0;
    assert s[0..] == s;
    while index < |s|
      invariant 0 <= index <= |s|
      invariant forall i :: 0 <= i < |s| ==> inhibited[i] == (Depth(s[..i + 1], 0) > 0)
      invariant r + Hide(s[index..], Depth(s[..index], 0)) == Hide(s, 0)
    {
      DepthSnoc(s, index);
      ghost var before := r;
      r := r + if inhibited[index] && s[index] == ',' then TOKEN else [s[index]];
      HideStep(s, index);
      ConcatAssociates(before, if inhibited[index] && s[index] == ',' then TOKEN else [s[index]],
                       Hide(s[index + 1..], Depth(s[..index + 1], 0)));
      index := index + 1;
    }
    assert r + "" == r;
  }

  lemma HideStep(s: string, i: nat)
    requires i < |s| && Depth(s[..i + 1], 0) == Depth(s[..i], 0) + DepthChange(s[i])
    ensures Hide(s[i..], Depth(s[..i], 0))
         == (if s[i] == ',' && Depth(s[..i + 1], 0) > 0 then TOKEN else [s[i]]) + Hide(s[i + 1..], Depth(s[..i + 1], 0))
  {
    assert s[i..][1..] == s[i + 1..];
  }

  lemma DepthSnoc(s: string, i: nat)
    requires i < |s|
    ensures Depth(s[..i + 1], 0) == Depth(s[..i], 0) + DepthChange(s[i])
  {
    assert s[..i + 1] == s[..i] + [s[i]];
    DepthConcat(s[..i], [s[i]], 0);
  }

  lemma {:induction false} DepthConcat(x: string, y: string, d: int)
    ensures Depth(x + y, d) == Depth(y, Depth(x, d))
  {
    if |x| == 0 {
      assert x + y == y;
    } else {
      assert (x + y)[1..] == x[1..] + y;
      DepthConcat(x[1..], y, d + DepthChange(x[0]));
    }
  }

  method ReplaceBackCommas(parts: seq<string>) returns (r: seq<string>)
    ensures r == RestoreEach(parts)
  {
    var rets := new string[|parts|];
    var index := 0;
    while index < |parts|
      invariant 0 <= index <= |parts|
      invariant forall i :: 0 <= i < index ==> rets[i] == Restore(parts[i])
    {
      rets[index] := Restore(parts[index]);
      index := index + 1;
    }
    r := rets[..];
  }

  // ---- What the arguments are: a split at the commas outside brackets ----

  /** The pieces between the commas whose bracket depth is at most zero. */
  function DepthPieces(s: string, d: int): (ps: seq<string>)
    ensures |ps| >= 1
  {
    if |s| == 0 then [""]
    else
      var d' := d + DepthChange(s[0]);
      var rest := DepthPieces(s[1..], d');
      if s[0] == ',' && d' <= 0 then [""] + rest else [[s[0]] + rest[0]] + rest[1..]
  }

  /** Two lists of pieces with a comma between them, which joins the pieces on either side when it is inside
      brackets. */
  function Glue(ps: seq<string>, qs: seq<string>, inside: bool): seq<string>
    requires |ps| > 0 && |qs| > 0
  {
    if inside then ps[..|ps| - 1] + [ps[|ps| - 1] + "," + qs[0]] + qs[1..] else ps + qs
  }

  /** The direct split, comma by comma: a comma separates exactly when no more brackets were opened than
      closed before it. */
  lemma {:induction false} CommaSeparatesIffOutside(x: string, y: string, d: int)
    ensures DepthPieces(x + "," + y, d) == Glue(DepthPieces(x, d), DepthPieces(y, Depth(x, d)), Depth(x, d) > 0)
    decreases |x|
  {
    if |x| == 0 {
      assert x + "," + y == "," + y && DepthPieces(x, d) == [""];
      FirstComma(y, d);
    } else {
      hide *;
      var c, tail, d' := x[0], x[1..], d + DepthChange(x[0]);
      CommaSeparatesIffOutside(tail, y, d');
      DepthOfRest(x, d);
      WithoutFirst(x, y);
      PushFirst(x + "," + y, d);
      PushFirst(x, d);
      PushGlue(c, DepthPieces(tail, d'), DepthPieces(y, Depth(x, d)), c == ',' && d' <= 0, Depth(x, d) > 0);
    }
  }

  lemma WithoutFirst(x: string, y: string)
    requires |x| > 0
    ensures (x + "," + y)[0] == x[0] && (x + "," + y)[1..] == x[1..] + "," + y
  {
  }

  lemma DepthOfRest(x: string, d: int)
    requires |x| > 0
    ensures Depth(x, d) == Depth(x[1..], d + DepthChange(x[0]))
  {
  }

  /** One more character in front. */
  function Push(c: char, ps: seq<string>, separates: bool): (r: seq<string>)
    requires |ps| > 0
    ensures |r| > 0
  {
    if separates then [""] + ps else [[c] + ps[0]] + ps[1..]
  }

  lemma PushFirst(s: string, d: int)
    requires |s| > 0
    ensures var d' := d + DepthChange(s[0]);
            DepthPieces(s, d) == Push(s[0], DepthPieces(s[1..], d'), s[0] == ',' && d' <= 0)
  {
  }

  lemma FirstComma(y: string, d: int)
    ensures DepthPieces("," + y, d) == Glue([""], DepthPieces(y, d), d > 0)
  {
    var s, qs := "," + y, DepthPieces(y, d);
    assert s[0] == ',' && s[1..] == y;
    PushFirst(s, d);
    hide DepthPieces;
    assert "" + "," + qs[0] == [','] + qs[0];
    assert [""][..0] == [];
  }

  lemma PushGlue(c: char, ps: seq<string>, qs: seq<string>, separates: bool, inside: bool)
    requires |ps| > 0 && |qs| > 0
    ensures |Glue(ps, qs, inside)| > 0
    ensures Push(c, Glue(ps, qs, inside), separates) == Glue(Push(c, ps, separates), qs, inside)
  {
    if inside {
      PushGlueInside(c, ps, qs, separates);
    } else if !separates {
      assert [[c] + ps[0]] + (ps + qs)[1..] == ([[c] + ps[0]] + ps[1..]) + qs;
    }
  }

  lemma GlueInside(init: seq<string>, last: string, qs: seq<string>)
    requires |qs| > 0
    ensures Glue(init + [last], qs, true) == init + [last + "," + qs[0]] + qs[1..]
  {
    assert (init + [last])[..|init|] == init;
  }

  lemma PushGlueInside(c: char, ps: seq<string>, qs: seq<string>, separates: bool)
    requires |ps| > 0 && |qs| > 0
    ensures Push(c, Glue(ps, qs, true), separates) == Glue(Push(c, ps, separates), qs, true)
  {
    var n := |ps| - 1;
    var init, last := ps[..n], ps[n];
    assert ps == init + [last];
    hide *;
    if separates {
      PushSeparator(c, init, last, qs);
    } else if n == 0 {
      assert init == [];
      PushOnOnly(c, last, qs);
    } else {
      PushOnFirst(c, init, last, qs);
    }
  }

  lemma PushSeparator(c: char, init: seq<string>, last: string, qs: seq<string>)
    requires |qs| > 0
    ensures Push(c, Glue(init + [last], qs, true), true) == Glue(Push(c, init + [last], true), qs, true)
  {
    GlueInside(init, last, qs);
    GlueInside([""] + init, last, qs);
    hide Glue;
    assert [""] + (init + [last]) == ([""] + init) + [last];
  }

  lemma PushOnOnly(c: char, last: string, qs: seq<string>)
    requires |qs| > 0
    ensures Push(c, Glue([] + [last], qs, true), false) == Glue(Push(c, [] + [last], false), qs, true)
  {
    GlueInside([], last, qs);
    GlueInside([], [c] + last, qs);
    hide Glue;
    assert [] + [last] == [last] && [] + [[c] + last] == [[c] + last];
    assert [c] + (last + "," + qs[0]) == [c] + last + "," + qs[0];
  }

  lemma PushOnFirst(c: char, init: seq<string>, last: string, qs: seq<string>)
    requires |init| > 0 && |qs| > 0
    ensures Push(c, Glue(init + [last], qs, true), false) == Glue(Push(c, init + [last], false), qs, true)
  {
    var init' := [[c] + init[0]] + init[1..];
    var rest := [last + "," + qs[0]] + qs[1..];
    GlueInside(init, last, qs);
    GlueInside(init', last, qs);
    PushOnto(c, init, [last]);
    PushOnto(c, init, rest);
    hide Glue, Push;
    ConcatAssociates(init, [last + "," + qs[0]], qs[1..]);
    ConcatAssociates(init', [last + "," + qs[0]], qs[1..]);
  }

  lemma PushOnto(c: char, init: seq<string>, rest: seq<string>)
    requires |init| > 0
    ensures Push(c, init + rest, false) == ([[c] + init[0]] + init[1..]) + rest
  {
    assert (init + rest)[1..] == init[1..] + rest;
  }

  /** How the depth is counted: round and square brackets alike, whether or not they match. */
  lemma {:induction false} DepthCounts(x: string, c: char, d: int)
    ensures Depth("", d) == d
    ensures Depth(x + [c], d) == Depth(x, d) + if c in "([" then 1 else if c in ")]" then -1 else 0
    decreases |x|
  {
    if |x| == 0 {
      var one := x + [c];
      assert one[0] == c && one[1..] == "" && x == "";
      assert Depth(one, d) == Depth("", d + DepthChange(c));
    } else {
      DepthCounts(x[1..], c, d + DepthChange(x[0]));
      assert (x + [c])[0] == x[0] && (x + [c])[1..] == x[1..] + [c];
    }
  }

  function DepthSplit(s: string): seq<string> {
    var ps := DepthPieces(s, 0);
    if |ps| == 1 then ps else DropTrailingEmpty(ps)
  }

  /** The token appears in hidden text only where a comma was hidden. No proper prefix of the token is
      also a suffix of it, so text in front of a hidden comma cannot run into the token. */
  lemma TokenOnlyWhereHidden(s: string, d: int)
    requires |s| > 0 && !Occurs(TOKEN, s)
    requires !(s[0] == ',' && d + DepthChange(s[0]) > 0)
    ensures !(TOKEN <= Hide(s, d))
  {
    if TOKEN <= Hide(s, d) {
      TokenCopied(s, d);
    }
  }

  lemma TokenCopied(s: string, d: int)
    requires |s| > 0 && TOKEN <= Hide(s, d)
    requires !(s[0] == ',' && d + DepthChange(s[0]) > 0)
    ensures Occurs(TOKEN, s)
  {
    var d' := d + DepthChange(s[0]);
    assert Hide(s, d)[1..] == Hide(s[1..], d');
    HiddenPrefix(s[1..], d', TOKEN[1..]);
    assert TOKEN <= s[0..];
  }

  /** Text without an 'H' at the front of hidden text was there before commas were hidden. */
  lemma {:induction false} HiddenPrefix(s: string, d: int, t: string)
    requires 'H' !in t && t <= Hide(s, d)
    ensures t <= s
    decreases |t|
  {
    if |t| > 0 {
      var d' := d + DepthChange(s[0]);
      assert t[0] == Hide(s, d)[0];
      assert Hide(s, d)[1..] == Hide(s[1..], d');
      HiddenPrefix(s[1..], d', t[1..]);
    }
  }

  /** Restoring the pieces of hidden text gives the pieces between the commas outside brackets. */
  lemma {:induction false} PiecesOfHidden(s: string, d: int)
    requires !Occurs(TOKEN, s)
    ensures RestoreEach(Pieces(Hide(s, d), ',')) == DepthPieces(s, d)
    decreases |s|
  {
    hide Occurs, ReplaceAll, Restore, RestoreEach;
    RestoreEmpty();
    if |s| == 0 {
      RestoreEachCons("", "", []);
    } else {
      var c, rest := s[0], s[1..];
      var d' := d + DepthChange(c);
      OccursInSuffix(s);
      PiecesOfHidden(rest, d');
      var h := Hide(rest, d');
      var ps := Pieces(h, ',');
      if c == ',' && d' > 0 {
        PiecesOfPrefix(TOKEN, h, ',');
        RestoreToken(ps[0]);
        RestoreEachHead(ps, TOKEN + ps[0], c);
      } else if c == ',' {
        assert ([','] + h)[1..] == h;
        RestoreEachCons("", "", ps);
      } else {
        PiecesOfPrefix([c], h, ',');
        FirstPieceIsPrefix(h);
        TokenOnlyWhereHidden(s, d);
        PrefixOfPrefix([c] + ps[0], [c] + h);
        RestoreChar(c, ps[0]);
        RestoreEachHead(ps, [c] + ps[0], c);
      }
    }
  }

  lemma RestoreEachCons(p: string, q: string, ps: seq<string>)
    requires Restore(p) == q
    ensures RestoreEach([p] + ps) == [q] + RestoreEach(ps)
  {
    hide Restore;
  }

  lemma RestoreEachHead(ps: seq<string>, p: string, c: char)
    requires |ps| > 0 && Restore(p) == [c] + Restore(ps[0])
    ensures RestoreEach([p] + ps[1..]) == [[c] + RestoreEach(ps)[0]] + RestoreEach(ps)[1..]
  {
    hide Restore;
  }

  lemma PrefixOfPrefix(x: string, y: string)
    requires x <= y && !(TOKEN <= y)
    ensures !(TOKEN <= x)
  {
  }

  lemma {:induction false} FirstPieceIsPrefix(s: string)
    ensures Pieces(s, ',')[0] <= s
  {
    if |s| > 0 {
      FirstPieceIsPrefix(s[1..]);
    }
  }

  lemma OccursInSuffix(s: string)
    requires |s| > 0
    ensures Occurs(TOKEN, s[1..]) ==> Occurs(TOKEN, s)
  {
    if Occurs(TOKEN, s[1..]) {
      var i :| 0 <= i <= |s[1..]| && TOKEN <= s[1..][i..];
      assert s[1..][i..] == s[i + 1..];
    }
  }

  lemma RestoreEmpty()
    ensures Restore("") == ""
  {
  }

  lemma RestoreToken(x: string)
    ensures Restore(TOKEN + x) == "," + Restore(x)
  {
    assert (TOKEN + x)[8..] == x;
  }

  lemma RestoreChar(c: char, x: string)
    requires !(TOKEN <= [c] + x)
    ensures Restore([c] + x) == [c] + Restore(x)
  {
    assert ([c] + x)[1..] == x;
  }

  lemma {:induction false} DropTrailingRestored(ps: seq<string>)
    ensures RestoreEach(DropTrailingEmpty(ps)) == DropTrailingEmpty(RestoreEach(ps))
    decreases |ps|
  {
    if |ps| > 0 {
      hide Restore;
      var n := |ps| - 1;
      RestoredEmpty(ps[n]);
      if |ps[n]| == 0 {
        DropTrailingRestored(ps[..n]);
        assert RestoreEach(ps)[..n] == RestoreEach(ps[..n]);
      }
    }
  }

  lemma RestoredEmpty(x: string)
    ensures |Restore(x)| == 0 <==> |x| == 0
  {
  }

  /** For every text without the token, balanced or not, hiding, splitting and restoring is the direct
      split at the commas whose bracket depth is at most zero. */
  lemma ArgumentsAreDepthSplit(s: string)
    requires !Occurs(TOKEN, s)
    ensures Arguments(s) == DepthSplit(s)
  {
    hide Occurs, Restore, Hide, DepthPieces, Pieces, DropTrailingEmpty;
    PiecesOfHidden(s, 0);
    DropTrailingRestored(Pieces(Hide(s, 0), ','));
  }

  // ---- Arguments are no longer than the text, whatever it holds ----

  /** Holds for texts with the token too; this is why parsing terminates on every input. */
  lemma ArgumentsShrink(s: string)
    ensures forall i :: 0 <= i < |Arguments(s)| ==> |Arguments(s)[i]| <= |s|
  {
    hide Hide, Pieces, Restore;
    RestoredPiecesShrink(s, 0);
  }

  lemma {:induction false} RestoredPiecesShrink(s: string, d: int)
    ensures forall i :: 0 <= i < |Pieces(Hide(s, d), ',')| ==> |Restore(Pieces(Hide(s, d), ',')[i])| <= |s|
    decreases |s|
  {
    if |s| > 0 {
      hide ReplaceAll, Restore;
      var c, rest := s[0], s[1..];
      var d' := d + DepthChange(c);
      RestoredPiecesShrink(rest, d');
      var h := Hide(rest, d');
      var ps := Pieces(h, ',');
      RestoreEmpty();
      if c == ',' && d' > 0 {
        PiecesOfPrefix(TOKEN, h, ',');
        RestoreToken(ps[0]);
      } else {
        assert ([c] + h)[1..] == h;
        RestoreCharShrinks(c, ps[0]);
      }
    } else {
      RestoreEmpty();
    }
  }

  lemma RestoreCharShrinks(c: char, x: string)
    ensures |Restore([c] + x)| <= 1 + |Restore(x)|
  {
    hide ReplaceAll, Restore;
    if TOKEN <= [c] + x {
      var y := x[7..];
      assert [c] + x == TOKEN + y;
      RestoreToken(y);
      assert x == TOKEN[1..] + y;
      RestoreSkips(TOKEN[1..], y);
    } else {
      RestoreChar(c, x);
    }
  }

  lemma NotTheToken(x: string)
    requires |x| > 0 && x[0] != 'H'
    ensures !(TOKEN <= x)
  {
  }

  lemma {:induction false} RestoreSkips(t: string, y: string)
    requires 'H' !in t
    ensures Restore(t + y) == t + Restore(y)
  {
    hide ReplaceAll, Restore;
    if |t| == 0 {
      assert t + y == y;
    } else {
      assert t + y == [t[0]] + (t[1..] + y);
      NotTheToken([t[0]] + (t[1..] + y));
      RestoreChar(t[0], t[1..] + y);
      RestoreSkips(t[1..], y);
    }
  }

  // ---- The token is exactly what the method cannot carry ----

  function TotalLength(ps: seq<string>): nat {
    if |ps| == 0 then 0 else |ps[0]| + TotalLength(ps[1..])
  }

  /** Restored pieces never hold more text than the direct pieces, and less as soon as the token occurs. */
  lemma {:induction false} TokenIsLost(s: string, d: int)
    ensures TotalLength(RestoreEach(Pieces(Hide(s, d), ','))) <= TotalLength(DepthPieces(s, d))
    ensures Occurs(TOKEN, s) ==> TotalLength(RestoreEach(Pieces(Hide(s, d), ','))) < TotalLength(DepthPieces(s, d))
    decreases |s|
  {
    hide Occurs, ReplaceAll, Restore, RestoreEach, TotalLength;
    RestoreEmpty();
    if |s| == 0 {
      EmptyHasNoToken(s);
      PiecesOfHidden(s, d);
    } else {
      var c, rest := s[0], s[1..];
      var d' := d + DepthChange(c);
      TokenIsLost(rest, d');
      OccursHere(s);
      var h, ds := Hide(rest, d'), DepthPieces(rest, d');
      var ps := Pieces(h, ',');
      if c == ',' && d' > 0 {
        PiecesOfPrefix(TOKEN, h, ',');
        RestoreToken(ps[0]);
        LengthsOfHead(ps, ds, TOKEN + ps[0], [c] + ds[0]);
      } else if c == ',' {
        assert ([','] + h)[1..] == h;
        RestoreEachCons("", "", ps);
        LengthOfCons("", RestoreEach(ps));
        LengthOfCons("", ds);
      } else {
        PiecesOfPrefix([c], h, ',');
        RestoreCharShrinks(c, ps[0]);
        if TOKEN <= s {
          TokenStays(s, d, c, h, ps[0]);
          RestoreTokenShrinks(c, ps[0]);
        }
        LengthsOfHead(ps, ds, [c] + ps[0], [c] + ds[0]);
      }
    }
  }

  lemma EmptyHasNoToken(s: string)
    requires |s| == 0
    ensures !Occurs(TOKEN, s)
  {
  }

  lemma OccursHere(s: string)
    requires |s| > 0
    ensures Occurs(TOKEN, s) ==> TOKEN <= s || Occurs(TOKEN, s[1..])
  {
    if Occurs(TOKEN, s) && !(TOKEN <= s) {
      var i :| 0 <= i <= |s| && TOKEN <= s[i..];
      assert i > 0;
      assert s[1..][i - 1..] == s[i..];
    }
  }

  lemma LengthOfCons(p: string, ps: seq<string>)
    ensures TotalLength([p] + ps) == |p| + TotalLength(ps)
  {
    assert ([p] + ps)[1..] == ps;
  }

  /** Changing the first piece changes the totals by as much. */
  lemma LengthsOfHead(ps: seq<string>, ds: seq<string>, p: string, q: string)
    requires |ps| > 0 && |ds| > 0
    ensures TotalLength(RestoreEach([p] + ps[1..])) == TotalLength(RestoreEach(ps)) - |Restore(ps[0])| + |Restore(p)|
    ensures TotalLength([q] + ds[1..]) == TotalLength(ds) - |ds[0]| + |q|
  {
    hide Restore, TotalLength, RestoreEach;
    assert ps == [ps[0]] + ps[1..] && ds == [ds[0]] + ds[1..];
    RestoreEachCons(ps[0], Restore(ps[0]), ps[1..]);
    RestoreEachCons(p, Restore(p), ps[1..]);
    LengthOfCons(Restore(ps[0]), RestoreEach(ps[1..]));
    LengthOfCons(Restore(p), RestoreEach(ps[1..]));
    LengthOfCons(ds[0], ds[1..]);
    LengthOfCons(q, ds[1..]);
  }

  /** A token in the text reaches the first piece of the hidden text. */
  lemma TokenStays(s: string, d: int, c: char, h: string, first: string)
    requires TOKEN <= s && c == s[0] && h == Hide(s[1..], d + DepthChange(c)) && first == Pieces(h, ',')[0]
    ensures TOKEN <= [c] + first
  {
    var t := TOKEN[1..];
    PlainPrefixStays(s[1..], d + DepthChange(c), t);
    FirstPieceKeeps(h, t);
    assert TOKEN == ['H'] + t;
  }

  lemma {:induction false} PlainPrefixStays(s: string, d: int, t: string)
    requires t <= s && ',' !in t
    ensures t <= Hide(s, d)
    decreases |t|
  {
    if |t| > 0 {
      PlainPrefixStays(s[1..], d + DepthChange(s[0]), t[1..]);
    }
  }

  lemma {:induction false} FirstPieceKeeps(h: string, t: string)
    requires t <= h && ',' !in t
    ensures t <= Pieces(h, ',')[0]
    decreases |t|
  {
    if |t| > 0 {
      FirstPieceKeeps(h[1..], t[1..]);
    }
  }

  lemma RestoreTokenShrinks(c: char, x: string)
    requires TOKEN <= [c] + x
    ensures |Restore([c] + x)| < 1 + |Restore(x)|
  {
    hide ReplaceAll, Restore;
    var y := x[7..];
    assert [c] + x == TOKEN + y;
    RestoreToken(y);
    assert x == TOKEN[1..] + y;
    RestoreSkips(TOKEN[1..], y);
  }

  lemma {:induction false} TrailingHasNoLength(ps: seq<string>)
    ensures TotalLength(DropTrailingEmpty(ps)) == TotalLength(ps)
    decreases |ps|
  {
    if |ps| > 0 && |ps[|ps| - 1]| == 0 {
      TrailingHasNoLength(ps[..|ps| - 1]);
      LengthOfSnoc(ps[..|ps| - 1], ps[|ps| - 1]);
      assert ps == ps[..|ps| - 1] + [ps[|ps| - 1]];
    }
  }

  lemma {:induction false} LengthOfSnoc(ps: seq<string>, p: string)
    ensures TotalLength(ps + [p]) == TotalLength(ps) + |p|
  {
    if |ps| > 0 {
      assert (ps + [p])[1..] == ps[1..] + [p];
      LengthOfSnoc(ps[1..], p);
    }
  }

  /** Hiding, splitting and restoring is the direct split exactly when the text does not hold the token. */
  lemma ArgumentsAreDepthSplitIff(s: string)
    ensures Arguments(s) == DepthSplit(s) <==> !Occurs("HJ3Y5XMC", s)
  {
    hide Occurs, Restore, Hide, DepthPieces, Pieces, DropTrailingEmpty, TotalLength, RestoreEach;
    if Occurs(TOKEN, s) {
      var ps := Pieces(Hide(s, 0), ',');
      TokenIsLost(s, 0);
      DropTrailingRestored(ps);
      TrailingHasNoLength(RestoreEach(ps));
      TrailingHasNoLength(DepthPieces(s, 0));
    } else {
      ArgumentsAreDepthSplit(s);
    }
  }
}
