/**
 * Properties of `SEQUENTIAL_SPACES`, `DASH_EM` and `DASH_EN`
 * (apps/utils.py:300-303).
 */
module TypographDashes {
  import opened Wrappers
  import opened Text
  import opened Typograph
  import opened TypographScan

  /** A scan of `SEQUENTIAL_SPACES` starts with a space exactly where the input starts with a blank. */
  lemma SequentialSpacesHead(s: string, p: nat)
    requires p < |s|
    ensures var t := Sub(SequentialSpaces, s, p);
      t != [] && t[0] != '\t' && (t[0] == ' ' <==> IsBlank(s[p]))
  {
  }

  /** The characters other than spaces and tabs, in order. */
  function NonBlanks(t: string): string
  {
    if t == [] then [] else (if IsBlank(t[0]) then [] else [t[0]]) + NonBlanks(t[1..])
  }

  lemma {:induction false} NonBlanksAppend(a: string, b: string)
    ensures NonBlanks(a + b) == NonBlanks(a) + NonBlanks(b)
  {
    if a == [] {
      assert a + b == b;
    } else {
      assert (a + b)[0] == a[0] && (a + b)[1..] == a[1..] + b;
      NonBlanksAppend(a[1..], b);
    }
  }

  lemma {:induction false} NonBlanksOfBlanks(t: string)
    requires forall k :: 0 <= k < |t| ==> IsBlank(t[k])
    ensures NonBlanks(t) == []
  {
    if t != [] {
      NonBlanksOfBlanks(t[1..]);
    }
  }

  /**
   * After `SEQUENTIAL_SPACES` no tab and no two adjacent spaces remain, and
   * every character other than a space or a tab is kept, in order.
   */
  lemma SequentialSpacesSqueeze(s: string, p: nat)
    requires p <= |s|
    ensures var t := Sub(SequentialSpaces, s, p);
      && (forall i :: 0 <= i < |t| ==> t[i] != '\t')
      && (forall i :: 0 <= i < |t| - 1 ==> !(t[i] == ' ' && t[i + 1] == ' '))
    ensures NonBlanks(Sub(SequentialSpaces, s, p)) == NonBlanks(s[p..])
  {
    SqueezedShape(s, p);
    SqueezedKeeps(s, p);
  }

  lemma {:induction false} SqueezedShape(s: string, p: nat)
    requires p <= |s|
    ensures var t := Sub(SequentialSpaces, s, p);
      && (forall i :: 0 <= i < |t| ==> t[i] != '\t')
      && (forall i :: 0 <= i < |t| - 1 ==> !(t[i] == ' ' && t[i + 1] == ' '))
    decreases |s| - p
  {
    if p < |s| {
      var t := Sub(SequentialSpaces, s, p);
      var next := if IsBlank(s[p]) then BlankEnd(s, p) else p + 1;
      var c := if IsBlank(s[p]) then ' ' else s[p];
      var u := Sub(SequentialSpaces, s, next);
      assert t == [c] + u;
      SqueezedShape(s, next);
      if next < |s| {
        SequentialSpacesHead(s, next);
      }
      assert u != [] && c == ' ' ==> u[0] != ' ';
      forall i | 0 <= i < |t| - 1
        ensures !(t[i] == ' ' && t[i + 1] == ' ')
      {
        if i >= 1 {
          assert t[i] == u[i - 1] && t[i + 1] == u[i];
        }
      }
      forall i | 0 <= i < |t|
        ensures t[i] != '\t'
      {
        if i >= 1 {
          assert t[i] == u[i - 1];
        }
      }
    }
  }

  lemma {:induction false} SqueezedKeeps(s: string, p: nat)
    requires p <= |s|
    ensures NonBlanks(Sub(SequentialSpaces, s, p)) == NonBlanks(s[p..])
    decreases |s| - p
  {
    if p < |s| {
      var t := Sub(SequentialSpaces, s, p);
      var next := if IsBlank(s[p]) then BlankEnd(s, p) else p + 1;
      var c := if IsBlank(s[p]) then ' ' else s[p];
      var u := Sub(SequentialSpaces, s, next);
      assert t == [c] + u;
      SqueezedKeeps(s, next);
      assert t[1..] == u;
      assert s[p..] == s[p..next] + s[next..];
      NonBlanksAppend(s[p..next], s[next..]);
      if IsBlank(s[p]) {
        NonBlanksOfBlanks(s[p..next]);
      } else {
        assert s[p..next] == [s[p]];
      }
    }
  }

  /** What the character at `i` becomes when runs of blanks are squeezed: a blank that starts a run a space, any later blank of the run nothing, any other character itself. */
  function SqueezePiece(s: string, i: nat): string
    requires i < |s|
  {
    if !IsBlank(s[i]) then [s[i]]
    else if i > 0 && IsBlank(s[i - 1]) then []
    else " "
  }

  /** `s[p..]` with every maximal run of spaces and tabs replaced by one space. */
  function Squeeze(s: string, p: nat): string
    requires p <= |s|
    decreases |s| - p
  {
    if p == |s| then [] else SqueezePiece(s, p) + Squeeze(s, p + 1)
  }

  /** Blanks `[ \t]+` are replaced run by run: before `i` the replaced runs reach the end of the run `s[i - 1]` belongs to. */
  lemma {:induction false} SpacesFrontier(s: string, i: nat)
    requires i <= |s|
    ensures Frontier(Table(SequentialSpaces, s), i) == if i > 0 && IsBlank(s[i - 1]) then BlankEnd(s, i) else i
    decreases i
  {
    if i > 0 {
      SpacesFrontier(s, i - 1);
      TableEntry(SequentialSpaces, s, i - 1);
    }
  }

  lemma SpacesPiece(s: string, i: nat)
    requires i < |s|
    ensures Piece(Table(SequentialSpaces, s), s, i) == SqueezePiece(s, i)
  {
    SpacesFrontier(s, i);
    TableEntry(SequentialSpaces, s, i);
  }

  lemma {:induction false} SpacesRewritten(s: string, p: nat)
    requires p <= |s|
    ensures Rewritten(Table(SequentialSpaces, s), s, p) == Squeeze(s, p)
    decreases |s| - p
  {
    if p < |s| {
      SpacesPiece(s, p);
      SpacesRewritten(s, p + 1);
    }
  }

  /** `SEQUENTIAL_SPACES` replaces every maximal run of spaces and tabs by exactly one space and keeps every other character. */
  lemma SequentialSpacesResult(s: string)
    ensures Substitute(SequentialSpaces, s) == Squeeze(s, 0)
  {
    SubstituteIsRewritten(SequentialSpaces, s);
    SpacesRewritten(s, 0);
  }

  /**
   * The hyphen at `i` becomes an em dash: it stands between a space or a
   * comma and a space, and the character before it was not taken by a
   * match around the hyphen two places before.
   */
  predicate EmAt(s: string, i: nat)
    decreases i
  {
    && 1 <= i && i + 1 < |s|
    && s[i] == '-' && (s[i - 1] == ' ' || s[i - 1] == ',') && s[i + 1] == ' '
    && !(i >= 2 && EmAt(s, i - 2))
  }

  /**
   * `DASH_EM` from a position that no match covers: a length-preserving
   * substitution of an em dash for exactly the hyphens `EmAt` selects.
   */
  lemma {:induction false} DashEmPointwise(s: string, p: nat)
    requires p <= |s| && !EmAt(s, p) && !(p >= 1 && EmAt(s, p - 1))
    ensures |Sub(DashEm, s, p)| == |s| - p
    ensures forall i :: p <= i < |s| ==> Sub(DashEm, s, p)[i - p] == if EmAt(s, i) then '\U{2014}' else s[i]
    decreases |s| - p, 1
  {
    if p < |s| {
      if DashEmMatch(s, p).None? {
        DashEmSkip(s, p);
      } else {
        DashEmMatched(s, p);
      }
    }
  }

  /** The step of `DashEmPointwise` where nothing matches at `p`. */
  lemma {:induction false} DashEmSkip(s: string, p: nat)
    requires p < |s| && !EmAt(s, p) && !(p >= 1 && EmAt(s, p - 1)) && DashEmMatch(s, p).None?
    ensures |Sub(DashEm, s, p)| == |s| - p
    ensures forall i :: p <= i < |s| ==> Sub(DashEm, s, p)[i - p] == if EmAt(s, i) then '\U{2014}' else s[i]
    decreases |s| - p, 0
  {
    var t := Sub(DashEm, s, p);
    var u := Sub(DashEm, s, p + 1);
    assert t == [s[p]] + u;
    assert !EmAt(s, p + 1);
    DashEmPointwise(s, p + 1);
    forall i | p < i < |s|
      ensures t[i - p] == if EmAt(s, i) then '\U{2014}' else s[i]
    {
      assert t[i - p] == u[i - (p + 1)];
    }
  }

  /** The step of `DashEmPointwise` where `s[p..p + 3]` matches and its hyphen becomes an em dash. */
  lemma {:induction false} DashEmMatched(s: string, p: nat)
    requires p < |s| && !EmAt(s, p) && !(p >= 1 && EmAt(s, p - 1)) && DashEmMatch(s, p).Some?
    ensures |Sub(DashEm, s, p)| == |s| - p
    ensures forall i :: p <= i < |s| ==> Sub(DashEm, s, p)[i - p] == if EmAt(s, i) then '\U{2014}' else s[i]
    decreases |s| - p, 0
  {
    var t := Sub(DashEm, s, p);
    assert EmAt(s, p + 1) && !EmAt(s, p + 2) && !EmAt(s, p + 3);
    var u := Sub(DashEm, s, p + 3);
    assert t == [s[p], '\U{2014}', ' '] + u;
    DashEmPointwise(s, p + 3);
    forall i | p + 3 <= i < |s|
      ensures t[i - p] == if EmAt(s, i) then '\U{2014}' else s[i]
    {
      assert t[i - p] == u[i - (p + 3)];
    }
  }

  /** `DASH_EM` on a whole text. */
  lemma DashEmResult(s: string)
    ensures |Substitute(DashEm, s)| == |s|
    ensures forall i :: 0 <= i < |s| ==> Substitute(DashEm, s)[i] == if EmAt(s, i) then '\U{2014}' else s[i]
  {
    DashEmPointwise(s, 0);
  }

  /** A text read with spaces dropped and every en dash read as a hyphen. */
  function Norm(t: string): string
  {
    if t == [] then []
    else (if t[0] == ' ' then [] else if t[0] == '\U{2013}' then "-" else [t[0]]) + Norm(t[1..])
  }

  lemma {:induction false} NormAppend(a: string, b: string)
    ensures Norm(a + b) == Norm(a) + Norm(b)
  {
    if a == [] {
      assert a + b == b;
    } else {
      assert (a + b)[0] == a[0] && (a + b)[1..] == a[1..] + b;
      NormAppend(a[1..], b);
    }
  }

  lemma {:induction false} NormSpaces(t: string)
    requires forall k :: 0 <= k < |t| ==> t[k] == ' '
    ensures Norm(t) == []
  {
    if t != [] {
      NormSpaces(t[1..]);
    }
  }

  lemma {:induction false} NormDigits(t: string)
    requires forall k :: 0 <= k < |t| ==> IsDigit(t[k])
    ensures Norm(t) == t
  {
    if t != [] {
      NormDigits(t[1..]);
      assert t == [t[0]] + t[1..];
    }
  }

  /** One `DASH_EN` match and its replacement read the same under `Norm`: only spaces go and the hyphen turns into an en dash. */
  lemma DashEnMatchNorm(s: string, p: nat)
    requires p < |s| && DashEnMatch(s, p).Some?
    ensures MatchAt(DashEn, s, p) == DashEnMatch(s, p)
    ensures var m := DashEnMatch(s, p).value; Norm(m.repl) == Norm(s[p..p + m.len])
  {
    var d1 := DigitEnd(s, p);
    var h := SpaceRunEnd(s, d1);
    var d2 := SpaceRunEnd(s, h + 1);
    var e := DigitEnd(s, d2);
    var m := DashEnMatch(s, p).value;
    assert m.len == e - p && m.repl == s[p..d1] + "\U{2013}" + s[d2..e];
    SliceParts(s, p, d1, h, d2, e);
    SpacesSlice(s, d1, h);
    SpacesSlice(s, h + 1, d2);
    NormShape(s[p..d1], s[d1..h], s[h + 1..d2], s[d2..e]);
  }

  lemma SpacesSlice(s: string, a: nat, b: nat)
    requires a <= b <= |s| && forall k :: a <= k < b ==> s[k] == ' '
    ensures forall k :: 0 <= k < |s[a..b]| ==> s[a..b][k] == ' '
  {
  }

  /** A stretch with a `-` at `h` cut into the pieces around it. */
  lemma SliceParts(s: string, p: nat, d1: nat, h: nat, d2: nat, e: nat)
    requires p <= d1 <= h < d2 <= e <= |s| && s[h] == '-'
    ensures s[p..e] == s[p..d1] + (s[d1..h] + ("-" + (s[h + 1..d2] + s[d2..e])))
  {
    SliceSplit(s, h + 1, d2, e);
    assert s[h..h + 1] == "-";
    SliceSplit(s, h, h + 1, e);
    SliceSplit(s, d1, h, e);
    SliceSplit(s, p, d1, e);
  }

  lemma SliceSplit(s: string, a: nat, b: nat, c: nat)
    requires a <= b <= c <= |s|
    ensures s[a..c] == s[a..b] + s[b..c]
  {
  }

  lemma NormShape(x1: string, x2: string, x4: string, x5: string)
    requires forall k :: 0 <= k < |x2| ==> x2[k] == ' '
    requires forall k :: 0 <= k < |x4| ==> x4[k] == ' '
    ensures Norm(x1 + (x2 + ("-" + (x4 + x5)))) == Norm(x1 + "\U{2013}" + x5)
  {
    NormHyphen();
    NormSpaces(x2);
    NormSpaces(x4);
    NormAppend4(x1, x2, "-", x4, x5);
    NormAppend3(x1, "\U{2013}", x5);
    var n1, n5 := Norm(x1), Norm(x5);
    assert Norm(x1 + (x2 + ("-" + (x4 + x5)))) == n1 + ([] + ("-" + ([] + n5)));
    EmptyAppend(n5);
    EmptyAppend("-" + n5);
    Assoc(n1, "-", n5);
  }

  lemma EmptyAppend(a: string)
    ensures [] + a == a
  {
  }

  lemma Assoc(a: string, b: string, c: string)
    ensures a + (b + c) == (a + b) + c
  {
  }

  lemma NormHyphen()
    ensures Norm("-") == "-" && Norm("\U{2013}") == "-"
  {
    var hy: string := "-";
    var en: string := "\U{2013}";
    assert hy[1..] == [] && en[1..] == [];
  }

  lemma NormAppend4(a: string, b: string, c: string, d: string, e: string)
    ensures Norm(a + (b + (c + (d + e)))) == Norm(a) + (Norm(b) + (Norm(c) + (Norm(d) + Norm(e))))
  {
    NormAppend(d, e);
    NormAppend(c, d + e);
    NormAppend(b, c + (d + e));
    NormAppend(a, b + (c + (d + e)));
  }

  lemma NormAppend3(a: string, b: string, c: string)
    ensures Norm(a + b + c) == (Norm(a) + Norm(b)) + Norm(c)
  {
    NormAppend(a, b);
    NormAppend(a + b, c);
  }

  /** `DASH_EN` changes nothing but spaces around the hyphens it turns into en dashes. */
  lemma {:induction false} DashEnKeepsContent(s: string, p: nat)
    requires p <= |s|
    ensures Norm(Sub(DashEn, s, p)) == Norm(s[p..])
    decreases |s| - p, 1
  {
    if p < |s| {
      if DashEnMatch(s, p).None? {
        var u := Sub(DashEn, s, p + 1);
        assert Sub(DashEn, s, p) == [s[p]] + u;
        DashEnKeepsContent(s, p + 1);
        NormAppend([s[p]], u);
        assert s[p..] == [s[p]] + s[p + 1..];
        NormAppend([s[p]], s[p + 1..]);
      } else {
        DashEnMatchedContent(s, p);
      }
    }
  }

  /** The step of `DashEnKeepsContent` where a match starts at `p`. */
  lemma {:induction false} DashEnMatchedContent(s: string, p: nat)
    requires p < |s| && DashEnMatch(s, p).Some?
    ensures Norm(Sub(DashEn, s, p)) == Norm(s[p..])
    decreases |s| - p, 0
  {
    DashEnMatchedStep(s, p);
    var r: string, n: nat :| p < n <= |s| && Sub(DashEn, s, p) == r + Sub(DashEn, s, n) && Norm(r) == Norm(s[p..n]);
    DashEnKeepsContent(s, n);
    SuffixSplit(s, p, n);
    NormJoin(r, Sub(DashEn, s, n), s[p..n], s[n..]);
  }

  /** Where a match starts, the scan writes a piece with the content of the text it replaces. */
  lemma DashEnMatchedStep(s: string, p: nat)
    requires p < |s| && DashEnMatch(s, p).Some?
    ensures exists r: string, n: nat :: p < n <= |s| && Sub(DashEn, s, p) == r + Sub(DashEn, s, n) && Norm(r) == Norm(s[p..n])
  {
    DashEnMatchNorm(s, p);
    var m := MatchAt(DashEn, s, p).value;
    SubStep(DashEn, s, p);
    assert p < p + m.len <= |s| && Sub(DashEn, s, p) == m.repl + Sub(DashEn, s, p + m.len) && Norm(m.repl) == Norm(s[p..p + m.len]);
  }

  lemma NormJoin(r: string, u: string, a: string, b: string)
    requires Norm(r) == Norm(a) && Norm(u) == Norm(b)
    ensures Norm(r + u) == Norm(a + b)
  {
    NormAppend(r, u);
    NormAppend(a, b);
  }

  lemma SuffixSplit(s: string, a: nat, b: nat)
    requires a <= b <= |s|
    ensures s[a..] == s[a..b] + s[b..]
  {
  }

  /**
   * `(\d+)[ ]*-[ ]*(\d+)` occurs at `i` with its groups where Python's
   * greedy repetitions put them: digits on `[i, d1)`, spaces on `[d1, h)`,
   * the hyphen at `h`, spaces on `(h, d2)`, digits on `[d2, e)`, and no
   * digit at `e`. (The first three runs cannot be shorter: each is followed
   * by a character the run itself could not continue with.)
   */
  predicate EnStretch(s: string, i: nat, d1: nat, h: nat, d2: nat, e: nat)
  {
    && i < d1 <= h < d2 < e <= |s|
    && (forall k :: i <= k < d1 ==> IsDigit(s[k]))
    && (forall k :: d1 <= k < h ==> s[k] == ' ')
    && s[h] == '-'
    && (forall k :: h < k < d2 ==> s[k] == ' ')
    && (forall k :: d2 <= k < e ==> IsDigit(s[k]))
    && (e == |s| || !IsDigit(s[e]))
  }

  lemma {:induction false} DigitEndIs(s: string, p: nat, e: nat)
    requires p <= e <= |s| && (forall k :: p <= k < e ==> IsDigit(s[k])) && (e == |s| || !IsDigit(s[e]))
    ensures DigitEnd(s, p) == e
    decreases e - p
  {
    if p < e {
      DigitEndIs(s, p + 1, e);
    }
  }

  lemma {:induction false} SpaceRunEndIs(s: string, p: nat, e: nat)
    requires p <= e <= |s| && (forall k :: p <= k < e ==> s[k] == ' ') && (e == |s| || s[e] != ' ')
    ensures SpaceRunEnd(s, p) == e
    decreases e - p
  {
    if p < e {
      SpaceRunEndIs(s, p + 1, e);
    }
  }

  /**
   * `DASH_EN` matches at `i` exactly where a stretch `d1-d2` of the pattern
   * starts, and then writes its first digits, `–` and its second digits,
   * dropping the spaces around the hyphen.
   */
  lemma DashEnMatchShape(s: string, i: nat)
    requires i < |s|
    ensures MatchAt(DashEn, s, i).Some? <==> exists d1: nat, h: nat, d2: nat, e: nat :: EnStretch(s, i, d1, h, d2, e)
    ensures forall d1: nat, h: nat, d2: nat, e: nat :: EnStretch(s, i, d1, h, d2, e) ==>
      MatchAt(DashEn, s, i) == Some(Match(e - i, s[i..d1] + "\U{2013}" + s[d2..e]))
  {
    forall d1: nat, h: nat, d2: nat, e: nat | EnStretch(s, i, d1, h, d2, e)
      ensures MatchAt(DashEn, s, i) == Some(Match(e - i, s[i..d1] + "\U{2013}" + s[d2..e]))
    {
      DashEnAtStretch(s, i, d1, h, d2, e);
    }
    if MatchAt(DashEn, s, i).Some? {
      DashEnStretchOf(s, i);
    }
  }

  lemma DashEnAtStretch(s: string, i: nat, d1: nat, h: nat, d2: nat, e: nat)
    requires EnStretch(s, i, d1, h, d2, e)
    ensures MatchAt(DashEn, s, i) == Some(Match(e - i, s[i..d1] + "\U{2013}" + s[d2..e]))
  {
    DigitEndIs(s, i, d1);
    SpaceRunEndIs(s, d1, h);
    SpaceRunEndIs(s, h + 1, d2);
    DigitEndIs(s, d2, e);
  }

  lemma DashEnStretchOf(s: string, i: nat)
    requires i < |s| && MatchAt(DashEn, s, i).Some?
    ensures var d1 := DigitEnd(s, i); var h := SpaceRunEnd(s, d1);
      var d2 := SpaceRunEnd(s, h + 1); EnStretch(s, i, d1, h, d2, DigitEnd(s, d2))
  {
  }

  /**
   * `DASH_EN` on a whole text: the stretches `d1-d2` it rewrites are the
   * leftmost non-overlapping ones (`TypographScan.Rewritten`), each becoming
   * its digits joined by `–`; so `1-2-3` becomes `1–2-3`.
   */
  lemma DashEnResult(s: string)
    ensures Substitute(DashEn, s) == Rewritten(Table(DashEn, s), s, 0)
    ensures forall i :: 0 <= i < |s| ==>
      (Table(DashEn, s)[i].Some? <==> exists d1: nat, h: nat, d2: nat, e: nat :: EnStretch(s, i, d1, h, d2, e))
    ensures forall i: nat, d1: nat, h: nat, d2: nat, e: nat :: EnStretch(s, i, d1, h, d2, e) ==>
      Table(DashEn, s)[i] == Some(Match(e - i, s[i..d1] + "\U{2013}" + s[d2..e]))
  {
    SubstituteIsRewritten(DashEn, s);
    forall i | 0 <= i < |s| {
      DashEnEntry(s, i);
    }
  }

  lemma DashEnEntry(s: string, i: nat)
    requires i < |s|
    ensures Table(DashEn, s)[i].Some? <==> exists d1: nat, h: nat, d2: nat, e: nat :: EnStretch(s, i, d1, h, d2, e)
    ensures forall d1: nat, h: nat, d2: nat, e: nat :: EnStretch(s, i, d1, h, d2, e) ==>
      Table(DashEn, s)[i] == Some(Match(e - i, s[i..d1] + "\U{2013}" + s[d2..e]))
  {
    TableEntry(DashEn, s, i);
    DashEnMatchShape(s, i);
  }
}
