/**
 * What `re.sub` does to a whole text, stated without the scan: the matches
 * it replaces are the leftmost non-overlapping ones (`Taken`), and the
 * result is the input with each of them replaced by its replacement, the
 * characters inside them dropped and every other character kept, in order
 * (`Rewritten`). The statements are about the table of the matches that
 * start at each position, `Table(rule, s)[i] == MatchAt(rule, s, i)`.
 */
module TypographScan {
  import opened Wrappers
  import opened Typograph

  /** The match of `rule` starting at each position of `s`. */
  function Table(rule: Rule, s: string): (t: seq<Option<Match>>)
    ensures |t| == |s| && WellFormed(t)
    ensures forall i {:trigger MatchAt(rule, s, i)} :: 0 <= i < |s| ==> t[i] == MatchAt(rule, s, i)
  {
    TablePrefix(rule, s, |s|)
  }

  /** The matches starting at the first `n` positions. */
  function TablePrefix(rule: Rule, s: string, n: nat): (t: seq<Option<Match>>)
    requires n <= |s|
    ensures |t| == n
    ensures forall i {:trigger MatchAt(rule, s, i)} :: 0 <= i < n ==> t[i] == MatchAt(rule, s, i)
    ensures forall i :: 0 <= i < n && t[i].Some? ==> 1 <= t[i].value.len <= |s| - i
  {
    if n == 0 then [] else TablePrefix(rule, s, n - 1) + [MatchAt(rule, s, n - 1)]
  }

  /** Every match is non-empty and ends inside the text. */
  predicate WellFormed(t: seq<Option<Match>>)
  {
    forall i :: 0 <= i < |t| && t[i].Some? ==> 1 <= t[i].value.len <= |t| - i
  }

  /** The scan of `Sub`, reading the matches from the table. */
  function Scan(t: seq<Option<Match>>, s: string, p: nat): string
    requires |t| == |s| && WellFormed(t) && p <= |s|
    decreases |s| - p
  {
    if p == |s| then []
    else
      match t[p]
      case None => [s[p]] + Scan(t, s, p + 1)
      case Some(m) => m.repl + Scan(t, s, p + m.len)
  }

  /** Where the scan resumes after position `p`. */
  function Next(t: seq<Option<Match>>, p: nat): (n: nat)
    requires WellFormed(t) && p < |t|
    ensures p < n <= |t|
  {
    if t[p].None? then p + 1 else p + t[p].value.len
  }

  /** What the scan writes for position `p`. */
  function Head(t: seq<Option<Match>>, s: string, p: nat): string
    requires |t| == |s| && p < |s|
  {
    if t[p].None? then [s[p]] else t[p].value.repl
  }

  lemma {:induction false} SubIsScan(rule: Rule, s: string, p: nat)
    requires p <= |s|
    ensures Sub(rule, s, p) == Scan(Table(rule, s), s, p)
    decreases |s| - p
  {
    if p < |s| {
      SubIsScan(rule, s, Next(Table(rule, s), p));
      SubScanJoin(rule, s, p);
    }
  }

  /** One step of `Sub` and of `Scan` agree. */
  lemma SubScanJoin(rule: Rule, s: string, p: nat)
    requires p < |s|
    requires Sub(rule, s, Next(Table(rule, s), p)) == Scan(Table(rule, s), s, Next(Table(rule, s), p))
    ensures Sub(rule, s, p) == Scan(Table(rule, s), s, p)
  {
    SubStep(rule, s, p);
    TableStep(rule, s, p);
    ScanStep(Table(rule, s), s, p);
  }

  lemma SubStep(rule: Rule, s: string, p: nat)
    requires p < |s|
    ensures var m := MatchAt(rule, s, p);
      Sub(rule, s, p) == if m.None? then [s[p]] + Sub(rule, s, p + 1) else m.value.repl + Sub(rule, s, p + m.value.len)
  {
  }

  /** The table's entry at `p` is the match there. */
  lemma TableStep(rule: Rule, s: string, p: nat)
    requires p < |s|
    ensures var m := MatchAt(rule, s, p);
      && Head(Table(rule, s), s, p) == (if m.None? then [s[p]] else m.value.repl)
      && Next(Table(rule, s), p) == (if m.None? then p + 1 else p + m.value.len)
  {
    assert Table(rule, s)[p] == MatchAt(rule, s, p);
  }

  /** The table's entry at `i`, as a lemma, so that a caller needs no quantifier. */
  lemma TableEntry(rule: Rule, s: string, i: nat)
    requires i < |s|
    ensures Table(rule, s)[i] == MatchAt(rule, s, i)
  {
  }

  lemma ScanStep(t: seq<Option<Match>>, s: string, p: nat)
    requires |t| == |s| && WellFormed(t) && p < |s|
    ensures Scan(t, s, p) == Head(t, s, p) + Scan(t, s, Next(t, p))
  {
  }

  /**
   * How far the matches replaced before `i` reach: the end of the last
   * one, or `i` itself where none reaches past it.
   */
  function Frontier(t: seq<Option<Match>>, i: nat): (f: nat)
    requires WellFormed(t) && i <= |t|
    ensures i <= f <= |t|
    decreases i
  {
    if i == 0 then 0
    else
      var f := Frontier(t, i - 1);
      if f >= i then f
      else match t[i - 1]
        case None => i
        case Some(m) => i - 1 + m.len
  }

  /** `i` lies inside a match replaced before it. */
  predicate Covered(t: seq<Option<Match>>, i: nat)
    requires WellFormed(t) && i <= |t|
  {
    Frontier(t, i) > i
  }

  /** `re.sub` replaces the match at `i`: one starts there, and no replaced match covers `i`. */
  predicate Taken(t: seq<Option<Match>>, i: nat)
    requires WellFormed(t) && i < |t|
  {
    t[i].Some? && !Covered(t, i)
  }

  /** What the character at `i` turns into: the replacement where a replaced match starts, nothing inside one, itself elsewhere. */
  function Piece(t: seq<Option<Match>>, s: string, i: nat): string
    requires WellFormed(t) && |t| == |s| && i < |s|
  {
    if Taken(t, i) then t[i].value.repl
    else if Covered(t, i) then []
    else [s[i]]
  }

  /** The pieces of the characters from `p` on, in order. */
  function Rewritten(t: seq<Option<Match>>, s: string, p: nat): string
    requires WellFormed(t) && |t| == |s| && p <= |s|
    decreases |s| - p
  {
    if p == |s| then [] else Piece(t, s, p) + Rewritten(t, s, p + 1)
  }

  /** The frontier is the end of a replaced match that starts earlier, or the position itself. */
  lemma {:induction false} FrontierWitness(t: seq<Option<Match>>, i: nat)
    requires WellFormed(t) && i <= |t|
    ensures Frontier(t, i) == i || exists j :: 0 <= j < i && Taken(t, j) && Frontier(t, i) == j + t[j].value.len
    decreases i
  {
    if i > 0 {
      FrontierWitness(t, i - 1);
      if Frontier(t, i - 1) < i && t[i - 1].Some? {
        assert Taken(t, i - 1);
      }
    }
  }

  /** No replaced match that starts earlier reaches past the frontier. */
  lemma {:induction false} FrontierBound(t: seq<Option<Match>>, i: nat)
    requires WellFormed(t) && i <= |t|
    ensures forall j :: 0 <= j < i && Taken(t, j) ==> j + t[j].value.len <= Frontier(t, i)
    decreases i
  {
    if i > 0 {
      FrontierBound(t, i - 1);
    }
  }

  /**
   * The replaced matches are the leftmost non-overlapping ones: `i` is
   * covered exactly when a replaced match starting before it reaches past
   * it, so a match is replaced exactly when no earlier replaced one overlaps it.
   */
  lemma CoveredIff(t: seq<Option<Match>>, i: nat)
    requires WellFormed(t) && i <= |t|
    ensures Covered(t, i) <==> exists j :: 0 <= j < i && Taken(t, j) && i < j + t[j].value.len
  {
    FrontierWitness(t, i);
    FrontierBound(t, i);
  }

  /** Inside a replaced match the frontier stands at the match's end. */
  lemma {:induction false} FrontierInside(t: seq<Option<Match>>, p: nat, k: nat)
    requires WellFormed(t) && p < |t| && Taken(t, p)
    requires p < k <= p + t[p].value.len
    ensures Frontier(t, k) == p + t[p].value.len
    decreases k
  {
    if k > p + 1 {
      FrontierInside(t, p, k - 1);
    }
  }

  /** Inside a replaced match every character turns into nothing. */
  lemma {:induction false} InsideTaken(t: seq<Option<Match>>, s: string, p: nat, k: nat)
    requires WellFormed(t) && |t| == |s| && p < |s| && Taken(t, p)
    requires p < k <= p + t[p].value.len
    ensures Rewritten(t, s, k) == Rewritten(t, s, p + t[p].value.len)
    decreases p + t[p].value.len - k
  {
    if k < p + t[p].value.len {
      InsidePiece(t, s, p, k);
      DroppedPiece(t, s, k);
      InsideTaken(t, s, p, k + 1);
    }
  }

  lemma InsidePiece(t: seq<Option<Match>>, s: string, p: nat, k: nat)
    requires WellFormed(t) && |t| == |s| && p < |s| && Taken(t, p)
    requires p < k < p + t[p].value.len
    ensures Piece(t, s, k) == []
  {
    FrontierInside(t, p, k);
  }

  lemma DroppedPiece(t: seq<Option<Match>>, s: string, k: nat)
    requires WellFormed(t) && |t| == |s| && k < |s| && Piece(t, s, k) == []
    ensures Rewritten(t, s, k) == Rewritten(t, s, k + 1)
  {
    assert Rewritten(t, s, k) == [] + Rewritten(t, s, k + 1);
  }

  /** From a position no replaced match covers, the rewritten text starts with what the scan writes there, and the scan resumes where nothing is covered. */
  lemma RewrittenStep(t: seq<Option<Match>>, s: string, p: nat)
    requires WellFormed(t) && |t| == |s| && p < |s| && !Covered(t, p)
    ensures Rewritten(t, s, p) == Head(t, s, p) + Rewritten(t, s, Next(t, p))
    ensures !Covered(t, Next(t, p))
  {
    if t[p].None? {
      SkipStep(t, s, p);
    } else {
      TakenStep(t, s, p);
    }
  }

  lemma SkipStep(t: seq<Option<Match>>, s: string, p: nat)
    requires WellFormed(t) && |t| == |s| && p < |s| && !Covered(t, p) && t[p].None?
    ensures Rewritten(t, s, p) == [s[p]] + Rewritten(t, s, p + 1)
    ensures !Covered(t, p + 1)
  {
    assert Piece(t, s, p) == [s[p]];
    assert Frontier(t, p + 1) == p + 1;
  }

  lemma TakenStep(t: seq<Option<Match>>, s: string, p: nat)
    requires WellFormed(t) && |t| == |s| && p < |s| && !Covered(t, p) && t[p].Some?
    ensures Rewritten(t, s, p) == t[p].value.repl + Rewritten(t, s, p + t[p].value.len)
    ensures !Covered(t, p + t[p].value.len)
  {
    assert Piece(t, s, p) == t[p].value.repl;
    InsideTaken(t, s, p, p + 1);
    FrontierInside(t, p, p + t[p].value.len);
  }

  /** From a position no replaced match covers, the scan produces the rewritten text. */
  lemma {:induction false} ScanIsRewritten(t: seq<Option<Match>>, s: string, p: nat)
    requires WellFormed(t) && |t| == |s| && p <= |s| && !Covered(t, p)
    ensures Scan(t, s, p) == Rewritten(t, s, p)
    decreases |s| - p
  {
    if p < |s| {
      RewrittenStep(t, s, p);
      ScanIsRewritten(t, s, Next(t, p));
      ScanStep(t, s, p);
    }
  }

  /** `re.sub` on a whole text: each leftmost non-overlapping match replaced, every other character kept. */
  lemma SubstituteIsRewritten(rule: Rule, s: string)
    ensures WellFormed(Table(rule, s))
    ensures Substitute(rule, s) == Rewritten(Table(rule, s), s, 0)
  {
    SubIsScan(rule, s, 0);
    ScanIsRewritten(Table(rule, s), s, 0);
  }
}
