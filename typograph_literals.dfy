/**
 * Properties of the rules that replace literal alternatives
 * (apps/utils.py:297-298, 305-308): which text each one matches, what the
 * whole substitution produces, and what it leaves behind.
 */
module TypographLiterals {
  import opened Wrappers
  import opened Typograph
  import opened TypographScan

  /** Where no match starts, a scan copies the text unchanged. */
  lemma {:induction false} SubWithoutMatches(rule: Rule, s: string, p: nat)
    requires p <= |s|
    requires forall k :: p <= k < |s| ==> MatchAt(rule, s, k).None?
    ensures Sub(rule, s, p) == s[p..]
    decreases |s| - p
  {
    if p < |s| {
      SubWithoutMatches(rule, s, p + 1);
      assert s[p..] == [s[p]] + s[p + 1..];
    }
  }

  lemma IsAtCons(c: char, t: string, j: nat, w: string)
    requires j >= 1
    ensures IsAt([c] + t, j, w) <==> IsAt(t, j - 1, w)
  {
    if j + |w| <= |t| + 1 {
      assert ([c] + t)[j..j + |w|] == t[j - 1..j - 1 + |w|];
    }
  }

  lemma IsAtPrefix(c: char, t: string, w: string)
    requires w != []
    ensures IsAt([c] + t, 0, w) <==> c == w[0] && IsAt(t, 0, w[1..])
  {
    if |w| <= |t| + 1 {
      assert ([c] + t)[..|w|] == [c] + t[..|w| - 1];
      assert w == [w[0]] + w[1..];
    }
  }

  /**
   * A text that a literal rule's scan produces from `q` on begins with a
   * word free of the replacement character only if the input does: such a
   * word is made of copied characters.
   */
  lemma {:induction false} SubPrefixCopied(rule: Rule, s: string, q: nat, w: string)
    requires IsLiteralRule(rule) && q <= |s| && Replacement(rule) !in w
    ensures IsAt(Sub(rule, s, q), 0, w) ==> IsAt(s, q, w)
    decreases |w|
  {
    if w != [] && q < |s| {
      SubStep(rule, s, q);
      LiteralReplacement(rule, s, q);
      var m := MatchAt(rule, s, q);
      if m.Some? {
        ReplacedHead(Replacement(rule), Sub(rule, s, q + m.value.len), w);
      } else {
        SubPrefixCopied(rule, s, q + 1, w[1..]);
        CopiedHead(Sub(rule, s, q + 1), s, q, w);
      }
    }
  }

  /** A word free of `c` does not start a text that starts with `c`. */
  lemma ReplacedHead(c: char, u: string, w: string)
    requires w != [] && c !in w
    ensures !IsAt([c] + u, 0, w)
  {
    IsAtPrefix(c, u, w);
    assert w[0] in w;
  }

  /** A word starts `[s[q]] + u` only if it occurs at `q`, given that its tail starting `u` occurs at `q + 1`. */
  lemma CopiedHead(u: string, s: string, q: nat, w: string)
    requires w != [] && q < |s|
    requires IsAt(u, 0, w[1..]) ==> IsAt(s, q + 1, w[1..])
    ensures IsAt([s[q]] + u, 0, w) ==> IsAt(s, q, w)
  {
    IsAtPrefix(s[q], u, w);
    if IsAt([s[q]] + u, 0, w) {
      assert s[q..q + |w|] == [s[q]] + s[q + 1..q + 1 + |w[1..]|];
    }
  }

  /** A literal rule writes its replacement character for every match. */
  lemma LiteralReplacement(rule: Rule, s: string, q: nat)
    requires IsLiteralRule(rule) && q < |s|
    ensures MatchAt(rule, s, q).Some? ==> MatchAt(rule, s, q).value.repl == [Replacement(rule)]
  {
  }

  /**
   * A literal rule whose replacement character occurs in none of its
   * alternatives leaves no occurrence of any alternative behind.
   */
  lemma {:induction false} NoAlternativeLeft(rule: Rule, s: string, p: nat)
    requires IsLiteralRule(rule) && p <= |s|
    requires forall k :: 0 <= k < |Alternatives(rule)| ==> Replacement(rule) !in Alternatives(rule)[k]
    ensures forall k, j :: 0 <= k < |Alternatives(rule)| ==> !IsAt(Sub(rule, s, p), j, Alternatives(rule)[k])
    decreases |s| - p
  {
    var alts := Alternatives(rule);
    if p < |s| {
      var t := Sub(rule, s, p);
      var next := match MatchAt(rule, s, p) case None => p + 1 case Some(m) => p + m.len;
      var c := match MatchAt(rule, s, p) case None => s[p] case Some(_) => Replacement(rule);
      assert t == [c] + Sub(rule, s, next);
      NoAlternativeLeft(rule, s, next);
      forall k, j | 0 <= k < |alts|
        ensures !IsAt(t, j, alts[k])
      {
        if j >= 1 {
          IsAtCons(c, Sub(rule, s, next), j, alts[k]);
        } else {
          SubPrefixCopied(rule, s, p, alts[k]);
          if MatchAt(rule, s, p).Some? {
            assert alts[k][0] in alts[k];
            IsAtPrefix(c, Sub(rule, s, next), alts[k]);
          }
        }
      }
    }
  }

  /** `QUOTES_REPLACE` leaves no `„`, `“` or `”` and no two adjacent apostrophes. */
  lemma QuotesReplaceLeavesNone(s: string)
    ensures var t := Substitute(QuotesReplace, s);
      && (forall i :: 0 <= i < |t| ==> t[i] != '\U{201E}' && t[i] != '\U{201C}' && t[i] != '\U{201D}')
      && (forall i :: 0 <= i < |t| - 1 ==> !(t[i] == '\'' && t[i + 1] == '\''))
  {
    var t := Substitute(QuotesReplace, s);
    NoAlternativeLeft(QuotesReplace, s, 0);
    forall i | 0 <= i < |t|
      ensures t[i] != '\U{201E}' && t[i] != '\U{201C}' && t[i] != '\U{201D}'
    {
      assert !IsAt(t, i, QuoteAlternatives[0]) && !IsAt(t, i, QuoteAlternatives[1]) && !IsAt(t, i, QuoteAlternatives[2]);
      assert t[i..i + 1] == [t[i]];
    }
    forall i | 0 <= i < |t| - 1
      ensures !(t[i] == '\'' && t[i + 1] == '\'')
    {
      assert !IsAt(t, i, QuoteAlternatives[3]);
      assert t[i..i + 2] == [t[i], t[i + 1]];
    }
  }

  /** `HELLIP` leaves no two adjacent dots. */
  lemma HellipLeavesNone(s: string)
    ensures var t := Substitute(Hellip, s);
      forall i :: 0 <= i < |t| - 1 ==> !(t[i] == '.' && t[i + 1] == '.')
  {
    var t := Substitute(Hellip, s);
    NoAlternativeLeft(Hellip, s, 0);
    forall i | 0 <= i < |t| - 1
      ensures !(t[i] == '.' && t[i + 1] == '.')
    {
      assert !IsAt(t, i, HellipAlternatives[1]);
      assert t[i..i + 2] == [t[i], t[i + 1]];
    }
  }

  /** `COPYRIGHT`, `TRADEMARK` and `TRADEMARK_R` leave no `(c)`, `(с)`, `(tm)` or `(r)` behind. */
  lemma SymbolsLeaveNone(s: string)
    ensures forall j :: !IsAt(Substitute(Copyright, s), j, "(c)") && !IsAt(Substitute(Copyright, s), j, "(\U{0441})")
    ensures forall j :: !IsAt(Substitute(Trademark, s), j, "(tm)")
    ensures forall j :: !IsAt(Substitute(TrademarkR, s), j, "(r)")
  {
    NoAlternativeLeft(Copyright, s, 0);
    NoAlternativeLeft(Trademark, s, 0);
    NoAlternativeLeft(TrademarkR, s, 0);
    assert CopyrightAlternatives[0] == "(c)" && CopyrightAlternatives[1] == "(\U{0441})";
    assert TrademarkAlternatives[0] == "(tm)" && TrademarkRAlternatives[0] == "(r)";
  }

  /** The characters `DASH_REPLACE` turns into `-`. */
  predicate IsDash(c: char)
  {
    c == '-' || c == '\U{00AD}' || c == '\U{2013}' || c == '\U{2014}' || c == '\U{2015}' || c == '\U{2212}'
  }

  /**
   * `DASH_REPLACE` matches exactly one dash character: the `--` alternative
   * never wins, because `-` is tried before it.
   */
  lemma DashReplaceMatch(s: string, p: nat)
    requires p < |s|
    ensures MatchAt(DashReplace, s, p) == if IsDash(s[p]) then Some(Match(1, "-")) else None
  {
    DashAlternativesAt(s, p);
    var r := FirstAlternative(DashAlternatives, s, p);
    if IsDash(s[p]) {
      var k :| 0 <= k < |DashAlternatives| && r.value == DashAlternatives[k]
               && forall j :: 0 <= j < k ==> !IsAt(s, p, DashAlternatives[j]);
      assert k < 6;
    }
  }

  /** Which alternatives of `DASH_REPLACE` occur at `p`: a one-character one exactly when it is `s[p]`, and `--` only where `-` stands. */
  lemma DashAlternativesAt(s: string, p: nat)
    requires p < |s|
    ensures forall k :: 0 <= k < 6 ==> |DashAlternatives[k]| == 1 && (IsAt(s, p, DashAlternatives[k]) <==> s[p] == DashAlternatives[k][0])
    ensures IsAt(s, p, DashAlternatives[6]) ==> s[p] == '-'
    ensures IsDash(s[p]) <==> exists k :: 0 <= k < 6 && s[p] == DashAlternatives[k][0]
  {
    var alts := DashAlternatives;
    forall k | 0 <= k < 6
      ensures |alts[k]| == 1 && (IsAt(s, p, alts[k]) <==> s[p] == alts[k][0])
    {
      assert |alts[k]| == 1;
    }
    if IsAt(s, p, alts[6]) {
      assert s[p..p + 2][0] == s[p];
    }
    if IsDash(s[p]) {
      var k0 := if s[p] == '-' then 0 else if s[p] == '\U{00AD}' then 1 else if s[p] == '\U{2013}' then 2
                else if s[p] == '\U{2014}' then 3 else if s[p] == '\U{2015}' then 4 else 5;
      assert s[p] == alts[k0][0];
    }
  }

  /** `DASH_REPLACE` is a length-preserving map of every dash character to `-`. */
  lemma {:induction false} DashReplacePointwise(s: string, p: nat)
    requires p <= |s|
    ensures |Sub(DashReplace, s, p)| == |s| - p
    ensures forall i :: p <= i < |s| ==> Sub(DashReplace, s, p)[i - p] == if IsDash(s[i]) then '-' else s[i]
    decreases |s| - p
  {
    if p < |s| {
      DashReplaceMatch(s, p);
      DashReplacePointwise(s, p + 1);
      var t := Sub(DashReplace, s, p + 1);
      var c := if IsDash(s[p]) then '-' else s[p];
      assert Sub(DashReplace, s, p) == [c] + t;
      forall i | p < i < |s|
        ensures Sub(DashReplace, s, p)[i - p] == if IsDash(s[i]) then '-' else s[i]
      {
        assert ([c] + t)[i - p] == t[i - (p + 1)];
      }
    }
  }

  /** The alternative `alts[k]` wins when it occurs and no earlier one does. */
  lemma FirstIs(alts: seq<string>, s: string, p: nat, k: nat)
    requires k < |alts| && IsAt(s, p, alts[k])
    requires forall j :: 0 <= j < k ==> !IsAt(s, p, alts[j])
    ensures FirstAlternative(alts, s, p) == Some(alts[k])
  {
    var r := FirstAlternative(alts, s, p);
    assert r.Some?;
    var k' :| 0 <= k' < |alts| && r.value == alts[k'] && forall j :: 0 <= j < k' ==> !IsAt(s, p, alts[j]);
    assert !(k' < k) && !(k < k');
  }

  lemma IsAt1(s: string, p: nat, a: char)
    ensures IsAt(s, p, [a]) <==> p < |s| && s[p] == a
  {
    if p < |s| {
      assert s[p..p + 1] == [s[p]];
    }
  }

  lemma IsAt2(s: string, p: nat, a: char, b: char)
    ensures IsAt(s, p, [a, b]) <==> p + 1 < |s| && s[p] == a && s[p + 1] == b
  {
    if p + 1 < |s| {
      assert s[p..p + 2] == [s[p], s[p + 1]];
    }
  }

  lemma IsAt3(s: string, p: nat, a: char, b: char, c: char)
    ensures IsAt(s, p, [a, b, c]) <==> p + 2 < |s| && s[p] == a && s[p + 1] == b && s[p + 2] == c
  {
    if p + 2 < |s| {
      assert s[p..p + 3] == [s[p], s[p + 1], s[p + 2]];
    }
  }

  lemma IsAt4(s: string, p: nat, a: char, b: char, c: char, d: char)
    ensures IsAt(s, p, [a, b, c, d]) <==> p + 3 < |s| && s[p] == a && s[p + 1] == b && s[p + 2] == c && s[p + 3] == d
  {
    if p + 3 < |s| {
      assert s[p..p + 4] == [s[p], s[p + 1], s[p + 2], s[p + 3]];
    }
  }

  /** `QUOTES_REPLACE` matches one of `„“”`, or two apostrophes, and writes `"`. */
  lemma QuotesReplaceMatch(s: string, i: nat)
    requires i < |s|
    ensures MatchAt(QuotesReplace, s, i) ==
      if s[i] == '\U{201E}' || s[i] == '\U{201C}' || s[i] == '\U{201D}' then Some(Match(1, "\""))
      else if i + 1 < |s| && s[i] == '\'' && s[i + 1] == '\'' then Some(Match(2, "\""))
      else None
    ensures Table(QuotesReplace, s)[i] == MatchAt(QuotesReplace, s, i)
  {
    TableEntry(QuotesReplace, s, i);
    var alts := QuoteAlternatives;
    assert alts[0] == ['\U{201E}'] && alts[1] == ['\U{201C}'] && alts[2] == ['\U{201D}'] && alts[3] == ['\'', '\''];
    IsAt1(s, i, '\U{201E}');
    IsAt1(s, i, '\U{201C}');
    IsAt1(s, i, '\U{201D}');
    IsAt2(s, i, '\'', '\'');
    if s[i] == '\U{201E}' {
      FirstIs(alts, s, i, 0);
    } else if s[i] == '\U{201C}' {
      FirstIs(alts, s, i, 1);
    } else if s[i] == '\U{201D}' {
      FirstIs(alts, s, i, 2);
    } else if i + 1 < |s| && s[i] == '\'' && s[i + 1] == '\'' {
      FirstIs(alts, s, i, 3);
    }
  }

  /** `HELLIP` matches three dots where there are three, else two, and writes `…`. */
  lemma HellipMatch(s: string, i: nat)
    requires i < |s|
    ensures MatchAt(Hellip, s, i) ==
      if i + 1 < |s| && s[i] == '.' && s[i + 1] == '.'
      then Some(Match(if i + 2 < |s| && s[i + 2] == '.' then 3 else 2, "\U{2026}"))
      else None
    ensures Table(Hellip, s)[i] == MatchAt(Hellip, s, i)
  {
    TableEntry(Hellip, s, i);
    var alts := HellipAlternatives;
    assert alts[0] == ['.', '.', '.'] && alts[1] == ['.', '.'];
    IsAt3(s, i, '.', '.', '.');
    IsAt2(s, i, '.', '.');
    if i + 2 < |s| && s[i] == '.' && s[i + 1] == '.' && s[i + 2] == '.' {
      FirstIs(alts, s, i, 0);
    } else if i + 1 < |s| && s[i] == '.' && s[i + 1] == '.' {
      FirstIs(alts, s, i, 1);
    }
  }

  /** `COPYRIGHT` matches `(c)` with a Latin or a Cyrillic `c` and writes `©`. */
  lemma CopyrightMatch(s: string, i: nat)
    requires i < |s|
    ensures MatchAt(Copyright, s, i) ==
      if i + 2 < |s| && s[i] == '(' && (s[i + 1] == 'c' || s[i + 1] == '\U{0441}') && s[i + 2] == ')'
      then Some(Match(3, "\U{00A9}"))
      else None
    ensures Table(Copyright, s)[i] == MatchAt(Copyright, s, i)
  {
    TableEntry(Copyright, s, i);
    var alts := CopyrightAlternatives;
    assert alts[0] == ['(', 'c', ')'] && alts[1] == ['(', '\U{0441}', ')'];
    IsAt3(s, i, '(', 'c', ')');
    IsAt3(s, i, '(', '\U{0441}', ')');
    if IsAt(s, i, alts[0]) {
      FirstIs(alts, s, i, 0);
    } else if IsAt(s, i, alts[1]) {
      FirstIs(alts, s, i, 1);
    }
  }

  /** `TRADEMARK` matches `(tm)` and writes `™`. */
  lemma TrademarkMatch(s: string, i: nat)
    requires i < |s|
    ensures MatchAt(Trademark, s, i) ==
      if i + 3 < |s| && s[i] == '(' && s[i + 1] == 't' && s[i + 2] == 'm' && s[i + 3] == ')'
      then Some(Match(4, "\U{2122}"))
      else None
    ensures Table(Trademark, s)[i] == MatchAt(Trademark, s, i)
  {
    TableEntry(Trademark, s, i);
    var alts := TrademarkAlternatives;
    assert alts[0] == ['(', 't', 'm', ')'];
    IsAt4(s, i, '(', 't', 'm', ')');
    if IsAt(s, i, alts[0]) {
      FirstIs(alts, s, i, 0);
    }
  }

  /** `TRADEMARK_R` matches `(r)` and writes `®`. */
  lemma TrademarkRMatch(s: string, i: nat)
    requires i < |s|
    ensures MatchAt(TrademarkR, s, i) ==
      if i + 2 < |s| && s[i] == '(' && s[i + 1] == 'r' && s[i + 2] == ')'
      then Some(Match(3, "\U{00AE}"))
      else None
    ensures Table(TrademarkR, s)[i] == MatchAt(TrademarkR, s, i)
  {
    TableEntry(TrademarkR, s, i);
    var alts := TrademarkRAlternatives;
    assert alts[0] == ['(', 'r', ')'];
    IsAt3(s, i, '(', 'r', ')');
    if IsAt(s, i, alts[0]) {
      FirstIs(alts, s, i, 0);
    }
  }

  /*
   * The whole-text results: each rule's output is its input rewritten at
   * the leftmost non-overlapping matches (`TypographScan.Rewritten`), the
   * match at each position being the one stated explicitly.
   */

  /** `QUOTES_REPLACE` turns each `„`, `“`, `”` and each pair of apostrophes, paired from the left, into `"`. */
  lemma QuotesReplaceResult(s: string)
    ensures Substitute(QuotesReplace, s) == Rewritten(Table(QuotesReplace, s), s, 0)
    ensures forall i :: 0 <= i < |s| ==>
      Table(QuotesReplace, s)[i] == (if s[i] == '\U{201E}' || s[i] == '\U{201C}' || s[i] == '\U{201D}' then Some(Match(1, "\""))
       else if i + 1 < |s| && s[i] == '\'' && s[i + 1] == '\'' then Some(Match(2, "\""))
       else None)
  {
    SubstituteIsRewritten(QuotesReplace, s);
    forall i | 0 <= i < |s| {
      QuotesReplaceMatch(s, i);
    }
  }

  /** `HELLIP` turns each run of two or three dots, taken from the left, into `…`. */
  lemma HellipResult(s: string)
    ensures Substitute(Hellip, s) == Rewritten(Table(Hellip, s), s, 0)
    ensures forall i :: 0 <= i < |s| ==>
      Table(Hellip, s)[i] == (if i + 1 < |s| && s[i] == '.' && s[i + 1] == '.'
       then Some(Match(if i + 2 < |s| && s[i + 2] == '.' then 3 else 2, "\U{2026}"))
       else None)
  {
    SubstituteIsRewritten(Hellip, s);
    forall i | 0 <= i < |s| {
      HellipMatch(s, i);
    }
  }

  /** `COPYRIGHT` turns each `(c)` or `(с)` into `©`. */
  lemma CopyrightResult(s: string)
    ensures Substitute(Copyright, s) == Rewritten(Table(Copyright, s), s, 0)
    ensures forall i :: 0 <= i < |s| ==>
      Table(Copyright, s)[i] == (if i + 2 < |s| && s[i] == '(' && (s[i + 1] == 'c' || s[i + 1] == '\U{0441}') && s[i + 2] == ')'
       then Some(Match(3, "\U{00A9}"))
       else None)
  {
    SubstituteIsRewritten(Copyright, s);
    forall i | 0 <= i < |s| {
      CopyrightMatch(s, i);
    }
  }

  /** `TRADEMARK` turns each `(tm)` into `™`. */
  lemma TrademarkResult(s: string)
    ensures Substitute(Trademark, s) == Rewritten(Table(Trademark, s), s, 0)
    ensures forall i :: 0 <= i < |s| ==>
      Table(Trademark, s)[i] == (if i + 3 < |s| && s[i] == '(' && s[i + 1] == 't' && s[i + 2] == 'm' && s[i + 3] == ')'
       then Some(Match(4, "\U{2122}"))
       else None)
  {
    SubstituteIsRewritten(Trademark, s);
    forall i | 0 <= i < |s| {
      TrademarkMatch(s, i);
    }
  }

  /** `TRADEMARK_R` turns each `(r)` into `®`. */
  lemma TrademarkRResult(s: string)
    ensures Substitute(TrademarkR, s) == Rewritten(Table(TrademarkR, s), s, 0)
    ensures forall i :: 0 <= i < |s| ==>
      Table(TrademarkR, s)[i] == (if i + 2 < |s| && s[i] == '(' && s[i + 1] == 'r' && s[i + 2] == ')'
       then Some(Match(3, "\U{00AE}"))
       else None)
  {
    SubstituteIsRewritten(TrademarkR, s);
    forall i | 0 <= i < |s| {
      TrademarkRMatch(s, i);
    }
  }
}
