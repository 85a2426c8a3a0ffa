/**
 * Properties of `QUOTES_CYR_CLOSE` and `QUOTES_CYR_OPEN`
 * (apps/utils.py:310-311): within every whitespace-free token, the last `"`
 * that is not the token's first character closes, and then the first `"`
 * that is not the token's last character opens; every other `"` stays.
 */
module TypographQuotes {
  import opened Wrappers
  import opened Text
  import opened Typograph

  /** The start of the whitespace-free token that ends at or runs through `i`. */
  function TokenStart(s: string, i: nat): (r: nat)
    requires i <= |s|
    ensures r <= i && (r == 0 || IsSpace(s[r - 1]))
    ensures forall k :: r <= k < i ==> !IsSpace(s[k])
  {
    if i > 0 && !IsSpace(s[i - 1]) then TokenStart(s, i - 1) else i
  }

  /** Positions of one token share its end. */
  lemma {:induction false} TokenEndWithin(s: string, p: nat, k: nat)
    requires p <= |s| && p <= k <= TokenEnd(s, p)
    ensures TokenEnd(s, k) == TokenEnd(s, p)
    decreases TokenEnd(s, p) - k
  {
    if k < TokenEnd(s, p) {
      TokenEndWithin(s, p, k + 1);
    }
  }

  /** Positions of one token share its start. */
  lemma {:induction false} TokenStartWithin(s: string, p: nat, i: nat)
    requires p <= i <= |s| && forall j :: p <= j < i ==> !IsSpace(s[j])
    ensures TokenStart(s, i) == TokenStart(s, p)
    decreases i - p
  {
    if p < i {
      TokenStartWithin(s, p, i - 1);
    }
  }

  /** The `"` at `i` becomes `»`: it is not its token's first character and no `"` follows it in the token. */
  predicate CloseAt(s: string, i: nat)
    requires i < |s|
  {
    s[i] == '"' && i > 0 && !IsSpace(s[i - 1]) && forall j :: i < j < TokenEnd(s, i) ==> s[j] != '"'
  }

  /** The `"` at `i` becomes `«`: the next character belongs to its token and no `"` precedes it in the token. */
  predicate OpenAt(s: string, i: nat)
    requires i < |s|
  {
    s[i] == '"' && i + 1 < |s| && !IsSpace(s[i + 1]) && forall j :: TokenStart(s, i) <= j < i ==> s[j] != '"'
  }

  /** Where a `QUOTES_CYR_CLOSE` scan may stand: at a token's start, or past every `"` of the token. */
  predicate CloseScanPoint(s: string, p: nat)
    requires p <= |s|
  {
    p == 0 || IsSpace(s[p - 1]) || forall j :: p <= j < TokenEnd(s, p) ==> s[j] != '"'
  }

  /** A `QUOTES_CYR_CLOSE` scan replaces exactly the quotes `CloseAt` selects, one for one. */
  lemma {:induction false} QuotesCloseFrom(s: string, p: nat)
    requires p <= |s| && CloseScanPoint(s, p)
    ensures |Sub(QuotesCyrClose, s, p)| == |s| - p
    ensures forall i :: p <= i < |s| ==> Sub(QuotesCyrClose, s, p)[i - p] == if CloseAt(s, i) then '\U{00BB}' else s[i]
    decreases |s| - p
  {
    if p < |s| {
      var t := Sub(QuotesCyrClose, s, p);
      if IsSpace(s[p]) {
        assert QuotesCyrCloseMatch(s, p).None?;
        QuotesCloseSkip(s, p);
      } else {
        var e := TokenEnd(s, p);
        match LastQuote(s, p + 1, e)
        case None =>
          TokenEndWithin(s, p, p + 1);
          QuotesCloseSkip(s, p);
        case Some(q) =>
          QuotesCloseMatched(s, p, q);
      }
    }
  }

  /** The step of `QuotesCloseFrom` where the token's last `"` after `p`, at `q`, closes. */
  lemma {:induction false} QuotesCloseMatched(s: string, p: nat, q: nat)
    requires p < |s| && !IsSpace(s[p]) && LastQuote(s, p + 1, TokenEnd(s, p)) == Some(q)
    ensures |Sub(QuotesCyrClose, s, p)| == |s| - p
    ensures forall i :: p <= i < |s| ==> Sub(QuotesCyrClose, s, p)[i - p] == if CloseAt(s, i) then '\U{00BB}' else s[i]
    decreases |s| - p, 0
  {
    var t := Sub(QuotesCyrClose, s, p);
    var u := Sub(QuotesCyrClose, s, q + 1);
    assert t == s[p..q] + "\U{00BB}" + u;
    LastQuoteCloses(s, p, q);
    QuotesCloseFrom(s, q + 1);
    assert |t| == |s| - p;
    forall i | p <= i < |s|
      ensures t[i - p] == if CloseAt(s, i) then '\U{00BB}' else s[i]
    {
      if q < i {
        assert t[i - p] == u[i - (q + 1)];
      } else if i < q {
        assert t[i - p] == s[p..q][i - p];
      } else {
        assert t[i - p] == '\U{00BB}';
      }
    }
  }

  /** Of the quotes from `p` to its token's end, only the last one, at `q`, closes; the scan resumes past every quote of the token. */
  lemma LastQuoteCloses(s: string, p: nat, q: nat)
    requires p < |s| && !IsSpace(s[p]) && LastQuote(s, p + 1, TokenEnd(s, p)) == Some(q)
    ensures CloseAt(s, q) && forall i :: p <= i < q ==> !CloseAt(s, i)
    ensures CloseScanPoint(s, q + 1)
  {
    TokenEndWithin(s, p, q + 1);
    TokenEndWithin(s, p, q);
    forall i | p <= i < q
      ensures !CloseAt(s, i)
    {
      TokenEndWithin(s, p, i);
      assert p < q < TokenEnd(s, i) && s[q] == '"';
    }
  }

  /** The step of `QuotesCloseFrom` where nothing matches at `p`. */
  lemma {:induction false} QuotesCloseSkip(s: string, p: nat)
    requires p < |s| && CloseScanPoint(s, p) && QuotesCyrCloseMatch(s, p).None?
    requires !IsSpace(s[p]) ==> TokenEnd(s, p + 1) == TokenEnd(s, p)
    ensures |Sub(QuotesCyrClose, s, p)| == |s| - p
    ensures forall i :: p <= i < |s| ==> Sub(QuotesCyrClose, s, p)[i - p] == if CloseAt(s, i) then '\U{00BB}' else s[i]
    decreases |s| - p, 0
  {
    var t := Sub(QuotesCyrClose, s, p);
    var u := Sub(QuotesCyrClose, s, p + 1);
    assert t == [s[p]] + u;
    assert !CloseAt(s, p);
    assert CloseScanPoint(s, p + 1);
    QuotesCloseFrom(s, p + 1);
    forall i | p < i < |s|
      ensures t[i - p] == if CloseAt(s, i) then '\U{00BB}' else s[i]
    {
      assert t[i - p] == u[i - (p + 1)];
    }
  }

  /** `QUOTES_CYR_CLOSE` on a whole text. */
  lemma QuotesCloseResult(s: string)
    ensures |Substitute(QuotesCyrClose, s)| == |s|
    ensures forall i :: 0 <= i < |s| ==> Substitute(QuotesCyrClose, s)[i] == if CloseAt(s, i) then '\U{00BB}' else s[i]
  {
    QuotesCloseFrom(s, 0);
  }

  /** Where a `QUOTES_CYR_OPEN` scan may stand: on whitespace, at the end, or before any `"` of the token. */
  predicate OpenScanPoint(s: string, p: nat)
    requires p <= |s|
  {
    p == |s| || IsSpace(s[p]) || forall j :: TokenStart(s, p) <= j < p ==> s[j] != '"'
  }

  /** A `QUOTES_CYR_OPEN` scan replaces exactly the quotes `OpenAt` selects, one for one. */
  lemma {:induction false} QuotesOpenFrom(s: string, p: nat)
    requires p <= |s| && OpenScanPoint(s, p)
    ensures |Sub(QuotesCyrOpen, s, p)| == |s| - p
    ensures forall i :: p <= i < |s| ==> Sub(QuotesCyrOpen, s, p)[i - p] == if OpenAt(s, i) then '\U{00AB}' else s[i]
    decreases |s| - p
  {
    if p < |s| {
      if QuotesCyrOpenMatch(s, p).None? {
        QuotesOpenSkip(s, p);
      } else {
        QuotesOpenMatched(s, p);
      }
    }
  }

  /** The step of `QuotesOpenFrom` where nothing matches at `p`. */
  lemma {:induction false} QuotesOpenSkip(s: string, p: nat)
    requires p < |s| && OpenScanPoint(s, p) && QuotesCyrOpenMatch(s, p).None?
    ensures |Sub(QuotesCyrOpen, s, p)| == |s| - p
    ensures forall i :: p <= i < |s| ==> Sub(QuotesCyrOpen, s, p)[i - p] == if OpenAt(s, i) then '\U{00AB}' else s[i]
    decreases |s| - p, 0
  {
    var t := Sub(QuotesCyrOpen, s, p);
    var u := Sub(QuotesCyrOpen, s, p + 1);
    assert t == [s[p]] + u;
    if p + 1 < |s| && !IsSpace(s[p + 1]) && !IsSpace(s[p]) {
      TokenStartWithin(s, p, p + 1);
    }
    QuotesOpenFrom(s, p + 1);
    forall i | p < i < |s|
      ensures t[i - p] == if OpenAt(s, i) then '\U{00AB}' else s[i]
    {
      assert t[i - p] == u[i - (p + 1)];
    }
  }

  /** The step of `QuotesOpenFrom` where the `"` at `p` opens and the rest of its token is taken. */
  lemma {:induction false} QuotesOpenMatched(s: string, p: nat)
    requires p < |s| && OpenScanPoint(s, p) && QuotesCyrOpenMatch(s, p).Some?
    ensures |Sub(QuotesCyrOpen, s, p)| == |s| - p
    ensures forall i :: p <= i < |s| ==> Sub(QuotesCyrOpen, s, p)[i - p] == if OpenAt(s, i) then '\U{00AB}' else s[i]
    decreases |s| - p, 0
  {
    var t := Sub(QuotesCyrOpen, s, p);
    var e := TokenEnd(s, p + 1);
    var u := Sub(QuotesCyrOpen, s, e);
    assert t == "\U{00AB}" + s[p + 1..e] + u;
    QuotesOpenFrom(s, e);
    OpenedToken(s, p);
    forall i | p < i < e
      ensures t[i - p] == s[i]
    {
    }
    forall i | e <= i < |s|
      ensures t[i - p] == if OpenAt(s, i) then '\U{00AB}' else s[i]
    {
      assert t[i - p] == u[i - e];
    }
  }

  /** A `"` that `QUOTES_CYR_OPEN` matches opens, and no character after it in its token does. */
  lemma OpenedToken(s: string, p: nat)
    requires p < |s| && OpenScanPoint(s, p) && QuotesCyrOpenMatch(s, p).Some?
    ensures OpenAt(s, p)
    ensures forall i :: p < i < TokenEnd(s, p + 1) ==> !OpenAt(s, i)
  {
    forall i | p < i < TokenEnd(s, p + 1)
      ensures !OpenAt(s, i)
    {
      TokenStartWithin(s, p, i);
    }
  }

  /** `QUOTES_CYR_OPEN` on a whole text. */
  lemma QuotesOpenResult(s: string)
    ensures |Substitute(QuotesCyrOpen, s)| == |s|
    ensures forall i :: 0 <= i < |s| ==> Substitute(QuotesCyrOpen, s)[i] == if OpenAt(s, i) then '\U{00AB}' else s[i]
  {
    QuotesOpenFrom(s, 0);
  }
}
