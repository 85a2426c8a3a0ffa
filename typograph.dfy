/**
 * `BasicTypograph` (apps/utils.py:290-321): eleven regular-expression
 * substitutions applied once each, in declaration order, to the stripped
 * input padded with one space on each side; the result is stripped.
 *
 * Each pattern is modelled by a hand-written matcher `MatchAt(rule, s, p)`
 * that says whether, and how, the pattern matches the text `s` starting
 * exactly at `p` (with the regular expression engine's greedy choice and
 * backtracking written out), and what the match is replaced with. `Sub`
 * is `re.sub`: scanning left to right, it replaces the leftmost match and
 * resumes after it, and copies a character where nothing matches. No
 * pattern here matches the empty string.
 */
module Typograph {
  import opened Wrappers
  import opened Text

  datatype Rule =
    | QuotesReplace     // ('„|“|”|('')') to '"'
    | DashReplace       // ('-|U+00AD|–|—|―|−|--') to '-'
    | SequentialSpaces  // ('[ \t]+') to ' '
    | DashEm            // ('([ ,])-[ ]') to '\1— '
    | DashEn            // ('(\d+)[ ]*-[ ]*(\d+)') to '\1–\2'
    | Hellip            // ('\.{2,3}') to '…'
    | Copyright         // ('\((c|с)\)') to '©'
    | Trademark         // ('\(tm\)') to '™'
    | TrademarkR        // ('\(r\)') to '®'
    | QuotesCyrClose    // ('(\S+)"') to '\1»'
    | QuotesCyrOpen     // ('"(\S+)') to '«\1'

  /** The rules in the order of the `OrderedDict`. */
  const Rules: seq<Rule> := [QuotesReplace, DashReplace, SequentialSpaces, DashEm, DashEn, Hellip,
                             Copyright, Trademark, TrademarkR, QuotesCyrClose, QuotesCyrOpen]

  /** A match: how many characters it covers and what replaces them. */
  datatype Match = Match(len: nat, repl: string)

  /** `w` occurs in `s` at `p`. */
  predicate IsAt(s: string, p: nat, w: string)
  {
    p + |w| <= |s| && s[p..p + |w|] == w
  }

  /**
   * An alternation of literals `a1|a2|...`: the first alternative, in the
   * order written, that occurs at `p`.
   */
  function FirstAlternative(alts: seq<string>, s: string, p: nat): (r: Option<string>)
    ensures r.Some? ==> r.value in alts && IsAt(s, p, r.value)
    ensures r.Some? ==> exists k :: 0 <= k < |alts| && r.value == alts[k] && forall j :: 0 <= j < k ==> !IsAt(s, p, alts[j])
    ensures r.None? ==> forall k :: 0 <= k < |alts| ==> !IsAt(s, p, alts[k])
  {
    if alts == [] then None
    else if IsAt(s, p, alts[0]) then Some(alts[0])
    else
      var r := FirstAlternative(alts[1..], s, p);
      assert forall k :: 1 <= k < |alts| ==> alts[k] == alts[1..][k - 1];
      r
  }

  /** The literal alternations and the character that replaces any of them. */
  const QuoteAlternatives: seq<string> := ["\U{201E}", "\U{201C}", "\U{201D}", "''"]
  const DashAlternatives: seq<string> := ["-", "\U{00AD}", "\U{2013}", "\U{2014}", "\U{2015}", "\U{2212}", "--"]
  const HellipAlternatives: seq<string> := ["...", ".."]   // `\.{2,3}`, greedy: three dots before two
  const CopyrightAlternatives: seq<string> := ["(c)", "(\U{0441})"]
  const TrademarkAlternatives: seq<string> := ["(tm)"]
  const TrademarkRAlternatives: seq<string> := ["(r)"]

  predicate IsLiteralRule(rule: Rule)
  {
    rule in {QuotesReplace, DashReplace, Hellip, Copyright, Trademark, TrademarkR}
  }

  function Alternatives(rule: Rule): (r: seq<string>)
    requires IsLiteralRule(rule)
    ensures forall k :: 0 <= k < |r| ==> r[k] != []
  {
    match rule
    case QuotesReplace => QuoteAlternatives
    case DashReplace => DashAlternatives
    case Hellip => HellipAlternatives
    case Copyright => CopyrightAlternatives
    case Trademark => TrademarkAlternatives
    case TrademarkR => TrademarkRAlternatives
  }

  function Replacement(rule: Rule): char
    requires IsLiteralRule(rule)
  {
    match rule
    case QuotesReplace => '"'
    case DashReplace => '-'
    case Hellip => '\U{2026}'
    case Copyright => '\U{00A9}'
    case Trademark => '\U{2122}'
    case TrademarkR => '\U{00AE}'
  }

  predicate IsBlank(c: char)
  {
    c == ' ' || c == '\t'
  }

  /** The end of the run of blanks, of spaces or of digits that starts at `p`. */
  function BlankEnd(s: string, p: nat): (e: nat)
    requires p <= |s|
    ensures p <= e <= |s| && (e < |s| ==> !IsBlank(s[e]))
    ensures forall k :: p <= k < e ==> IsBlank(s[k])
    decreases |s| - p
  {
    if p < |s| && IsBlank(s[p]) then BlankEnd(s, p + 1) else p
  }

  function SpaceRunEnd(s: string, p: nat): (e: nat)
    requires p <= |s|
    ensures p <= e <= |s| && (e < |s| ==> s[e] != ' ')
    ensures forall k :: p <= k < e ==> s[k] == ' '
    decreases |s| - p
  {
    if p < |s| && s[p] == ' ' then SpaceRunEnd(s, p + 1) else p
  }

  function DigitEnd(s: string, p: nat): (e: nat)
    requires p <= |s|
    ensures p <= e <= |s| && (e < |s| ==> !IsDigit(s[e]))
    ensures forall k :: p <= k < e ==> IsDigit(s[k])
    decreases |s| - p
  {
    if p < |s| && IsDigit(s[p]) then DigitEnd(s, p + 1) else p
  }

  /** The end of the whitespace-free token containing `p`: the first whitespace at or after `p`. */
  function TokenEnd(s: string, p: nat): (e: nat)
    requires p <= |s|
    ensures p <= e <= |s| && (e < |s| ==> IsSpace(s[e]))
    ensures forall k :: p <= k < e ==> !IsSpace(s[k])
    decreases |s| - p
  {
    if p < |s| && !IsSpace(s[p]) then TokenEnd(s, p + 1) else p
  }

  /** The last `"` in `s[lo..hi]`. */
  function LastQuote(s: string, lo: nat, hi: nat): (r: Option<nat>)
    requires lo <= hi <= |s|
    ensures r.Some? ==> lo <= r.value < hi && s[r.value] == '"' && forall k :: r.value < k < hi ==> s[k] != '"'
    ensures r.None? ==> forall k :: lo <= k < hi ==> s[k] != '"'
    decreases hi - lo
  {
    if lo == hi then None else if s[hi - 1] == '"' then Some(hi - 1) else LastQuote(s, lo, hi - 1)
  }

  /** A literal alternation matches its first alternative that occurs at `p`. */
  function LiteralMatch(rule: Rule, s: string, p: nat): Option<Match>
    requires IsLiteralRule(rule) && p <= |s|
  {
    match FirstAlternative(Alternatives(rule), s, p)
    case None => None
    case Some(w) => Some(Match(|w|, [Replacement(rule)]))
  }

  /** `[ \t]+`: the whole run of blanks. */
  function SequentialSpacesMatch(s: string, p: nat): Option<Match>
    requires p < |s|
  {
    if IsBlank(s[p]) then Some(Match(BlankEnd(s, p) - p, " ")) else None
  }

  /** `([ ,])-[ ]`: three characters, the middle one replaced by an em dash. */
  function DashEmMatch(s: string, p: nat): Option<Match>
    requires p < |s|
  {
    if p + 2 < |s| && (s[p] == ' ' || s[p] == ',') && s[p + 1] == '-' && s[p + 2] == ' '
    then Some(Match(3, [s[p], '\U{2014}', ' ']))
    else None
  }

  /**
   * `(\d+)[ ]*-[ ]*(\d+)`: each greedy repetition takes its whole run; giving
   * back characters can never help, because what would follow a shorter
   * run is a digit or a space where a space, a hyphen or a digit run ending
   * is needed.
   */
  function DashEnMatch(s: string, p: nat): Option<Match>
    requires p < |s|
  {
    if !IsDigit(s[p]) then None
    else
      var d1 := DigitEnd(s, p);
      var h := SpaceRunEnd(s, d1);
      if h == |s| || s[h] != '-' then None
      else
        var d2 := SpaceRunEnd(s, h + 1);
        var e := DigitEnd(s, d2);
        if e == d2 then None else Some(Match(e - p, s[p..d1] + "\U{2013}" + s[d2..e]))
  }

  /**
   * `(\S+)"`: the greedy `\S+` takes the rest of the token and backtracks to
   * the last `"` after its first character.
   */
  function QuotesCyrCloseMatch(s: string, p: nat): Option<Match>
    requires p < |s|
  {
    if IsSpace(s[p]) then None
    else
      match LastQuote(s, p + 1, TokenEnd(s, p))
      case None => None
      case Some(q) => Some(Match(q + 1 - p, s[p..q] + "\U{00BB}"))
  }

  /** `"(\S+)`: a `"` followed by at least one character of the token, the token's rest taken whole. */
  function QuotesCyrOpenMatch(s: string, p: nat): Option<Match>
    requires p < |s|
  {
    if s[p] == '"' && p + 1 < |s| && !IsSpace(s[p + 1])
    then var e := TokenEnd(s, p + 1); Some(Match(e - p, "\U{00AB}" + s[p + 1..e]))
    else None
  }

  /** The match of `rule` starting exactly at `p`, if any. It is never empty. */
  function MatchAt(rule: Rule, s: string, p: nat): (r: Option<Match>)
    requires p < |s|
    ensures r.Some? ==> 1 <= r.value.len <= |s| - p
  {
    match rule
    case SequentialSpaces => SequentialSpacesMatch(s, p)
    case DashEm => DashEmMatch(s, p)
    case DashEn => DashEnMatch(s, p)
    case QuotesCyrClose => QuotesCyrCloseMatch(s, p)
    case QuotesCyrOpen => QuotesCyrOpenMatch(s, p)
    case _ =>
      var m := LiteralMatch(rule, s, p);
      assert m.Some? ==> exists k :: 0 <= k < |Alternatives(rule)| && m.value.len == |Alternatives(rule)[k]|;
      m
  }

  /** `re.sub(rule, ..., s[p..])`, the scan having reached `p`. */
  function Sub(rule: Rule, s: string, p: nat): string
    requires p <= |s|
    decreases |s| - p
  {
    if p == |s| then []
    else
      match MatchAt(rule, s, p)
      case None => [s[p]] + Sub(rule, s, p + 1)
      case Some(m) => m.repl + Sub(rule, s, p + m.len)
  }

  function Substitute(rule: Rule, s: string): string
  {
    Sub(rule, s, 0)
  }

  /** The rules applied one after the other, the first one first. */
  function ApplyRules(rules: seq<Rule>, s: string): string
  {
    if rules == [] then s else Substitute(rules[|rules| - 1], ApplyRules(rules[..|rules| - 1], s))
  }

  /** The rules run once each, in the order they are declared. */
  lemma ApplyRulesInOrder(s: string)
    ensures ApplyRules(Rules, s)
         == Substitute(QuotesCyrOpen, Substitute(QuotesCyrClose,
              Substitute(TrademarkR, Substitute(Trademark, Substitute(Copyright,
              Substitute(Hellip, Substitute(DashEn, Substitute(DashEm,
              Substitute(SequentialSpaces, Substitute(DashReplace, Substitute(QuotesReplace, s)))))))))))
  {
    assert Rules[..11] == Rules;
    assert Rules[..11][..10] == Rules[..10];
    assert ApplyRules(Rules[..11], s) == Substitute(Rules[10], ApplyRules(Rules[..10], s));
    assert Rules[..10][..9] == Rules[..9];
    assert ApplyRules(Rules[..10], s) == Substitute(Rules[9], ApplyRules(Rules[..9], s));
    assert Rules[..9][..8] == Rules[..8];
    assert ApplyRules(Rules[..9], s) == Substitute(Rules[8], ApplyRules(Rules[..8], s));
    assert Rules[..8][..7] == Rules[..7];
    assert ApplyRules(Rules[..8], s) == Substitute(Rules[7], ApplyRules(Rules[..7], s));
    assert Rules[..7][..6] == Rules[..6];
    assert ApplyRules(Rules[..7], s) == Substitute(Rules[6], ApplyRules(Rules[..6], s));
    assert Rules[..6][..5] == Rules[..5];
    assert ApplyRules(Rules[..6], s) == Substitute(Rules[5], ApplyRules(Rules[..5], s));
    assert Rules[..5][..4] == Rules[..4];
    assert ApplyRules(Rules[..5], s) == Substitute(Rules[4], ApplyRules(Rules[..4], s));
    assert Rules[..4][..3] == Rules[..3];
    assert ApplyRules(Rules[..4], s) == Substitute(Rules[3], ApplyRules(Rules[..3], s));
    assert Rules[..3][..2] == Rules[..2];
    assert ApplyRules(Rules[..3], s) == Substitute(Rules[2], ApplyRules(Rules[..2], s));
    assert Rules[..2][..1] == Rules[..1];
    assert ApplyRules(Rules[..2], s) == Substitute(Rules[1], ApplyRules(Rules[..1], s));
    assert Rules[..1][..0] == Rules[..0];
    assert ApplyRules(Rules[..1], s) == Substitute(Rules[0], ApplyRules(Rules[..0], s));
  }

  /** What `apply_to` returns. */
  function Typography(input: string): string
  {
    Strip(ApplyRules(Rules, " " + Strip(input) + " "))
  }

  /**
   * `BasicTypograph.apply_to`: the padded, stripped input goes through every
   * rule in turn; the result carries no leading or trailing whitespace.
   */
  method ApplyTo(input: string) returns (r: string)
    ensures r == Typography(input)
    ensures r == [] || (!IsSpace(r[0]) && !IsSpace(r[|r| - 1]))
  {
    var text := " " + Strip(input) + " ";
    ghost var padded := text;
    var i := 0;
    while i < |Rules|
      invariant 0 <= i <= |Rules|
      invariant text == ApplyRules(Rules[..i], padded)
    {
      assert Rules[..i + 1][..i] == Rules[..i];
      text := Substitute(Rules[i], text);
      i := i + 1;
    }
    assert Rules[..i] == Rules;
    r := Strip(text);
  }
}
