/**
 * Whole runs of `BasicTypograph.apply_to` (apps/utils.py:315-321) on small
 * inputs, one rule at a time, and one rule on its own.
 */
module TypographExamples {
  import opened Wrappers
  import opened Text
  import opened Typograph
  import opened TypographLiterals

  /** A literal rule does not match where no alternative's first character stands. */
  lemma LiteralNoMatchAt(rule: Rule, s: string, p: nat)
    requires IsLiteralRule(rule) && p < |s|
    requires forall j :: 0 <= j < |Alternatives(rule)| ==> s[p] != Alternatives(rule)[j][0]
    ensures MatchAt(rule, s, p).None?
  {
    forall j | 0 <= j < |Alternatives(rule)|
      ensures !IsAt(s, p, Alternatives(rule)[j])
    {
      if p + |Alternatives(rule)[j]| <= |s| {
        assert s[p..p + |Alternatives(rule)[j]|][0] == s[p];
      }
    }
  }

  /** A literal rule leaves alone a text in which no alternative's first character occurs. */
  lemma LiteralIdle(rule: Rule, s: string)
    requires IsLiteralRule(rule)
    requires forall k, j :: 0 <= k < |s| && 0 <= j < |Alternatives(rule)| ==> s[k] != Alternatives(rule)[j][0]
    ensures Substitute(rule, s) == s
  {
    forall k | 0 <= k < |s|
      ensures MatchAt(rule, s, k).None?
    {
      LiteralNoMatchAt(rule, s, k);
    }
    SubWithoutMatches(rule, s, 0);
  }

  /** `DASH_REPLACE` leaves alone a text whose only dash character is `-`. */
  lemma DashReplaceIdle(s: string)
    requires forall k :: 0 <= k < |s| ==> IsDash(s[k]) ==> s[k] == '-'
    ensures Substitute(DashReplace, s) == s
  {
    DashReplacePointwise(s, 0);
  }

  /** `SEQUENTIAL_SPACES` leaves alone a text with no tab and no two adjacent spaces. */
  lemma {:induction false} SequentialSpacesIdle(s: string, p: nat)
    requires p <= |s|
    requires forall k :: 0 <= k < |s| ==> s[k] != '\t'
    requires forall k :: 0 <= k < |s| - 1 ==> !(s[k] == ' ' && s[k + 1] == ' ')
    ensures Sub(SequentialSpaces, s, p) == s[p..]
    decreases |s| - p
  {
    if p < |s| {
      if IsBlank(s[p]) {
        assert BlankEnd(s, p) == p + 1;
      }
      SequentialSpacesIdle(s, p + 1);
      assert s[p..] == [s[p]] + s[p + 1..];
    }
  }

  /** Stripping a text padded with one space on each side around non-whitespace ends removes just the padding. */
  lemma StripOnePad(u: string)
    requires |u| >= 3 && u[0] == ' ' && u[|u| - 1] == ' ' && !IsSpace(u[1]) && !IsSpace(u[|u| - 2])
    ensures Strip(u) == u[1..|u| - 1]
  {
    assert LeadingSpaces(u[1..]) == 0;
    assert LeadingSpaces(u) == 1;
    var t := u[1..];
    assert t[..|t| - 1][|t| - 2] == u[|u| - 2];
    assert TrailingSpaces(t[..|t| - 1]) == 0;
    assert TrailingSpaces(t) == 1;
  }

  /** A quoted word gets Russian quotes: `"word"` becomes `«word»`. */
  lemma QuotedWord()
    ensures Typography("\"word\"") == "\U{00AB}word\U{00BB}"
  {
    QuotedWordStrip();
    QuotedWordPadded();
    ApplyRulesInOrder(" \"word\" ");
    QuotedWordStep1();
    QuotedWordStep2();
    QuotedWordStep3();
    QuotedWordStep4();
    QuotedWordStep5();
    QuotedWordStep6();
    QuotedWordStep7();
    QuotedWordStep8();
    QuotedWordStep9();
    QuotedWordStep10();
    QuotedWordStep11();
    assert ApplyRules(Rules, " \"word\" ") == " \U{00AB}word\U{00BB} ";
    QuotedWordResultStrip();
  }

  lemma QuotedWordPadded()
    ensures " " + "\"word\"" + " " == " \"word\" "
  {
  }

  lemma QuotedWordStrip()
    ensures Strip("\"word\"") == "\"word\""
  {
  }

  lemma QuotedWordStep1()
    ensures Substitute(QuotesReplace, " \"word\" ") == " \"word\" "
  {
    LiteralIdle(QuotesReplace, " \"word\" ");
  }

  lemma QuotedWordStep2()
    ensures Substitute(DashReplace, " \"word\" ") == " \"word\" "
  {
    DashReplaceIdle(" \"word\" ");
  }

  lemma QuotedWordStep3()
    ensures Substitute(SequentialSpaces, " \"word\" ") == " \"word\" "
  {
    SequentialSpacesIdle(" \"word\" ", 0);
  }

  lemma QuotedWordStep4()
    ensures Substitute(DashEm, " \"word\" ") == " \"word\" "
  {
    forall k | 0 <= k < |" \"word\" "|
      ensures MatchAt(DashEm, " \"word\" ", k).None?
    {
    }
    SubWithoutMatches(DashEm, " \"word\" ", 0);
  }

  lemma QuotedWordStep5()
    ensures Substitute(DashEn, " \"word\" ") == " \"word\" "
  {
    forall k | 0 <= k < |" \"word\" "|
      ensures MatchAt(DashEn, " \"word\" ", k).None?
    {
    }
    SubWithoutMatches(DashEn, " \"word\" ", 0);
  }

  lemma QuotedWordStep6()
    ensures Substitute(Hellip, " \"word\" ") == " \"word\" "
  {
    LiteralIdle(Hellip, " \"word\" ");
  }

  lemma QuotedWordStep7()
    ensures Substitute(Copyright, " \"word\" ") == " \"word\" "
  {
    LiteralIdle(Copyright, " \"word\" ");
  }

  lemma QuotedWordStep8()
    ensures Substitute(Trademark, " \"word\" ") == " \"word\" "
  {
    LiteralIdle(Trademark, " \"word\" ");
  }

  lemma QuotedWordStep9()
    ensures Substitute(TrademarkR, " \"word\" ") == " \"word\" "
  {
    LiteralIdle(TrademarkR, " \"word\" ");
  }

  lemma QuotedWordStep10()
    ensures Substitute(QuotesCyrClose, " \"word\" ") == " \"word\U{00BB} "
  {
    var s := " \"word\" ";
    assert TokenEnd(s, 1) == 7 && LastQuote(s, 2, 7) == Some(6);
    assert s[1..6] == "\"word";
    assert QuotesCyrCloseMatch(s, 1) == Some(Match(6, "\"word" + "\U{00BB}"));
    assert Sub(QuotesCyrClose, s, 7) == " ";
    assert Sub(QuotesCyrClose, s, 1) == "\"word" + "\U{00BB}" + " ";
  }

  lemma QuotedWordStep11()
    ensures Substitute(QuotesCyrOpen, " \"word\U{00BB} ") == " \U{00AB}word\U{00BB} "
  {
    var s := " \"word\U{00BB} ";
    assert TokenEnd(s, 2) == 7 && s[2..7] == "word\U{00BB}";
    assert QuotesCyrOpenMatch(s, 1) == Some(Match(6, "\U{00AB}" + "word\U{00BB}"));
    assert Sub(QuotesCyrOpen, s, 7) == " ";
    assert Sub(QuotesCyrOpen, s, 1) == "\U{00AB}" + "word\U{00BB}" + " ";
  }

  lemma QuotedWordResultStrip()
    ensures Strip(" \U{00AB}word\U{00BB} ") == "\U{00AB}word\U{00BB}"
  {
    StripOnePad(" \U{00AB}word\U{00BB} ");
    assert " \U{00AB}word\U{00BB} "[1..|" \U{00AB}word\U{00BB} "| - 1] == "\U{00AB}word\U{00BB}";
  }

  /** A lone `"` is left as it is. */
  lemma LoneQuote()
    ensures Typography("\"") == "\""
  {
    LoneQuoteStrip();
    LoneQuotePadded();
    ApplyRulesInOrder(" \" ");
    LoneQuoteStep1();
    LoneQuoteStep2();
    LoneQuoteStep3();
    LoneQuoteStep4();
    LoneQuoteStep5();
    LoneQuoteStep6();
    LoneQuoteStep7();
    LoneQuoteStep8();
    LoneQuoteStep9();
    LoneQuoteStep10();
    LoneQuoteStep11();
    assert ApplyRules(Rules, " \" ") == " \" ";
    LoneQuoteResultStrip();
  }

  lemma LoneQuotePadded()
    ensures " " + "\"" + " " == " \" "
  {
  }

  lemma LoneQuoteStrip()
    ensures Strip("\"") == "\""
  {
  }

  lemma LoneQuoteStep1()
    ensures Substitute(QuotesReplace, " \" ") == " \" "
  {
    LiteralIdle(QuotesReplace, " \" ");
  }

  lemma LoneQuoteStep2()
    ensures Substitute(DashReplace, " \" ") == " \" "
  {
    DashReplaceIdle(" \" ");
  }

  lemma LoneQuoteStep3()
    ensures Substitute(SequentialSpaces, " \" ") == " \" "
  {
    SequentialSpacesIdle(" \" ", 0);
  }

  lemma LoneQuoteStep4()
    ensures Substitute(DashEm, " \" ") == " \" "
  {
    forall k | 0 <= k < |" \" "|
      ensures MatchAt(DashEm, " \" ", k).None?
    {
    }
    SubWithoutMatches(DashEm, " \" ", 0);
  }

  lemma LoneQuoteStep5()
    ensures Substitute(DashEn, " \" ") == " \" "
  {
    forall k | 0 <= k < |" \" "|
      ensures MatchAt(DashEn, " \" ", k).None?
    {
    }
    SubWithoutMatches(DashEn, " \" ", 0);
  }

  lemma LoneQuoteStep6()
    ensures Substitute(Hellip, " \" ") == " \" "
  {
    LiteralIdle(Hellip, " \" ");
  }

  lemma LoneQuoteStep7()
    ensures Substitute(Copyright, " \" ") == " \" "
  {
    LiteralIdle(Copyright, " \" ");
  }

  lemma LoneQuoteStep8()
    ensures Substitute(Trademark, " \" ") == " \" "
  {
    LiteralIdle(Trademark, " \" ");
  }

  lemma LoneQuoteStep9()
    ensures Substitute(TrademarkR, " \" ") == " \" "
  {
    LiteralIdle(TrademarkR, " \" ");
  }

  lemma LoneQuoteStep10()
    ensures Substitute(QuotesCyrClose, " \" ") == " \" "
  {
    forall k | 0 <= k < |" \" "|
      ensures MatchAt(QuotesCyrClose, " \" ", k).None?
    {
    }
    SubWithoutMatches(QuotesCyrClose, " \" ", 0);
  }

  lemma LoneQuoteStep11()
    ensures Substitute(QuotesCyrOpen, " \" ") == " \" "
  {
    forall k | 0 <= k < |" \" "|
      ensures MatchAt(QuotesCyrOpen, " \" ", k).None?
    {
    }
    SubWithoutMatches(QuotesCyrOpen, " \" ", 0);
  }

  lemma LoneQuoteResultStrip()
    ensures Strip(" \" ") == "\""
  {
    StripOnePad(" \" ");
    assert " \" "[1..|" \" "| - 1] == "\"";
  }

  /** A hyphen between numbers becomes an en dash: `1-2` becomes `1–2`. */
  lemma NumberRange()
    ensures Typography("1-2") == "1\U{2013}2"
  {
    NumberRangeStrip();
    NumberRangePadded();
    ApplyRulesInOrder(" 1-2 ");
    NumberRangeStep1();
    NumberRangeStep2();
    NumberRangeStep3();
    NumberRangeStep4();
    NumberRangeStep5();
    NumberRangeStep6();
    NumberRangeStep7();
    NumberRangeStep8();
    NumberRangeStep9();
    NumberRangeStep10();
    NumberRangeStep11();
    assert ApplyRules(Rules, " 1-2 ") == " 1\U{2013}2 ";
    NumberRangeResultStrip();
  }

  lemma NumberRangePadded()
    ensures " " + "1-2" + " " == " 1-2 "
  {
  }

  lemma NumberRangeStrip()
    ensures Strip("1-2") == "1-2"
  {
  }

  lemma NumberRangeStep1()
    ensures Substitute(QuotesReplace, " 1-2 ") == " 1-2 "
  {
    LiteralIdle(QuotesReplace, " 1-2 ");
  }

  lemma NumberRangeStep2()
    ensures Substitute(DashReplace, " 1-2 ") == " 1-2 "
  {
    DashReplaceIdle(" 1-2 ");
  }

  lemma NumberRangeStep3()
    ensures Substitute(SequentialSpaces, " 1-2 ") == " 1-2 "
  {
    SequentialSpacesIdle(" 1-2 ", 0);
  }

  lemma NumberRangeStep4()
    ensures Substitute(DashEm, " 1-2 ") == " 1-2 "
  {
    forall k | 0 <= k < |" 1-2 "|
      ensures MatchAt(DashEm, " 1-2 ", k).None?
    {
    }
    SubWithoutMatches(DashEm, " 1-2 ", 0);
  }

  lemma NumberRangeStep5()
    ensures Substitute(DashEn, " 1-2 ") == " 1\U{2013}2 "
  {
    var s := " 1-2 ";
    assert DigitEnd(s, 1) == 2 && SpaceRunEnd(s, 2) == 2 && SpaceRunEnd(s, 3) == 3 && DigitEnd(s, 3) == 4;
    assert s[1..2] == "1" && s[3..4] == "2";
    assert IsDigit(s[1]) && s[2] == '-';
    assert "1" + "\U{2013}" + "2" == "1\U{2013}2";
    assert DashEnMatch(s, 1) == Some(Match(3, "1\U{2013}2"));
    assert Sub(DashEn, s, 4) == " ";
    assert Sub(DashEn, s, 1) == "1\U{2013}2" + " ";
  }

  lemma NumberRangeStep6()
    ensures Substitute(Hellip, " 1\U{2013}2 ") == " 1\U{2013}2 "
  {
    LiteralIdle(Hellip, " 1\U{2013}2 ");
  }

  lemma NumberRangeStep7()
    ensures Substitute(Copyright, " 1\U{2013}2 ") == " 1\U{2013}2 "
  {
    LiteralIdle(Copyright, " 1\U{2013}2 ");
  }

  lemma NumberRangeStep8()
    ensures Substitute(Trademark, " 1\U{2013}2 ") == " 1\U{2013}2 "
  {
    LiteralIdle(Trademark, " 1\U{2013}2 ");
  }

  lemma NumberRangeStep9()
    ensures Substitute(TrademarkR, " 1\U{2013}2 ") == " 1\U{2013}2 "
  {
    LiteralIdle(TrademarkR, " 1\U{2013}2 ");
  }

  lemma NumberRangeStep10()
    ensures Substitute(QuotesCyrClose, " 1\U{2013}2 ") == " 1\U{2013}2 "
  {
    forall k | 0 <= k < |" 1\U{2013}2 "|
      ensures MatchAt(QuotesCyrClose, " 1\U{2013}2 ", k).None?
    {
    }
    SubWithoutMatches(QuotesCyrClose, " 1\U{2013}2 ", 0);
  }

  lemma NumberRangeStep11()
    ensures Substitute(QuotesCyrOpen, " 1\U{2013}2 ") == " 1\U{2013}2 "
  {
    forall k | 0 <= k < |" 1\U{2013}2 "|
      ensures MatchAt(QuotesCyrOpen, " 1\U{2013}2 ", k).None?
    {
    }
    SubWithoutMatches(QuotesCyrOpen, " 1\U{2013}2 ", 0);
  }

  lemma NumberRangeResultStrip()
    ensures Strip(" 1\U{2013}2 ") == "1\U{2013}2"
  {
    StripOnePad(" 1\U{2013}2 ");
    assert " 1\U{2013}2 "[1..|" 1\U{2013}2 "| - 1] == "1\U{2013}2";
  }

  /** `DASH_EN` resumes after a replaced range, so in a chain only the first hyphen becomes an en dash: `1-2-3` becomes `1–2-3`. */
  lemma ChainedRange()
    ensures Substitute(DashEn, "1-2-3") == "1\U{2013}2-3"
  {
    var s := "1-2-3";
    assert DigitEnd(s, 0) == 1 && SpaceRunEnd(s, 1) == 1 && SpaceRunEnd(s, 2) == 2 && DigitEnd(s, 2) == 3;
    assert s[0..1] == "1" && s[2..3] == "2";
    assert "1" + "\U{2013}" + "2" == "1\U{2013}2";
    assert DashEnMatch(s, 0) == Some(Match(3, "1\U{2013}2"));
    assert DigitEnd(s, 4) == 5 && DashEnMatch(s, 4).None?;
    assert Sub(DashEn, s, 4) == "3";
    assert Sub(DashEn, s, 3) == "-3";
    assert Sub(DashEn, s, 0) == "1\U{2013}2" + "-3";
  }

  /** `DASH_EM` runs before `DASH_EN`, so a spaced hyphen becomes an em dash even between numbers: `1 - 2` becomes `1 — 2`. */
  lemma SpacedDash()
    ensures Typography("1 - 2") == "1 \U{2014} 2"
  {
    SpacedDashStrip();
    SpacedDashPadded();
    ApplyRulesInOrder(" 1 - 2 ");
    SpacedDashStep1();
    SpacedDashStep2();
    SpacedDashStep3();
    SpacedDashStep4();
    SpacedDashStep5();
    SpacedDashStep6();
    SpacedDashStep7();
    SpacedDashStep8();
    SpacedDashStep9();
    SpacedDashStep10();
    SpacedDashStep11();
    assert ApplyRules(Rules, " 1 - 2 ") == " 1 \U{2014} 2 ";
    SpacedDashResultStrip();
  }

  lemma SpacedDashPadded()
    ensures " " + "1 - 2" + " " == " 1 - 2 "
  {
  }

  lemma SpacedDashStrip()
    ensures Strip("1 - 2") == "1 - 2"
  {
  }

  lemma SpacedDashStep1()
    ensures Substitute(QuotesReplace, " 1 - 2 ") == " 1 - 2 "
  {
    LiteralIdle(QuotesReplace, " 1 - 2 ");
  }

  lemma SpacedDashStep2()
    ensures Substitute(DashReplace, " 1 - 2 ") == " 1 - 2 "
  {
    DashReplaceIdle(" 1 - 2 ");
  }

  lemma SpacedDashStep3()
    ensures Substitute(SequentialSpaces, " 1 - 2 ") == " 1 - 2 "
  {
    SequentialSpacesIdle(" 1 - 2 ", 0);
  }

  lemma SpacedDashStep4()
    ensures Substitute(DashEm, " 1 - 2 ") == " 1 \U{2014} 2 "
  {
    var s := " 1 - 2 ";
    assert DashEmMatch(s, 2) == Some(Match(3, " \U{2014} "));
    assert Sub(DashEm, s, 6) == " ";
    assert Sub(DashEm, s, 5) == "2 ";
    assert Sub(DashEm, s, 2) == " \U{2014} " + "2 ";
    assert Sub(DashEm, s, 1) == "1" + " \U{2014} " + "2 ";
  }

  lemma SpacedDashStep5()
    ensures Substitute(DashEn, " 1 \U{2014} 2 ") == " 1 \U{2014} 2 "
  {
    forall k | 0 <= k < |" 1 \U{2014} 2 "|
      ensures MatchAt(DashEn, " 1 \U{2014} 2 ", k).None?
    {
    }
    SubWithoutMatches(DashEn, " 1 \U{2014} 2 ", 0);
  }

  lemma SpacedDashStep6()
    ensures Substitute(Hellip, " 1 \U{2014} 2 ") == " 1 \U{2014} 2 "
  {
    LiteralIdle(Hellip, " 1 \U{2014} 2 ");
  }

  lemma SpacedDashStep7()
    ensures Substitute(Copyright, " 1 \U{2014} 2 ") == " 1 \U{2014} 2 "
  {
    LiteralIdle(Copyright, " 1 \U{2014} 2 ");
  }

  lemma SpacedDashStep8()
    ensures Substitute(Trademark, " 1 \U{2014} 2 ") == " 1 \U{2014} 2 "
  {
    LiteralIdle(Trademark, " 1 \U{2014} 2 ");
  }

  lemma SpacedDashStep9()
    ensures Substitute(TrademarkR, " 1 \U{2014} 2 ") == " 1 \U{2014} 2 "
  {
    LiteralIdle(TrademarkR, " 1 \U{2014} 2 ");
  }

  lemma SpacedDashStep10()
    ensures Substitute(QuotesCyrClose, " 1 \U{2014} 2 ") == " 1 \U{2014} 2 "
  {
    forall k | 0 <= k < |" 1 \U{2014} 2 "|
      ensures MatchAt(QuotesCyrClose, " 1 \U{2014} 2 ", k).None?
    {
    }
    SubWithoutMatches(QuotesCyrClose, " 1 \U{2014} 2 ", 0);
  }

  lemma SpacedDashStep11()
    ensures Substitute(QuotesCyrOpen, " 1 \U{2014} 2 ") == " 1 \U{2014} 2 "
  {
    forall k | 0 <= k < |" 1 \U{2014} 2 "|
      ensures MatchAt(QuotesCyrOpen, " 1 \U{2014} 2 ", k).None?
    {
    }
    SubWithoutMatches(QuotesCyrOpen, " 1 \U{2014} 2 ", 0);
  }

  lemma SpacedDashResultStrip()
    ensures Strip(" 1 \U{2014} 2 ") == "1 \U{2014} 2"
  {
    StripOnePad(" 1 \U{2014} 2 ");
    assert " 1 \U{2014} 2 "[1..|" 1 \U{2014} 2 "| - 1] == "1 \U{2014} 2";
  }

  /** `(c)` becomes `©`. */
  lemma CopyrightSign()
    ensures Typography("a(c)b") == "a\U{00A9}b"
  {
    CopyrightSignStrip();
    CopyrightSignPadded();
    ApplyRulesInOrder(" a(c)b ");
    CopyrightSignStep1();
    CopyrightSignStep2();
    CopyrightSignStep3();
    CopyrightSignStep4();
    CopyrightSignStep5();
    CopyrightSignStep6();
    CopyrightSignStep7();
    CopyrightSignStep8();
    CopyrightSignStep9();
    CopyrightSignStep10();
    CopyrightSignStep11();
    assert ApplyRules(Rules, " a(c)b ") == " a\U{00A9}b ";
    CopyrightSignResultStrip();
  }

  lemma CopyrightSignPadded()
    ensures " " + "a(c)b" + " " == " a(c)b "
  {
  }

  lemma CopyrightSignStrip()
    ensures Strip("a(c)b") == "a(c)b"
  {
  }

  lemma CopyrightSignStep1()
    ensures Substitute(QuotesReplace, " a(c)b ") == " a(c)b "
  {
    LiteralIdle(QuotesReplace, " a(c)b ");
  }

  lemma CopyrightSignStep2()
    ensures Substitute(DashReplace, " a(c)b ") == " a(c)b "
  {
    DashReplaceIdle(" a(c)b ");
  }

  lemma CopyrightSignStep3()
    ensures Substitute(SequentialSpaces, " a(c)b ") == " a(c)b "
  {
    SequentialSpacesIdle(" a(c)b ", 0);
  }

  lemma CopyrightSignStep4()
    ensures Substitute(DashEm, " a(c)b ") == " a(c)b "
  {
    forall k | 0 <= k < |" a(c)b "|
      ensures MatchAt(DashEm, " a(c)b ", k).None?
    {
    }
    SubWithoutMatches(DashEm, " a(c)b ", 0);
  }

  lemma CopyrightSignStep5()
    ensures Substitute(DashEn, " a(c)b ") == " a(c)b "
  {
    forall k | 0 <= k < |" a(c)b "|
      ensures MatchAt(DashEn, " a(c)b ", k).None?
    {
    }
    SubWithoutMatches(DashEn, " a(c)b ", 0);
  }

  lemma CopyrightSignStep6()
    ensures Substitute(Hellip, " a(c)b ") == " a(c)b "
  {
    LiteralIdle(Hellip, " a(c)b ");
  }

  lemma CopyrightSignStep7()
    ensures Substitute(Copyright, " a(c)b ") == " a\U{00A9}b "
  {
    var s := " a(c)b ";
    LiteralNoMatchAt(Copyright, s, 0);
    LiteralNoMatchAt(Copyright, s, 1);
    assert MatchAt(Copyright, s, 2) == Some(Match(3, "\U{00A9}"));
    LiteralNoMatchAt(Copyright, s, 5);
    LiteralNoMatchAt(Copyright, s, 6);
  }

  lemma CopyrightSignStep8()
    ensures Substitute(Trademark, " a\U{00A9}b ") == " a\U{00A9}b "
  {
    LiteralIdle(Trademark, " a\U{00A9}b ");
  }

  lemma CopyrightSignStep9()
    ensures Substitute(TrademarkR, " a\U{00A9}b ") == " a\U{00A9}b "
  {
    LiteralIdle(TrademarkR, " a\U{00A9}b ");
  }

  lemma CopyrightSignStep10()
    ensures Substitute(QuotesCyrClose, " a\U{00A9}b ") == " a\U{00A9}b "
  {
    forall k | 0 <= k < |" a\U{00A9}b "|
      ensures MatchAt(QuotesCyrClose, " a\U{00A9}b ", k).None?
    {
    }
    SubWithoutMatches(QuotesCyrClose, " a\U{00A9}b ", 0);
  }

  lemma CopyrightSignStep11()
    ensures Substitute(QuotesCyrOpen, " a\U{00A9}b ") == " a\U{00A9}b "
  {
    forall k | 0 <= k < |" a\U{00A9}b "|
      ensures MatchAt(QuotesCyrOpen, " a\U{00A9}b ", k).None?
    {
    }
    SubWithoutMatches(QuotesCyrOpen, " a\U{00A9}b ", 0);
  }

  lemma CopyrightSignResultStrip()
    ensures Strip(" a\U{00A9}b ") == "a\U{00A9}b"
  {
    StripOnePad(" a\U{00A9}b ");
    assert " a\U{00A9}b "[1..|" a\U{00A9}b "| - 1] == "a\U{00A9}b";
  }


  /**
   * The nine rules before the Russian quotes leave alone a text with no
   * tab, no two adjacent spaces, and none of the characters they start on.
   */
  lemma FirstNineIdle(s: string)
    requires forall k :: 0 <= k < |s| ==>
      && s[k] != '\t' && s[k] != '\'' && s[k] != '.' && s[k] != '('
      && s[k] != '\U{201E}' && s[k] != '\U{201C}' && s[k] != '\U{201D}'
      && !IsDash(s[k]) && !IsDigit(s[k])
    requires forall k :: 0 <= k < |s| - 1 ==> !(s[k] == ' ' && s[k + 1] == ' ')
    ensures Substitute(QuotesReplace, s) == s && Substitute(DashReplace, s) == s
    ensures Substitute(SequentialSpaces, s) == s && Substitute(DashEm, s) == s && Substitute(DashEn, s) == s
    ensures Substitute(Hellip, s) == s && Substitute(Copyright, s) == s
    ensures Substitute(Trademark, s) == s && Substitute(TrademarkR, s) == s
  {
    LiteralIdle(QuotesReplace, s);
    DashReplaceIdle(s);
    SequentialSpacesIdle(s, 0);
    forall k | 0 <= k < |s|
      ensures MatchAt(DashEm, s, k).None? && MatchAt(DashEn, s, k).None?
    {
    }
    SubWithoutMatches(DashEm, s, 0);
    SubWithoutMatches(DashEn, s, 0);
    LiteralIdle(Hellip, s);
    LiteralIdle(Copyright, s);
    LiteralIdle(Trademark, s);
    LiteralIdle(TrademarkR, s);
  }

  /**
   * `apply_to` is not idempotent: in `a"b"c"d` the first pass closes the
   * last `"` and opens the first, and the second pass closes the middle one,
   * because `(\S+)"` backtracks to the last `"` left in the token.
   */
  lemma NotIdempotent()
    ensures Typography("a\"b\"c\"d") == "a\U{00AB}b\"c\U{00BB}d"
    ensures Typography("a\U{00AB}b\"c\U{00BB}d") == "a\U{00AB}b\U{00BB}c\U{00BB}d"
    ensures Typography(Typography("a\"b\"c\"d")) != Typography("a\"b\"c\"d")
  {
    ThreeQuotesOnce();
    ThreeQuotesTwice();
    assert "a\U{00AB}b\U{00BB}c\U{00BB}d"[3] != "a\U{00AB}b\"c\U{00BB}d"[3];
  }

  lemma ThreeQuotesOnce()
    ensures Typography("a\"b\"c\"d") == "a\U{00AB}b\"c\U{00BB}d"
  {
    ThreeQuotesOnceStrip();
    ThreeQuotesOncePadded();
    ApplyRulesInOrder(" a\"b\"c\"d ");
    ThreeQuotesIdle();
    ThreeQuotesClose();
    ThreeQuotesOpen();
    assert ApplyRules(Rules, " a\"b\"c\"d ") == " a\U{00AB}b\"c\U{00BB}d ";
    ThreeQuotesOnceResultStrip();
  }

  lemma ThreeQuotesOncePadded()
    ensures " " + "a\"b\"c\"d" + " " == " a\"b\"c\"d "
  {
  }

  lemma ThreeQuotesOnceStrip()
    ensures Strip("a\"b\"c\"d") == "a\"b\"c\"d"
  {
  }

  lemma ThreeQuotesOnceResultStrip()
    ensures Strip(" a\U{00AB}b\"c\U{00BB}d ") == "a\U{00AB}b\"c\U{00BB}d"
  {
    StripOnePad(" a\U{00AB}b\"c\U{00BB}d ");
    assert " a\U{00AB}b\"c\U{00BB}d "[1..|" a\U{00AB}b\"c\U{00BB}d "| - 1] == "a\U{00AB}b\"c\U{00BB}d";
  }

  lemma ThreeQuotesIdle()
    ensures var s := " a\"b\"c\"d ";
      && Substitute(QuotesReplace, s) == s && Substitute(DashReplace, s) == s
      && Substitute(SequentialSpaces, s) == s && Substitute(DashEm, s) == s && Substitute(DashEn, s) == s
      && Substitute(Hellip, s) == s && Substitute(Copyright, s) == s
      && Substitute(Trademark, s) == s && Substitute(TrademarkR, s) == s
  {
    FirstNineIdle(" a\"b\"c\"d ");
  }

  lemma ThreeQuotesClose()
    ensures Substitute(QuotesCyrClose, " a\"b\"c\"d ") == " a\"b\"c\U{00BB}d "
  {
    var s := " a\"b\"c\"d ";
    assert TokenEnd(s, 1) == 8 && LastQuote(s, 2, 8) == Some(6);
    assert s[1..6] == "a\"b\"c";
    assert QuotesCyrCloseMatch(s, 1) == Some(Match(6, "a\"b\"c" + "\U{00BB}"));
    assert TokenEnd(s, 7) == 8 && LastQuote(s, 8, 8) == None;
    assert Sub(QuotesCyrClose, s, 8) == " ";
    assert Sub(QuotesCyrClose, s, 7) == "d ";
    assert Sub(QuotesCyrClose, s, 1) == "a\"b\"c" + "\U{00BB}" + "d ";
  }

  lemma ThreeQuotesOpen()
    ensures Substitute(QuotesCyrOpen, " a\"b\"c\U{00BB}d ") == " a\U{00AB}b\"c\U{00BB}d "
  {
    var s := " a\"b\"c\U{00BB}d ";
    assert QuotesCyrOpenMatch(s, 0) == None && QuotesCyrOpenMatch(s, 1) == None;
    assert TokenEnd(s, 3) == 8 && s[3..8] == "b\"c\U{00BB}d";
    assert QuotesCyrOpenMatch(s, 2) == Some(Match(6, "\U{00AB}" + "b\"c\U{00BB}d"));
    assert Sub(QuotesCyrOpen, s, 8) == " ";
    assert Sub(QuotesCyrOpen, s, 2) == "\U{00AB}" + "b\"c\U{00BB}d" + " ";
  }

  lemma ThreeQuotesTwice()
    ensures Typography("a\U{00AB}b\"c\U{00BB}d") == "a\U{00AB}b\U{00BB}c\U{00BB}d"
  {
    ThreeQuotesTwiceStrip();
    ThreeQuotesTwicePadded();
    ApplyRulesInOrder(" a\U{00AB}b\"c\U{00BB}d ");
    ThreeQuotesIdleAgain();
    ThreeQuotesCloseAgain();
    ThreeQuotesOpenAgain();
    assert ApplyRules(Rules, " a\U{00AB}b\"c\U{00BB}d ") == " a\U{00AB}b\U{00BB}c\U{00BB}d ";
    ThreeQuotesTwiceResultStrip();
  }

  lemma ThreeQuotesTwicePadded()
    ensures " " + "a\U{00AB}b\"c\U{00BB}d" + " " == " a\U{00AB}b\"c\U{00BB}d "
  {
  }

  lemma ThreeQuotesTwiceStrip()
    ensures Strip("a\U{00AB}b\"c\U{00BB}d") == "a\U{00AB}b\"c\U{00BB}d"
  {
  }

  lemma ThreeQuotesTwiceResultStrip()
    ensures Strip(" a\U{00AB}b\U{00BB}c\U{00BB}d ") == "a\U{00AB}b\U{00BB}c\U{00BB}d"
  {
    StripOnePad(" a\U{00AB}b\U{00BB}c\U{00BB}d ");
    assert " a\U{00AB}b\U{00BB}c\U{00BB}d "[1..|" a\U{00AB}b\U{00BB}c\U{00BB}d "| - 1] == "a\U{00AB}b\U{00BB}c\U{00BB}d";
  }

  lemma ThreeQuotesIdleAgain()
    ensures var s := " a\U{00AB}b\"c\U{00BB}d ";
      && Substitute(QuotesReplace, s) == s && Substitute(DashReplace, s) == s
      && Substitute(SequentialSpaces, s) == s && Substitute(DashEm, s) == s && Substitute(DashEn, s) == s
      && Substitute(Hellip, s) == s && Substitute(Copyright, s) == s
      && Substitute(Trademark, s) == s && Substitute(TrademarkR, s) == s
  {
    FirstNineIdle(" a\U{00AB}b\"c\U{00BB}d ");
  }

  lemma ThreeQuotesCloseAgain()
    ensures Substitute(QuotesCyrClose, " a\U{00AB}b\"c\U{00BB}d ") == " a\U{00AB}b\U{00BB}c\U{00BB}d "
  {
    var s := " a\U{00AB}b\"c\U{00BB}d ";
    ThreeQuotesTokenAgain();
    assert s[1..4] == "a\U{00AB}b";
    assert QuotesCyrCloseMatch(s, 1) == Some(Match(4, "a\U{00AB}b" + "\U{00BB}"));
    assert Sub(QuotesCyrClose, s, 8) == " ";
    assert Sub(QuotesCyrClose, s, 5) == "c\U{00BB}d ";
    assert Sub(QuotesCyrClose, s, 1) == "a\U{00AB}b" + "\U{00BB}" + "c\U{00BB}d ";
  }

  lemma ThreeQuotesTokenAgain()
    ensures var s := " a\U{00AB}b\"c\U{00BB}d ";
      && TokenEnd(s, 1) == 8 && LastQuote(s, 2, 8) == Some(4)
      && TokenEnd(s, 5) == 8 && LastQuote(s, 6, 8) == None
      && TokenEnd(s, 6) == 8 && LastQuote(s, 7, 8) == None
      && TokenEnd(s, 7) == 8 && LastQuote(s, 8, 8) == None
  {
  }

  lemma ThreeQuotesOpenAgain()
    ensures Substitute(QuotesCyrOpen, " a\U{00AB}b\U{00BB}c\U{00BB}d ") == " a\U{00AB}b\U{00BB}c\U{00BB}d "
  {
    var s := " a\U{00AB}b\U{00BB}c\U{00BB}d ";
    forall k | 0 <= k < |s|
      ensures MatchAt(QuotesCyrOpen, s, k).None?
    {
    }
    SubWithoutMatches(QuotesCyrOpen, s, 0);
  }
}
