/**
 * `format_currency(val)` (apps/utils.py:35-42): the decimal digits of the
 * amount, grouped in threes from the right and separated by single spaces.
 * The source reverses `str(int(val))`, cuts it into lines of width 3 with
 * `textwrap.wrap`, joins them with spaces and reverses the result.
 */
module Currency {
  import opened Text

  /** `s[::-1]`. */
  function Reverse(s: seq<char>): (r: seq<char>)
    ensures |r| == |s|
    ensures forall k :: 0 <= k < |s| ==> r[k] == s[|s| - 1 - k]
  {
    if s == [] then [] else Reverse(s[1..]) + [s[0]]
  }

  /**
   * `textwrap.wrap(s, 3)` for a string without whitespace: the word is longer
   * than the width, so it is broken into consecutive pieces of three
   * characters, the last piece holding what remains.
   */
  function Wrap3(s: seq<char>): (lines: seq<seq<char>>)
    ensures forall k :: 0 <= k < |lines| ==> 1 <= |lines[k]| <= 3
  {
    if s == [] then [] else if |s| <= 3 then [s] else [s[..3]] + Wrap3(s[3..])
  }

  /** `' '.join(parts)`. */
  function JoinSpaces(parts: seq<seq<char>>): seq<char>
  {
    if parts == [] then [] else if |parts| == 1 then parts[0] else parts[0] + " " + JoinSpaces(parts[1..])
  }

  /** The source expression, on a non-negative amount. */
  function FormatCurrency(n: nat): seq<char>
  {
    Reverse(JoinSpaces(Wrap3(Reverse(DecimalString(n)))))
  }

  /** Reference grouping: the digits cut into threes counted from the right. */
  function GroupsFromRight(d: seq<char>): seq<seq<char>>
  {
    if |d| <= 3 then [d] else GroupsFromRight(d[..|d| - 3]) + [d[|d| - 3..]]
  }

  /**
   * Shape of the grouping of a non-empty string: the leftmost group has one to
   * three characters, every other group exactly three, and together they spell `d`.
   */
  lemma {:induction false} GroupsFromRightShape(d: seq<char>)
    requires d != []
    ensures var gs := GroupsFromRight(d);
      && |gs| >= 1 && 1 <= |gs[0]| <= 3
      && (forall k :: 1 <= k < |gs| ==> |gs[k]| == 3)
      && JoinSpaces(gs) == Interleave(gs)
      && Concat(gs) == d
  {
    if |d| > 3 {
      var a, b := d[..|d| - 3], d[|d| - 3..];
      GroupsFromRightShape(a);
      JoinAppend(GroupsFromRight(a), b);
      ConcatAppend(GroupsFromRight(a), b);
      assert a + b == d;
    }
  }

  /** Concatenation of the groups, without separators. */
  function Concat(gs: seq<seq<char>>): seq<char>
  {
    if gs == [] then [] else Concat(gs[..|gs| - 1]) + gs[|gs| - 1]
  }

  /** The groups separated by single spaces, built from the right. */
  function Interleave(gs: seq<seq<char>>): seq<char>
  {
    if gs == [] then [] else if |gs| == 1 then gs[0] else Interleave(gs[..|gs| - 1]) + " " + gs[|gs| - 1]
  }

  lemma {:induction false} ConcatAppend(gs: seq<seq<char>>, g: seq<char>)
    ensures Concat(gs + [g]) == Concat(gs) + g
  {
    assert (gs + [g])[..|gs|] == gs;
  }

  /** Joining with a separator agrees with building the same text from the right. */
  lemma {:induction false} JoinAppend(gs: seq<seq<char>>, g: seq<char>)
    requires gs != []
    ensures JoinSpaces(gs + [g]) == JoinSpaces(gs) + " " + g
    ensures JoinSpaces(gs) == Interleave(gs)
  {
    if |gs| == 1 {
      assert gs + [g] == [gs[0], g];
    } else {
      JoinAppend(gs[1..], g);
      assert (gs + [g])[1..] == gs[1..] + [g];
      JoinAppend(gs[..|gs| - 1], gs[|gs| - 1]);
      assert gs[..|gs| - 1] + [gs[|gs| - 1]] == gs;
    }
  }

  lemma ReverseAppend(a: seq<char>, b: seq<char>)
    ensures Reverse(a + b) == Reverse(b) + Reverse(a)
  {
  }

  lemma ReverseReverse(a: seq<char>)
    ensures Reverse(Reverse(a)) == a
  {
  }

  /**
   * The reverse/wrap/join/reverse expression of the source is the grouping in
   * threes from the right, joined with single spaces.
   */
  lemma {:induction false} ReversedWrapIsGroupsFromRight(d: seq<char>)
    requires d != []
    ensures Reverse(JoinSpaces(Wrap3(Reverse(d)))) == JoinSpaces(GroupsFromRight(d))
  {
    if |d| <= 3 {
      ReverseReverse(d);
    } else {
      var a, b := d[..|d| - 3], d[|d| - 3..];
      WrapOfReversed(d);
      ReverseAround(Reverse(b), JoinSpaces(Wrap3(Reverse(a))));
      ReverseReverse(b);
      ReversedWrapIsGroupsFromRight(a);
      JoinAppend(GroupsFromRight(a), b);
      assert GroupsFromRight(d) == GroupsFromRight(a) + [b];
    }
  }

  /** The first line of the wrapped reversal is the reversal of the last three digits. */
  lemma WrapOfReversed(d: seq<char>)
    requires |d| > 3
    ensures JoinSpaces(Wrap3(Reverse(d))) == Reverse(d[|d| - 3..]) + " " + JoinSpaces(Wrap3(Reverse(d[..|d| - 3])))
  {
    var a, b := d[..|d| - 3], d[|d| - 3..];
    assert d == a + b;
    ReverseAppend(a, b);
    var rb, ra := Reverse(b), Reverse(a);
    assert Reverse(d)[..3] == rb && Reverse(d)[3..] == ra;
    assert Wrap3(Reverse(d)) == [rb] + Wrap3(ra);
    assert Wrap3(ra) != [];
    assert ([rb] + Wrap3(ra))[1..] == Wrap3(ra);
  }

  lemma ReverseAround(x: seq<char>, y: seq<char>)
    ensures Reverse(x + " " + y) == Reverse(y) + " " + Reverse(x)
  {
    ReverseAppend(x + " ", y);
    ReverseAppend(x, " ");
  }

  /** All characters of `s` except spaces. */
  function RemoveSpaces(s: seq<char>): seq<char>
  {
    if s == [] then [] else RemoveSpaces(s[..|s| - 1]) + (if s[|s| - 1] == ' ' then [] else [s[|s| - 1]])
  }

  lemma {:induction false} RemoveSpacesAppend(a: seq<char>, b: seq<char>)
    ensures RemoveSpaces(a + b) == RemoveSpaces(a) + RemoveSpaces(b)
  {
    if b != [] {
      RemoveSpacesAppend(a, b[..|b| - 1]);
      assert (a + b)[..|a + b| - 1] == a + b[..|b| - 1];
    } else {
      assert a + b == a;
    }
  }

  lemma {:induction false} RemoveSpacesInterleave(gs: seq<seq<char>>)
    requires forall k :: 0 <= k < |gs| ==> ' ' !in gs[k]
    ensures RemoveSpaces(Interleave(gs)) == Concat(gs)
  {
    if gs != [] {
      var last := gs[|gs| - 1];
      NoSpaceFixed(last);
      if |gs| == 1 {
        assert Concat(gs) == Concat([]) + last;
      } else {
        RemoveSpacesInterleave(gs[..|gs| - 1]);
        RemoveSpacesAppend(Interleave(gs[..|gs| - 1]) + " ", last);
        RemoveSpacesAppend(Interleave(gs[..|gs| - 1]), " ");
        assert RemoveSpaces(" ") == [] by { assert " "[..0] == []; }
      }
    }
  }

  lemma {:induction false} NoSpaceFixed(s: seq<char>)
    requires ' ' !in s
    ensures RemoveSpaces(s) == s
  {
    if s != [] {
      NoSpaceFixed(s[..|s| - 1]);
    }
  }

  /**
   * `format_currency(n)` is `str(n)` cut into groups of three digits from the
   * right: the leftmost group has one to three digits, every other group exactly
   * three, and the groups are separated by single spaces.
   */
  lemma FormatCurrencyGroups(n: nat)
    ensures var gs := GroupsFromRight(DecimalString(n));
      && FormatCurrency(n) == JoinSpaces(gs)
      && 1 <= |gs[0]| <= 3
      && (forall k :: 1 <= k < |gs| ==> |gs[k]| == 3)
      && Concat(gs) == DecimalString(n)
  {
    ReversedWrapIsGroupsFromRight(DecimalString(n));
    GroupsFromRightShape(DecimalString(n));
  }

  /** Deleting the spaces of `format_currency(n)` gives back `str(n)`. */
  lemma FormatCurrencyDigits(n: nat)
    ensures RemoveSpaces(FormatCurrency(n)) == DecimalString(n)
  {
    var d := DecimalString(n);
    var gs := GroupsFromRight(d);
    FormatCurrencyGroups(n);
    GroupsFromRightShape(d);
    forall k | 0 <= k < |gs| ensures ' ' !in gs[k] {
      GroupsAreSlices(d, k);
    }
    RemoveSpacesInterleave(gs);
  }

  /** Every group is a piece of the digit string, so it holds no space. */
  lemma {:induction false} GroupsAreSlices(d: seq<char>, k: nat)
    requires forall i :: 0 <= i < |d| ==> IsDigit(d[i])
    requires k < |GroupsFromRight(d)|
    ensures forall i :: 0 <= i < |GroupsFromRight(d)[k]| ==> IsDigit(GroupsFromRight(d)[k][i])
  {
    if |d| > 3 && k < |GroupsFromRight(d)| - 1 {
      GroupsAreSlices(d[..|d| - 3], k);
    }
  }

  /** The example of the source's behaviour: 1234567 is shown as "1 234 567". */
  lemma FormatCurrencyExample()
    ensures FormatCurrency(1234567) == "1 234 567"
  {
    DecimalExample();
    ReverseExample();
    WrapExample();
    JoinExample();
  }

  lemma JoinExample()
    ensures JoinSpaces(["765", "432", "1"]) == "765 432 1"
  {
    var parts: seq<seq<char>> := ["765", "432", "1"];
    assert parts[1..] == ["432", "1"] && parts[1..][1..] == ["1"];
    assert JoinSpaces(["1"]) == "1";
    assert JoinSpaces(["432", "1"]) == "432" + " " + "1";
  }

  lemma ReverseExample()
    ensures Reverse("1234567") == "7654321"
    ensures Reverse("765 432 1") == "1 234 567"
  {
    ReverseLiteral("1234567", "7654321");
    ReverseLiteral("765 432 1", "1 234 567");
  }

  /** A reversal checked character by character. */
  lemma ReverseLiteral(s: seq<char>, t: seq<char>)
    requires |s| == |t| && forall k :: 0 <= k < |s| ==> t[k] == s[|s| - 1 - k]
    ensures Reverse(s) == t
  {
  }

  lemma DecimalExample()
    ensures DecimalString(1234567) == "1234567"
  {
    assert DecimalString(1) == "1";
    DecimalStep(12, "1", '2');
    DecimalStep(123, "12", '3');
    DecimalStep(1234, "123", '4');
    DecimalStep(12345, "1234", '5');
    DecimalStep(123456, "12345", '6');
    DecimalStep(1234567, "123456", '7');
  }

  lemma DecimalStep(n: nat, init: seq<char>, last: char)
    requires n >= 10 && DecimalString(n / 10) == init && DigitChar(n % 10) == last
    ensures DecimalString(n) == init + [last]
  {
  }

  lemma WrapExample()
    ensures Wrap3("7654321") == ["765", "432", "1"]
  {
    assert "7654321"[..3] == "765" && "7654321"[3..] == "4321";
    assert "4321"[..3] == "432" && "4321"[3..] == "1";
    assert Wrap3("1") == ["1"];
    assert Wrap3("4321") == ["432"] + Wrap3("1");
  }
}
