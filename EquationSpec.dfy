/** The meaning of an equation as values: each side is a sequence of
    formulas, each formula a sequence of terms. The functions here describe
    how equation text is split into sides and formulas, how the side parser
    with coefficients rewrites a segment, what balance means and how an
    equation is displayed; the lemmas state what those operations promise. */
module EquationSpec {
  import opened Text
  import opened Terms
  import opened FormulaSpec

  type Side = seq<seq<Term>>

  // ---------------------------------------------------------------------------
  // Sides as term lists

  /** Every formula of the side, one after the other, as one term list. */
  function Flatten(side: Side): seq<Term>
  {
    if side == [] then [] else Flatten(side[..|side| - 1]) + side[|side| - 1]
  }

  /** The total number of atoms of e over all formulas of the side. */
  function SideCount(side: Side, e: char): nat
  {
    if side == [] then 0 else SideCount(side[..|side| - 1], e) + Count(side[|side| - 1], e)
  }

  /** A side as the parser of legal text builds it: at least one formula, and
      every formula has at least one term, each with an upper-case element. */
  predicate WellFormedSide(side: Side) {
    |side| >= 1 && forall k :: 0 <= k < |side| ==> |side[k]| >= 1 && UpperElements(side[k])
  }

  /** Whether the equation is balanced: the two sides, each taken as one
      formula, are isomers. */
  ghost predicate Balanced(lhs: Side, rhs: Side) {
    SameAtoms(Flatten(lhs), Flatten(rhs))
  }

  /** The displays of all formulas of the side, one after the other. */
  function DisplayAll(side: Side): string
  {
    if side == [] then [] else DisplayAll(side[..|side| - 1]) + DisplayTerms(side[|side| - 1])
  }

  /** Counting over the flattened side adds up the counts of its formulas. */
  lemma {:induction false} CountFlatten(side: Side, e: char)
    ensures Count(Flatten(side), e) == SideCount(side, e)
  {
    if side != [] {
      var init := side[..|side| - 1];
      CountFlatten(init, e);
      CountConcat(Flatten(init), side[|side| - 1], e);
    }
  }

  /** The concatenated displays are the display of the flattened side. */
  lemma {:induction false} DisplayAllFlatten(side: Side)
    ensures DisplayAll(side) == DisplayTerms(Flatten(side))
  {
    if side != [] {
      var init := side[..|side| - 1];
      DisplayAllFlatten(init);
      DisplayConcat(Flatten(init), side[|side| - 1]);
    }
  }

  /** The flattened side of a well-formed side is legal: not empty, and with
      upper-case elements only. */
  lemma {:induction false} FlattenWellFormed(side: Side)
    requires WellFormedSide(side)
    ensures |Flatten(side)| >= 1 && UpperElements(Flatten(side))
  {
    var init, last := side[..|side| - 1], side[|side| - 1];
    assert |last| >= 1 && UpperElements(last);
    var f, fi := Flatten(side), Flatten(init);
    if |side| > 1 {
      assert WellFormedSide(init) by {
        forall k | 0 <= k < |init| ensures |init[k]| >= 1 && UpperElements(init[k]) {
          assert init[k] == side[k];
        }
      }
      FlattenWellFormed(init);
    } else {
      assert init == [];
    }
    forall i | 0 <= i < |f| ensures IsUpper(f[i].element) {
      if i < |fi| {
        assert f[i] == fi[i];
      } else {
        assert f[|fi| + (i - |fi|)] == last[i - |fi|];
      }
    }
  }

  /** Every element has the same total count on both sides. */
  ghost predicate SameTotals(lhs: Side, rhs: Side) {
    forall e :: SideCount(lhs, e) == SideCount(rhs, e)
  }

  /** With positive counts an element is present exactly when its count is
      non-zero, so a balanced equation is one whose two sides hold the same
      total count of every element. */
  lemma BalancedCounts(lhs: Side, rhs: Side)
    requires PositiveCounts(Flatten(lhs)) && PositiveCounts(Flatten(rhs))
    ensures Balanced(lhs, rhs) <==> SameTotals(lhs, rhs)
  {
    var a, b := Flatten(lhs), Flatten(rhs);
    forall e ensures Count(a, e) == SideCount(lhs, e) && Count(b, e) == SideCount(rhs, e) {
      CountFlatten(lhs, e);
      CountFlatten(rhs, e);
    }
    if SameTotals(lhs, rhs) {
      assert SameCounts(a, b);
      SameAtomsPositive(a, b);
    }
  }

  /** H2 + O2 = H2O is not balanced: the left has two atoms of O, the right one. */
  lemma UnbalancedExample()
    ensures !Balanced([[Term('H', 2)], [Term('O', 2)]], [[Term('H', 2), Term('O', 1)]])
  {
    var lhs, rhs := [[Term('H', 2)], [Term('O', 2)]], [[Term('H', 2), Term('O', 1)]];
    assert lhs[..1] == [[Term('H', 2)]];
    assert Flatten(lhs) == [Term('H', 2), Term('O', 2)];
    assert Flatten(rhs) == [Term('H', 2), Term('O', 1)];
    CountFlatten(lhs, 'O');
    CountFlatten(rhs, 'O');
    assert Count(Flatten(lhs), 'O') == 2;
  }

  /** H2 + H2 = H4 is balanced. */
  lemma BalancedExample()
    ensures Balanced([[Term('H', 2)], [Term('H', 2)]], [[Term('H', 4)]])
  {
    var lhs, rhs := [[Term('H', 2)], [Term('H', 2)]], [[Term('H', 4)]];
    assert lhs[..1] == [[Term('H', 2)]];
    assert Flatten(lhs) == [Term('H', 2), Term('H', 2)];
    assert Flatten(rhs) == [Term('H', 4)];
    forall e ensures Count(Flatten(lhs), e) == Count(Flatten(rhs), e) {
      assert Flatten(lhs)[..1] == [Term('H', 2)];
    }
    assert ElementSeq(Flatten(lhs)) == "HH";
    assert Elements(Flatten(lhs)) == {'H'};
  }

  /** The displays of a well-formed side, concatenated, are legal formula
      text that parses back to the flattened side. */
  lemma DisplayAllParses(side: Side)
    requires WellFormedSide(side)
    ensures IsFormulaText(DisplayAll(side)) && Tokenise(DisplayAll(side)) == Flatten(side)
  {
    DisplayAllFlatten(side);
    FlattenWellFormed(side);
    DisplayRoundTrip(Flatten(side));
  }

  /** The balance test of an equation: each side's displays are concatenated
      and parsed as one formula, and the displays of the two standardised
      formulas are equal exactly when the equation is balanced. */
  lemma BalanceByDisplay(lhs: Side, rhs: Side)
    requires WellFormedSide(lhs) && WellFormedSide(rhs)
    ensures IsFormulaText(DisplayAll(lhs)) && IsFormulaText(DisplayAll(rhs))
    ensures (DisplayTerms(Standardised(Tokenise(DisplayAll(lhs)))) ==
             DisplayTerms(Standardised(Tokenise(DisplayAll(rhs))))) <==> Balanced(lhs, rhs)
  {
    DisplayAllParses(lhs);
    DisplayAllParses(rhs);
    FlattenWellFormed(lhs);
    FlattenWellFormed(rhs);
    IsomerIff(Flatten(lhs), Flatten(rhs));
  }

  // ---------------------------------------------------------------------------
  // Equation text, as the constructor splits it

  /** Whitespace-free side text that the constructor accepts: formula texts
      separated by single pluses. */
  predicate ValidPlainSide(t: string) {
    forall k :: 0 <= k < |SplitOn(t, '+')| ==> IsFormulaText(SplitOn(t, '+')[k])
  }

  /** The formulas of a whitespace-free side text, one per '+'-separated segment. */
  function SideTerms(t: string): (r: Side)
    requires ValidPlainSide(t)
  {
    var segs := SplitOn(t, '+');
    seq(|segs|, k requires 0 <= k < |segs| => Tokenise(segs[k]))
  }

  /** Legal equation text: exactly one '=', and each side, once its whitespace
      is removed, legal side text. */
  predicate ValidEquationText(s: string) {
    var parts := SplitOn(s, '=');
    |parts| == 2 && ValidPlainSide(StripWhitespace(parts[0])) && ValidPlainSide(StripWhitespace(parts[1]))
  }

  function LeftText(s: string): string
    requires ValidEquationText(s)
  {
    StripWhitespace(SplitOn(s, '=')[0])
  }

  function RightText(s: string): string
    requires ValidEquationText(s)
  {
    StripWhitespace(SplitOn(s, '=')[1])
  }

  /** A side has one formula more than it has pluses. */
  lemma SideTermsCount(t: string)
    requires ValidPlainSide(t)
    ensures |SideTerms(t)| == multiset(t)['+'] + 1
  {
    SplitCount(t, '+');
  }

  /** The formulas of legal side text are well formed. */
  lemma SideTermsWellFormed(t: string)
    requires ValidPlainSide(t)
    ensures WellFormedSide(SideTerms(t))
  {
    var r := SideTerms(t);
    forall k | 0 <= k < |r| ensures |r[k]| >= 1 && UpperElements(r[k]) {
      TokeniseWellFormed(SplitOn(t, '+')[k]);
    }
  }

  /** The constructor's left-to-right scan of side text meets the formulas of
      SideTerms in order: at a '+' it has just passed formula number n, whose
      text is t[lo..i]. */
  lemma SideCut(t: string, lo: nat, i: nat, n: nat)
    requires ValidPlainSide(t) && SplitCursor(t, '+', lo, i, n) && i < |t| && t[i] == '+'
    ensures IsFormulaText(t[lo..i]) && n + 1 < |SideTerms(t)| && SideTerms(t)[n] == Tokenise(t[lo..i])
    ensures SplitCursor(t, '+', i + 1, i + 1, n + 1)
  {
    CursorCut(t, '+', lo, i, n);
  }

  /** At the end of side text the scan has reached the last formula, whose
      text is t[lo..]. */
  lemma SideEnd(t: string, lo: nat, n: nat)
    requires ValidPlainSide(t) && SplitCursor(t, '+', lo, |t|, n)
    ensures IsFormulaText(t[lo..]) && n + 1 == |SideTerms(t)| && SideTerms(t)[n] == Tokenise(t[lo..])
  {
    CursorEnd(t, '+', lo, n);
  }

  // ---------------------------------------------------------------------------
  // Display of an equation

  function Displays(side: Side): (r: seq<string>)
  {
    seq(|side|, k requires 0 <= k < |side| => DisplayTerms(side[k]))
  }

  /** A side as text: the displays of its formulas joined by " + ". */
  function SideText(side: Side): string
  {
    Join(Displays(side), " + ")
  }

  /** An equation as text: the two sides joined by " = ". */
  function EquationText(lhs: Side, rhs: Side): string
  {
    SideText(lhs) + " = " + SideText(rhs)
  }

  /** The text of the unbalanced example is "H2 + O2 = H2O". */
  lemma UnbalancedText()
    ensures EquationText([[Term('H', 2)], [Term('O', 2)]], [[Term('H', 2), Term('O', 1)]]) == "H2 + O2 = H2O"
  {
    var l, r := [[Term('H', 2)], [Term('O', 2)]], [[Term('H', 2), Term('O', 1)]];
    TermTextExamples();
    assert [Term('H', 2), Term('O', 1)][..1] == [Term('H', 2)];
    var dl, dr := Displays(l), Displays(r);
    assert dl[0] == "H2" && dl[1] == "O2" && dr[0] == "H2O";
    assert dl[..1] == ["H2"];
    assert SideText(l) == "H2 + O2" && SideText(r) == "H2O";
  }

  /** The text of the balanced example is "H2 + H2 = H4". */
  lemma BalancedText()
    ensures EquationText([[Term('H', 2)], [Term('H', 2)]], [[Term('H', 4)]]) == "H2 + H2 = H4"
  {
    var l, r := [[Term('H', 2)], [Term('H', 2)]], [[Term('H', 4)]];
    TermTextExamples();
    var dl, dr := Displays(l), Displays(r);
    assert dl[0] == "H2" && dl[1] == "H2" && dr[0] == "H4";
    assert dl[..1] == ["H2"];
    assert SideText(l) == "H2 + H2" && SideText(r) == "H4";
  }

  /** "H2 + O2 = H2O" is legal equation text whose sides are not balanced. */
  lemma UnbalancedParse(s: string)
    requires s == "H2 + O2 = H2O"
    ensures ValidEquationText(s) && !Balanced(SideTerms(LeftText(s)), SideTerms(RightText(s)))
  {
    var lhs, rhs := [[Term('H', 2)], [Term('O', 2)]], [[Term('H', 2), Term('O', 1)]];
    UnbalancedText();
    EquationDisplayRoundTrip(lhs, rhs);
    UnbalancedExample();
  }

  /** "H2 + H2 = H4" is legal equation text whose sides are balanced. */
  lemma BalancedParse(s: string)
    requires s == "H2 + H2 = H4"
    ensures ValidEquationText(s) && Balanced(SideTerms(LeftText(s)), SideTerms(RightText(s)))
  {
    var lhs, rhs := [[Term('H', 2)], [Term('H', 2)]], [[Term('H', 4)]];
    BalancedText();
    EquationDisplayRoundTrip(lhs, rhs);
    BalancedExample();
  }

  /** The display of every formula of a well-formed side is legal formula text
      that reads back as the formula. */
  lemma DisplaysFormulaText(side: Side)
    requires WellFormedSide(side)
    ensures forall k :: 0 <= k < |side| ==>
      IsFormulaText(Displays(side)[k]) && Tokenise(Displays(side)[k]) == side[k]
  {
    forall k | 0 <= k < |side|
      ensures IsFormulaText(Displays(side)[k]) && Tokenise(Displays(side)[k]) == side[k]
    {
      DisplayRoundTrip(side[k]);
    }
  }

  /** The characters of the displays of a well-formed side are letters and digits. */
  lemma DisplaysChars(side: Side)
    requires WellFormedSide(side)
    ensures forall k, i :: 0 <= k < |side| && 0 <= i < |Displays(side)[k]| ==>
      FormulaChar(Displays(side)[k][i])
  {
    DisplaysFormulaText(side);
  }

  /** The text of a well-formed side has no '='. */
  lemma SideTextNoEquals(side: Side)
    requires WellFormedSide(side)
    ensures '=' !in SideText(side)
  {
    DisplaysChars(side);
    var ok := (c: char) => FormulaChar(c) || c == ' ' || c == '+';
    JoinAlphabet(Displays(side), " + ", ok);
  }

  lemma DisplaysNoPlus(side: Side)
    requires WellFormedSide(side)
    ensures forall k :: 0 <= k < |side| ==> '+' !in Displays(side)[k]
  {
    DisplaysChars(side);
  }

  /** Splitting the displays of a well-formed side, joined by pluses, gives
      the side back. */
  lemma PlainSideOfDisplays(side: Side)
    requires WellFormedSide(side)
    ensures ValidPlainSide(Join(Displays(side), "+"))
    ensures SideTerms(Join(Displays(side), "+")) == side
  {
    DisplaysNoPlus(side);
    SplitJoin(Displays(side), '+');
    DisplaysFormulaText(side);
  }

  /** Removing whitespace from the text of a well-formed side and splitting it
      at the pluses gives the side back. */
  lemma SideRoundTrip(side: Side)
    requires WellFormedSide(side)
    ensures ValidPlainSide(StripWhitespace(SideText(side)))
    ensures SideTerms(StripWhitespace(SideText(side))) == side
  {
    DisplaysChars(side);
    StripJoin(Displays(side));
    PlainSideOfDisplays(side);
  }

  lemma StripPadded(a: string)
    ensures StripWhitespace(a + " ") == StripWhitespace(a)
    ensures StripWhitespace(" " + a) == StripWhitespace(a)
  {
    StripConcat(a, " ");
    StripConcat(" ", a);
    assert StripWhitespace(" ") == [];
  }

  /** The text of an equation splits at its single '=' into the padded texts
      of its two sides. */
  lemma EquationSplit(lhs: Side, rhs: Side)
    requires WellFormedSide(lhs) && WellFormedSide(rhs)
    ensures SplitOn(EquationText(lhs, rhs), '=') == [SideText(lhs) + " ", " " + SideText(rhs)]
  {
    var a, b := SideText(lhs) + " ", " " + SideText(rhs);
    SideTextNoEquals(lhs);
    SideTextNoEquals(rhs);
    assert EquationText(lhs, rhs) == a + ['='] + b;
    SplitAround(a, b, '=');
    assert '=' !in a && '=' !in b;
    SplitNoSeparator(a, '=');
    SplitNoSeparator(b, '=');
  }

  /** Reading back the display of an equation with well-formed sides gives
      the same two sides: Display and the string constructor are inverse. */
  lemma EquationDisplayRoundTrip(lhs: Side, rhs: Side)
    requires WellFormedSide(lhs) && WellFormedSide(rhs)
    ensures ValidEquationText(EquationText(lhs, rhs))
    ensures SideTerms(LeftText(EquationText(lhs, rhs))) == lhs
    ensures SideTerms(RightText(EquationText(lhs, rhs))) == rhs
  {
    EquationSplit(lhs, rhs);
    StripPadded(SideText(lhs));
    StripPadded(SideText(rhs));
    SideRoundTrip(lhs);
    SideRoundTrip(rhs);
  }

  // ---------------------------------------------------------------------------
  // Searching for a character

  /** The indices of s holding x, in ascending order. */
  function Occurrences(s: string, x: char): seq<int>
  {
    if s == [] then []
    else Occurrences(s[..|s| - 1], x) + (if s[|s| - 1] == x then [|s| - 1] else [])
  }

  /** Occurrences lists exactly the indices holding x, each once, ascending. */
  lemma {:induction false} OccurrencesSpec(s: string, x: char)
    ensures forall i :: i in Occurrences(s, x) <==> 0 <= i < |s| && s[i] == x
    ensures forall a, b :: 0 <= a < b < |Occurrences(s, x)| ==>
      Occurrences(s, x)[a] < Occurrences(s, x)[b]
  {
    if s != [] {
      var init, n := s[..|s| - 1], |s| - 1;
      OccurrencesSpec(init, x);
      var o, oi := Occurrences(s, x), Occurrences(init, x);
      var tail := if s[n] == x then [n] else [];
      assert o == oi + tail;
      forall i ensures i in o <==> 0 <= i < |s| && s[i] == x {
        assert i in o <==> i in oi || i in tail;
        if 0 <= i < n {
          assert init[i] == s[i];
        }
      }
      forall a, b | 0 <= a < b < |o| ensures o[a] < o[b] {
        if b < |oi| {
          assert o[a] == oi[a] && o[b] == oi[b];
        } else {
          assert o[a] == oi[a] && oi[a] in oi;
        }
      }
    }
  }

  lemma OccurrencesExample(s: string)
    requires s == "ax34x"
    ensures Occurrences(s, 'x') == [1, 4]
  {
    assert s[..4] == "ax34" && s[..3] == "ax3" && s[..2] == "ax" && s[..1] == "a";
    assert s[..2][..1] == s[..1] && s[..3][..2] == s[..2] && s[..4][..3] == s[..3];
    assert Occurrences(s[..1], 'x') == [];
    assert Occurrences(s[..2], 'x') == [1];
    assert Occurrences(s[..3], 'x') == [1];
    assert Occurrences(s[..4], 'x') == [1];
  }

  // ---------------------------------------------------------------------------
  // The side parser with coefficients

  /** The index of the leftmost upper-case letter of s at or after i, or -1
      when there is none. */
  function FirstUpperFrom(s: string, i: nat): (r: int)
    requires i <= |s|
    ensures r == -1 || i <= r < |s|
    decreases |s| - i
  {
    if i == |s| then -1
    else if IsUpper(s[i]) then i
    else FirstUpperFrom(s, i + 1)
  }

  /** The index of the leftmost upper-case letter of s, or -1 when there is none. */
  function FirstUpper(s: string): (r: int)
    ensures -1 <= r < |s|
  {
    FirstUpperFrom(s, 0)
  }

  /** FirstUpperFrom finds a letter with no letter between i and it; -1 means
      there is none from i on. */
  lemma {:induction false} FirstUpperFromSpec(s: string, i: nat)
    requires i <= |s|
    ensures var r := FirstUpperFrom(s, i);
      (r >= 0 ==> IsUpper(s[r])) && forall j :: i <= j < |s| && (r < 0 || j < r) ==> !IsUpper(s[j])
    decreases |s| - i
  {
    if i < |s| && !IsUpper(s[i]) {
      FirstUpperFromSpec(s, i + 1);
    }
  }

  /** FirstUpper finds a letter with no letter before it; -1 means there is none. */
  lemma FirstUpperSpec(s: string)
    ensures var r := FirstUpper(s);
      (r >= 0 ==> IsUpper(s[r])) && forall j :: 0 <= j < |s| && (r < 0 || j < r) ==> !IsUpper(s[j])
  {
    FirstUpperFromSpec(s, 0);
  }

  lemma FirstUpperAt(s: string, p: nat)
    requires p < |s| && IsUpper(s[p])
    requires forall j :: 0 <= j < p ==> !IsUpper(s[j])
    ensures FirstUpper(s) == p
  {
    FirstUpperSpec(s);
  }

  /** A segment of a side (final tells whether it is the last one) that the
      side parser turns into a formula. A segment that starts with a digit
      must hold a coefficient of digits, an element letter and a digit after
      it; the last segment must end in digits only after that letter, and an
      earlier one must continue with legal formula characters. Any other
      segment must be legal formula text. */
  predicate ValidSegment(seg: string, final: bool) {
    if seg != [] && IsDigit(seg[0]) then
      var p := FirstUpper(seg);
      0 < p && p + 1 < |seg| && AllDigits(seg[..p]) &&
      if final then AllDigits(seg[p + 1..])
      else IsDigit(seg[p + 1]) && FormulaChars(seg[p + 2..])
    else IsFormulaText(seg)
  }

  /** The formula text the side parser builds for a segment. A segment
      "k X c" holding a coefficient k becomes the element X with count
      k * c, where c is every digit after X for the last segment and only the
      first digit after X for an earlier one; the rest of an earlier segment
      is copied unchanged. A segment without a coefficient is kept as it is. */
  function ExpandSegment(seg: string, final: bool): (r: string)
    requires ValidSegment(seg, final)
    ensures IsFormulaText(r)
    ensures |seg| >= 1 && IsDigit(seg[0]) ==> r[0] == seg[FirstUpper(seg)]
  {
    if seg != [] && IsDigit(seg[0]) then
      var p := FirstUpper(seg);
      FirstUpperSpec(seg);
      var k := DigitsValue(seg[..p]);
      if final then
        [seg[p]] + NatToString(k * DigitsValue(seg[p + 1..]))
      else
        var r := [seg[p]] + NatToString(k * DigitValue(seg[p + 1])) + seg[p + 2..];
        assert forall i :: |[seg[p]] + NatToString(k * DigitValue(seg[p + 1]))| <= i < |r| ==>
          r[i] == seg[p + 2..][i - |[seg[p]] + NatToString(k * DigitValue(seg[p + 1]))|];
        r
    else seg
  }

  /** The rewriting of the last segment, when it starts with a coefficient. */
  lemma ExpandFinal(seg: string)
    requires ValidSegment(seg, true) && |seg| >= 1 && IsDigit(seg[0])
    ensures 0 < FirstUpper(seg) < |seg| - 1
    ensures ExpandSegment(seg, true) ==
      [seg[FirstUpper(seg)]] + NatToString(DigitsValue(seg[..FirstUpper(seg)]) * DigitsValue(seg[FirstUpper(seg) + 1..]))
  {
  }

  /** The rewriting of an earlier segment, when it starts with a coefficient. */
  lemma ExpandNonFinal(seg: string)
    requires ValidSegment(seg, false) && |seg| >= 1 && IsDigit(seg[0])
    ensures 0 < FirstUpper(seg) < |seg| - 1
    ensures ExpandSegment(seg, false) ==
      [seg[FirstUpper(seg)]] + NatToString(DigitsValue(seg[..FirstUpper(seg)]) * DigitValue(seg[FirstUpper(seg) + 1])) +
      seg[FirstUpper(seg) + 2..]
  {
  }

  /** Whitespace-free side text that the side parser accepts: empty, or
      segments that are each valid in their position. */
  predicate ValidSide(t: string) {
    t == [] ||
    forall k :: 0 <= k < |SplitOn(t, '+')| ==>
      ValidSegment(SplitOn(t, '+')[k], k == |SplitOn(t, '+')| - 1)
  }

  /** The formulas the side parser builds from whitespace-free side text: none
      for empty text, otherwise one per segment, written out by ExpandSegment. */
  function ParsedSide(t: string): (r: Side)
    requires ValidSide(t)
  {
    if t == [] then []
    else
      var segs := SplitOn(t, '+');
      seq(|segs|, k requires 0 <= k < |segs| => Tokenise(ExpandSegment(segs[k], k == |segs| - 1)))
  }

  /** Legal side text does not end with a '+'. */
  lemma ParsedLastChar(t: string)
    requires ValidSide(t) && t != []
    ensures t[|t| - 1] != '+'
  {
    SplitSegments(t, '+');
    var segs := SplitOn(t, '+');
    assert ValidSegment(segs[|segs| - 1], true);
  }

  /** Where the segment that the side parser closes at i ends: at the '+' at
      i, or at the end of t when i is its last index. */
  function SegmentEnd(t: string, i: nat): nat
  {
    if i + 1 == |t| then |t| else i
  }

  /** The side parser's left-to-right scan meets the formulas of ParsedSide in
      order: where it closes a segment at i (at a '+', or at the last
      character) it has just passed segment number n, t[lo..SegmentEnd(t, i)],
      which is the last one exactly when i is the last index. */
  lemma ParsedStep(t: string, lo: nat, i: nat, n: nat)
    requires ValidSide(t) && SplitCursor(t, '+', lo, i, n) && i < |t| && (t[i] == '+' || i + 1 == |t|)
    ensures lo <= SegmentEnd(t, i) <= |t| && n < |ParsedSide(t)|
    ensures ValidSegment(t[lo..SegmentEnd(t, i)], i + 1 == |t|)
    ensures ParsedSide(t)[n] == Tokenise(ExpandSegment(t[lo..SegmentEnd(t, i)], i + 1 == |t|))
    ensures i + 1 == |t| ==> n + 1 == |ParsedSide(t)|
    ensures i + 1 < |t| ==> t[i] == '+' && n + 1 < |ParsedSide(t)| && SplitCursor(t, '+', i + 1, i + 1, n + 1)
  {
    if i + 1 == |t| {
      ParsedLastChar(t);
      CursorSkip(t, '+', lo, i, n);
      CursorEnd(t, '+', lo, n);
      assert t[lo..|t|] == t[lo..];
    } else {
      CursorCut(t, '+', lo, i, n);
    }
  }

  /** On side text without coefficients the side parser builds the same
      formulas as the constructor. */
  lemma PlainSideAgrees(t: string)
    requires t != [] && ValidPlainSide(t)
    ensures ValidSide(t) && ParsedSide(t) == SideTerms(t)
  {
    var segs := SplitOn(t, '+');
    forall k | 0 <= k < |segs| ensures ValidSegment(segs[k], k == |segs| - 1) {
      assert IsUpper(segs[k][0]);
    }
    forall k | 0 <= k < |segs|
      ensures ExpandSegment(segs[k], k == |segs| - 1) == segs[k]
    {
      assert IsUpper(segs[k][0]);
    }
  }

  /** A segment written as a coefficient k, an element x and a tail: its
      first letter is x, right after the coefficient. */
  lemma SegmentParts(k: string, x: char, tail: string)
    requires |k| >= 1 && AllDigits(k) && IsUpper(x)
    ensures var seg := k + [x] + tail;
      IsDigit(seg[0]) && FirstUpper(seg) == |k| && seg[..|k|] == k && seg[|k|] == x &&
      seg[|k| + 1..] == tail
  {
    var seg := k + [x] + tail;
    assert seg[..|k|] == k && seg[|k| + 1..] == tail;
    FirstUpperAt(seg, |k|);
  }

  /** When "k X tail" is a valid segment. */
  lemma SegmentValid(k: string, x: char, tail: string, final: bool)
    requires |k| >= 1 && AllDigits(k) && IsUpper(x) && |tail| >= 1
    requires final ==> AllDigits(tail)
    requires !final ==> IsDigit(tail[0]) && FormulaChars(tail[1..])
    ensures ValidSegment(k + [x] + tail, final)
  {
    SegmentParts(k, x, tail);
    var seg := k + [x] + tail;
    assert seg[|k| + 1..] == tail && seg[|k| + 1] == tail[0] && seg[|k| + 2..] == tail[1..];
  }

  /** The text ExpandSegment builds for a valid segment "k X tail". */
  lemma ExpandParts(k: string, x: char, tail: string, final: bool)
    requires |k| >= 1 && AllDigits(k) && IsUpper(x)
    requires ValidSegment(k + [x] + tail, final)
    ensures |tail| >= 1
    ensures final ==> (AllDigits(tail) &&
      ExpandSegment(k + [x] + tail, true) == [x] + NatToString(DigitsValue(k) * DigitsValue(tail)))
    ensures !final ==> (IsDigit(tail[0]) &&
      ExpandSegment(k + [x] + tail, false) ==
      [x] + NatToString(DigitsValue(k) * DigitValue(tail[0])) + tail[1..])
  {
    SegmentParts(k, x, tail);
    var seg := k + [x] + tail;
    if final {
      ExpandFinal(seg);
    } else {
      ExpandNonFinal(seg);
      assert seg[|k| + 1] == tail[0] && seg[|k| + 2..] == tail[1..];
    }
  }

  /** The last segment "k X c", with c a non-empty run of digits, is the
      single term X with count k * c. */
  lemma FinalCoefficient(k: string, x: char, c: string)
    requires |k| >= 1 && AllDigits(k) && IsUpper(x)
    requires |c| >= 1 && AllDigits(c)
    ensures ValidSegment(k + [x] + c, true)
    ensures Tokenise(ExpandSegment(k + [x] + c, true)) == [Term(x, DigitsValue(k) * DigitsValue(c))]
  {
    SegmentValid(k, x, c, true);
    ExpandParts(k, x, c, true);
    var u := [x] + NatToString(DigitsValue(k) * DigitsValue(c));
    assert u[1..] == NatToString(DigitsValue(k) * DigitsValue(c));
    TokeniseSingle(u);
  }

  /** An earlier segment "k X d rest", with d a single digit and rest empty or
      legal formula text, is the term X with count k * d followed by the
      terms of rest unchanged: only the first term is scaled. */
  lemma NonFinalCoefficient(k: string, x: char, d: char, rest: string)
    requires |k| >= 1 && AllDigits(k) && IsUpper(x) && IsDigit(d)
    requires rest == [] || IsFormulaText(rest)
    ensures ValidSegment(k + [x] + ([d] + rest), false)
    ensures Tokenise(ExpandSegment(k + [x] + ([d] + rest), false)) ==
      [Term(x, DigitsValue(k) * DigitValue(d))] + Tokenise(rest)
  {
    var tail := [d] + rest;
    assert tail[0] == d && tail[1..] == rest;
    SegmentValid(k, x, tail, false);
    ExpandParts(k, x, tail, false);
    var u := [x] + NatToString(DigitsValue(k) * DigitValue(d));
    assert u[1..] == NatToString(DigitsValue(k) * DigitValue(d));
    TokenisePrepend(u, rest);
  }

  lemma NonFinalValidExample(seg: string)
    requires seg == "2" + ['X'] + "34Y"
    ensures ValidSegment(seg, false)
  {
    var tail := "34Y";
    assert tail[1..] == "4Y";
    assert FormulaChars(tail[1..]);
    SegmentValid("2", 'X', tail, false);
  }

  lemma NonFinalExpandExample(seg: string)
    requires seg == "2" + ['X'] + "34Y"
    ensures ValidSegment(seg, false) && ExpandSegment(seg, false) == "X64Y"
  {
    var k, tail := "2", "34Y";
    NonFinalValidExample(seg);
    ExpandParts(k, 'X', tail, false);
    assert DigitsValue(k) * DigitValue(tail[0]) == 6;
    assert NatToString(6) == "6";
    assert tail[1..] == "4Y";
  }

  lemma TokeniseX64Y(t: string)
    requires t == "X64Y"
    ensures IsFormulaText(t) && Tokenise(t) == [Term('X', 64), Term('Y', 1)]
  {
    var u := "X64";
    assert u[1..] == "64";
    assert DigitsValue("64") == 64 by {
      assert "64"[..1] == "6";
    }
    TokenisePrepend(u, "Y");
    TokeniseSingle("Y");
    assert u + "Y" == t;
  }

  /** In an earlier segment only the first digit after the element is
      multiplied, and the other digits are copied after the product:
      "2X34Y" becomes "X64Y", that is X64 and Y. */
  lemma NonFinalCoefficientExample(seg: string)
    requires seg == "2X34Y"
    ensures ValidSegment(seg, false)
    ensures ExpandSegment(seg, false) == "X64Y"
    ensures Tokenise(ExpandSegment(seg, false)) == [Term('X', 64), Term('Y', 1)]
  {
    assert seg == "2" + ['X'] + "34Y";
    NonFinalExpandExample(seg);
    TokeniseX64Y(ExpandSegment(seg, false));
  }

  /** As the last segment, "3H2" becomes H6. */
  lemma FinalCoefficientExample(seg: string)
    requires seg == "3H2"
    ensures ValidSegment(seg, true)
    ensures Tokenise(ExpandSegment(seg, true)) == [Term('H', 6)]
  {
    assert seg == "3" + ['H'] + "2";
    assert DigitsValue("3") == 3 && DigitsValue("2") == 2;
    FinalCoefficient("3", 'H', "2");
  }

  lemma ExpandExamplesText()
    ensures FirstUpper("2X3Y") == 1 && FirstUpper("2O") == 1
  {
    SegmentParts("2", 'X', "3Y");
    SegmentParts("2", 'O', "");
    assert "2X3Y" == "2" + ['X'] + "3Y";
    assert "2O" == "2" + ['O'] + "";
  }

  /** The side parser fails on a last segment with letters after the element,
      such as "2X3Y", and on a last segment with no count after the element,
      such as "2O". */
  lemma InvalidFinalExamples()
    ensures !ValidSegment("2X3Y", true)
    ensures !ValidSegment("2O", true)
  {
    ExpandExamplesText();
    assert "2X3Y"[2..][1] == 'Y';
  }
}
