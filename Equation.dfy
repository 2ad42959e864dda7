/** A chemical equation as a mutable object: the formulas of its two sides,
    built by the string constructor, with the balance test and the display;
    and the two static helpers of the class, the character search and the
    side parser that understands coefficients. */
module Equations {
  import opened Text
  import opened Terms
  import opened FormulaSpec
  import opened Formulas
  import opened EquationSpec

  /** The term lists of the formulas, in order. */
  ghost function TermsOf(fs: seq<Formula>): Side
    reads fs
  {
    seq(|fs|, k requires 0 <= k < |fs| reads fs => fs[k].terms)
  }

  lemma TermsOfSnoc(fs: seq<Formula>, f: Formula)
    ensures TermsOf(fs + [f]) == TermsOf(fs) + [f.terms]
  {
  }

  class Equation {
    /** The formulas of the left-hand side, in order. */
    var lhs: seq<Formula>
    /** The formulas of the right-hand side, in order. */
    var rhs: seq<Formula>

    /** Both sides are as the constructor builds them from legal text. */
    ghost predicate Valid()
      reads this, lhs, rhs
    {
      WellFormedSide(TermsOf(lhs)) && WellFormedSide(TermsOf(rhs))
    }

    /** Parses legal equation text: the text is split at its '=', the
        whitespace is removed from each side, and each side gets one formula
        per '+'-separated segment, in order. */
    constructor (s: string)
      requires ValidEquationText(s)
      ensures TermsOf(lhs) == SideTerms(LeftText(s))
      ensures TermsOf(rhs) == SideTerms(RightText(s))
      ensures Valid()
      ensures forall f :: f in lhs || f in rhs ==> fresh(f)
    {
      var formulas := SplitOn(s, '=');
      var left := StripWhitespace(formulas[0]);
      var right := StripWhitespace(formulas[1]);
      var l := SplitSide(left);
      var r := SplitSide(right);
      lhs := l;
      rhs := r;
      SideTermsWellFormed(left);
      SideTermsWellFormed(right);
    }

    /** The loop the constructor runs over each whitespace-free side: a
        formula for every segment ended by a '+', then one for the rest. */
    static method SplitSide(side: string) returns (fs: seq<Formula>)
      requires ValidPlainSide(side)
      ensures TermsOf(fs) == SideTerms(side)
      ensures forall f :: f in fs ==> fresh(f)
    {
      ghost var st := SideTerms(side);
      fs := [];
      var lastIndex := 0;
      for i := 0 to |side|
        invariant SplitCursor(side, '+', lastIndex, i, |fs|)
        invariant |fs| < |st| && TermsOf(fs) == st[..|fs|]
        invariant forall f :: f in fs ==> fresh(f)
      {
        if side[i] == '+' {
          SideCut(side, lastIndex, i, |fs|);
          var f := new Formula(side[lastIndex..i]);
          TermsOfSnoc(fs, f);
          PrefixSnoc(st, |fs|);
          fs := fs + [f];
          lastIndex := i + 1;
        } else {
          CursorSkip(side, '+', lastIndex, i, |fs|);
        }
      }
      SideEnd(side, lastIndex, |fs|);
      var f := new Formula(side[lastIndex..]);
      TermsOfSnoc(fs, f);
      PrefixSnoc(st, |fs|);
      fs := fs + [f];
      assert st[..|fs|] == st;
    }

    /** The indices at which x occurs in s, in ascending order. */
    static method IndicesOf(s: string, x: char) returns (r: seq<int>)
      ensures forall i :: i in r <==> 0 <= i < |s| && s[i] == x
      ensures forall a, b :: 0 <= a < b < |r| ==> r[a] < r[b]
      ensures r == Occurrences(s, x)
    {
      r := [];
      for i := 0 to |s|
        invariant r == Occurrences(s[..i], x)
      {
        assert s[..i + 1][..i] == s[..i];
        if s[i] == x {
          r := r + [i];
        }
      }
      assert s[..|s|] == s;
      OccurrencesSpec(s, x);
    }

    /** Parses one side of an equation, whitespace allowed, with the
        coefficient rewriting of ExpandSegment: one formula per segment. */
    static method ParseSide(s: string) returns (oneSide: seq<Formula>)
      requires ValidSide(StripWhitespace(s))
      ensures TermsOf(oneSide) == ParsedSide(StripWhitespace(s))
    {
      oneSide := ParseStripped(StripWhitespace(s));
    }

    /** The scan of parseSide over the side once its whitespace is removed: a
        segment is closed at every '+' and at the last character. */
    static method ParseStripped(t: string) returns (oneSide: seq<Formula>)
      requires ValidSide(t)
      ensures TermsOf(oneSide) == ParsedSide(t)
    {
      oneSide := [];
      ghost var ps := ParsedSide(t);
      var lastIndex := 0;
      for i := 0 to |t|
        invariant i < |t| ==> SplitCursor(t, '+', lastIndex, i, |oneSide|) && |oneSide| < |ps|
        invariant i == |t| ==> |oneSide| == |ps|
        invariant TermsOf(oneSide) == ps[..|oneSide|]
      {
        if t[i] == '+' || i == |t| - 1 {
          ParsedStep(t, lastIndex, i, |oneSide|);
          var f := SegmentFormula(t, lastIndex, i);
          TermsOfSnoc(oneSide, f);
          PrefixSnoc(ps, |oneSide|);
          oneSide := oneSide + [f];
          lastIndex := i + 1;
        } else {
          CursorSkip(t, '+', lastIndex, i, |oneSide|);
        }
      }
      assert ps[..|oneSide|] == ps;
    }

    /** The formula the side parser adds for the segment that starts at start
        and ends at the '+' at i, or at the end of s when i is its last index. */
    static method SegmentFormula(s: string, start: nat, i: nat) returns (f: Formula)
      requires start <= i < |s| && (s[i] == '+' || i + 1 == |s|)
      requires ValidSegment(s[start..SegmentEnd(s, i)], i + 1 == |s|)
      ensures fresh(f)
      ensures f.terms == Tokenise(ExpandSegment(s[start..SegmentEnd(s, i)], i + 1 == |s|))
    {
      var term := SegmentText(s, start, i);
      f := new Formula(term);
    }

    /** The text of the formula that the side parser builds for the segment
        that starts at start and ends at the '+' at i, or at the end of s when
        i is its last index: a segment that starts with a digit is rewritten
        by CoefficientText, any other is copied. */
    static method SegmentText(s: string, start: nat, i: nat) returns (term: string)
      requires start <= i < |s| && (s[i] == '+' || i + 1 == |s|)
      requires ValidSegment(s[start..SegmentEnd(s, i)], i + 1 == |s|)
      ensures term == ExpandSegment(s[start..SegmentEnd(s, i)], i + 1 == |s|)
    {
      term := "";
      var lastIndex := start;
      if IsDigit(s[lastIndex]) {
        term := CoefficientText(s, lastIndex, i);
        lastIndex := i + 1;
      } else {
        if i != |s| - 1 {
          term := term + s[lastIndex..i];
          lastIndex := i + 1;
        } else {
          term := term + s[lastIndex..i + 1];
        }
      }
    }

    /** The rewriting of a segment that starts with a digit: the coefficient
        is the digits before the first letter, and the first digit after that
        letter (the whole digit run after it, in the last segment) is
        multiplied by it; the rest of an earlier segment is copied. */
    static method CoefficientText(s: string, lastIndex: nat, i: nat) returns (term: string)
      requires lastIndex <= i < |s| && (s[i] == '+' || i + 1 == |s|) && IsDigit(s[lastIndex])
      requires ValidSegment(s[lastIndex..SegmentEnd(s, i)], i + 1 == |s|)
      ensures term == ExpandSegment(s[lastIndex..SegmentEnd(s, i)], i + 1 == |s|)
    {
      var hi := SegmentEnd(s, i);
      if i + 1 == |s| {
        ExpandFinal(s[lastIndex..hi]);
      } else {
        ExpandNonFinal(s[lastIndex..hi]);
      }
      var firstElementIndex := FirstElement(s, lastIndex, hi);
      if i != |s| - 1 {
        term := ScaleNext(s, lastIndex, firstElementIndex, i);
      } else {
        term := ScaleLast(s, lastIndex, firstElementIndex);
      }
    }

    /** The digit branch of a segment that a '+' at i ends: the second loop
        stops one place after the element, whose following digit alone is
        multiplied by the coefficient; the rest up to i is copied. */
    static method ScaleNext(s: string, lastIndex: nat, firstElementIndex: nat, i: nat) returns (term: string)
      requires lastIndex <= i < |s| && s[i] == '+' && IsDigit(s[lastIndex])
      requires ValidSegment(s[lastIndex..i], false)
      requires firstElementIndex == lastIndex + FirstUpper(s[lastIndex..i])
      ensures term == ExpandSegment(s[lastIndex..i], false)
    {
      ghost var seg := s[lastIndex..i];
      ghost var p := FirstUpper(seg);
      ExpandNonFinal(seg);
      SliceOfSlice(s, lastIndex, i, p);
      SliceOfSlice(s, lastIndex, i, p + 2);
      assert s[firstElementIndex] == seg[p] && s[firstElementIndex + 1] == seg[p + 1];
      ghost var head := [seg[p]] + NatToString(DigitsValue(seg[..p]) * DigitValue(seg[p + 1]));
      term := "";
      var countUpperCase, index := 1, firstElementIndex;
      while countUpperCase < 2
        invariant 1 <= countUpperCase <= 2
        invariant countUpperCase == 1 ==> index == firstElementIndex
        invariant countUpperCase == 2 ==> index == firstElementIndex + 1
        decreases 2 - countUpperCase
      {
        index := index + 1;
        if IsUpper(s[index]) || s[i] == '+' {
          countUpperCase := countUpperCase + 1;
        }
      }
      if firstElementIndex + 1 == index {
        term := term + [s[firstElementIndex]] +
          NatToString(DigitsValue(s[lastIndex..firstElementIndex]) * DigitValue(s[index]));
      } else {
        // the loop above always stops one place after the element
        assert false;
      }
      assert term == head;
      index := index + 1;
      if index != i {
        term := term + s[index..i];
      } else {
        assert seg[p + 2..] == [];
      }
    }

    /** The digit branch of the last segment: the whole digit run after the
        element is multiplied by the coefficient. */
    static method ScaleLast(s: string, lastIndex: nat, firstElementIndex: nat) returns (term: string)
      requires lastIndex < |s| && IsDigit(s[lastIndex])
      requires ValidSegment(s[lastIndex..|s|], true)
      requires firstElementIndex == lastIndex + FirstUpper(s[lastIndex..|s|])
      ensures term == ExpandSegment(s[lastIndex..|s|], true)
    {
      ghost var seg := s[lastIndex..|s|];
      ghost var p := FirstUpper(seg);
      ExpandFinal(seg);
      SliceOfSlice(s, lastIndex, |s|, p);
      SliceOfSlice(s, lastIndex, |s|, p + 1);
      assert s[firstElementIndex] == seg[p];
      term := "";
      if firstElementIndex == |s| - 1 {
        // a last segment ending at its element has no count to multiply
        assert false;
      } else {
        term := term + [s[firstElementIndex]] +
          NatToString(DigitsValue(s[lastIndex..firstElementIndex]) * DigitsValue(s[firstElementIndex + 1..|s|]));
      }
    }

    /** The first loop of the digit branch: the index of the first upper-case
        letter after lastIndex, which lies inside the segment s[lastIndex..hi]. */
    static method FirstElement(s: string, lastIndex: nat, hi: nat) returns (firstElementIndex: nat)
      requires lastIndex < hi <= |s| && 0 < FirstUpper(s[lastIndex..hi])
      ensures firstElementIndex == lastIndex + FirstUpper(s[lastIndex..hi])
    {
      ghost var seg := s[lastIndex..hi];
      ghost var p := FirstUpper(seg);
      FirstUpperSpec(seg);
      var countUpperCase := 0;
      firstElementIndex := 0;
      var index := lastIndex;
      while countUpperCase < 1
        invariant 0 <= countUpperCase <= 1
        invariant countUpperCase == 0 ==> lastIndex <= index < lastIndex + p
        invariant countUpperCase == 1 ==> firstElementIndex == lastIndex + p
        decreases 1 - countUpperCase, lastIndex + p - index
      {
        index := index + 1;
        assert s[index] == seg[index - lastIndex];
        if IsUpper(s[index]) {
          countUpperCase := countUpperCase + 1;
          firstElementIndex := index;
        }
      }
    }

    /** Whether the equation is balanced. The displays of each side's
        formulas are concatenated and read as one formula per side; both are
        standardised and their displays compared. The formulas of the
        equation are left as they are. */
    method IsValid() returns (r: bool)
      requires Valid()
      ensures r <==> Balanced(TermsOf(lhs), TermsOf(rhs))
      ensures PositiveCounts(Flatten(TermsOf(lhs))) && PositiveCounts(Flatten(TermsOf(rhs))) ==>
        (r <==> SameTotals(TermsOf(lhs), TermsOf(rhs)))
    {
      ghost var ls, rs := TermsOf(lhs), TermsOf(rhs);
      var lhsString := SideString(lhs, ls);
      var rhsString := SideString(rhs, rs);
      BalanceByDisplay(ls, rs);
      var ld := StandardDisplay(lhsString);
      var rd := StandardDisplay(rhsString);
      r := ld == rd;
      assert TermsOf(lhs) == ls && TermsOf(rhs) == rs;
      if PositiveCounts(Flatten(ls)) && PositiveCounts(Flatten(rs)) {
        BalancedCounts(ls, rs);
      }
    }

    /** The display of the standardised formula that s parses to, computed
        as isValid does: a fresh formula is parsed, standardised in place
        and displayed. */
    static method StandardDisplay(s: string) returns (d: string)
      requires IsFormulaText(s)
      ensures d == DisplayTerms(Standardised(Tokenise(s)))
    {
      var f := new Formula(s);
      f.Standardise();
      d := f.Display();
    }

    /** The loop isValid runs over each side: the displays of its formulas,
        one after the other. The ghost parameter ts names the side's term
        lists. */
    static method SideString(side: seq<Formula>, ghost ts: Side) returns (d: string)
      requires TermsOf(side) == ts
      ensures d == DisplayAll(ts)
    {
      d := "";
      for i := 0 to |side|
        invariant d == DisplayAll(ts[..i])
      {
        var fd := side[i].Display();
        assert ts[..i + 1][..i] == ts[..i];
        d := d + fd;
      }
      assert ts[..|side|] == ts;
    }

    /** The equation as text: the displays of each side's formulas joined by
        " + ", and the two sides joined by " = ". */
    method Display() returns (d: string)
      ensures d == EquationText(TermsOf(lhs), TermsOf(rhs))
    {
      var lhsString := DisplayList(lhs);
      var rhsString := DisplayList(rhs);
      d := "";
      d := d + Join(lhsString, " + ");
      d := d + " = ";
      d := d + Join(rhsString, " + ");
    }

    /** The display of every formula, in order. */
    static method DisplayList(side: seq<Formula>) returns (ds: seq<string>)
      ensures ds == Displays(TermsOf(side))
    {
      ds := [];
      for i := 0 to |side|
        invariant |ds| == i
        invariant forall k :: 0 <= k < i ==> ds[k] == DisplayTerms(side[k].terms)
      {
        var fd := side[i].Display();
        ds := ds + [fd];
      }
    }
  }

  /** "H2 + O2 = H2O", read by the constructor and tested by isValid, is not
      balanced: two atoms of O on the left, one on the right. */
  method UnbalancedEquationExample(s: string) returns (r: bool)
    requires s == "H2 + O2 = H2O"
    ensures !r
  {
    UnbalancedParse(s);
    var e := new Equation(s);
    r := e.IsValid();
  }

  /** "H2 + H2 = H4", read by the constructor and tested by isValid, is
      balanced. */
  method BalancedEquationExample(s: string) returns (r: bool)
    requires s == "H2 + H2 = H4"
    ensures r
  {
    BalancedParse(s);
    var e := new Equation(s);
    r := e.IsValid();
  }
}
