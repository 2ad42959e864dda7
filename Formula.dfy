/** A chemical formula as a mutable object: a list of terms that the parser
    fills in, that standardise rewrites in place, and that the isomer test
    standardises as a side effect. */
module Formulas {
  import opened Text
  import opened Terms
  import opened FormulaSpec

  class Formula {
    /** The constituent terms of the formula, in order. */
    var terms: seq<Term>

    /** A formula holding a copy of the given terms. */
    constructor FromTerms(ts: seq<Term>)
      ensures terms == ts
    {
      terms := ts;
    }

    /** Parses legal formula text: a term starts at every upper-case letter
        after the first and runs to the next one, the last term to the end. */
    constructor (s: string)
      requires IsFormulaText(s)
      ensures terms == Tokenise(s)
    {
      var ts: seq<Term> := [];
      var lastIndex := 0;
      ScanStart(s);
      for i := 1 to |s|
        invariant TokenScan(s, lastIndex, i, ts)
      {
        if IsUpper(s[i]) {
          ScanCut(s, lastIndex, i, ts);
          ts := ts + [ParseTerm(s[lastIndex..i])];
          lastIndex := i;
        } else {
          ScanSkip(s, lastIndex, i, ts);
        }
      }
      ScanEnd(s, lastIndex, ts);
      terms := ts + [ParseTerm(s[lastIndex..])];
    }

    /** The index of the rightmost upper-case letter of s, or -1 when there
        is none, found by scanning from the right. */
    static method LastUC(s: string) returns (r: int)
      ensures -1 <= r < |s|
      ensures r >= 0 ==> IsUpper(s[r])
      ensures forall j :: r < j < |s| ==> !IsUpper(s[j])
      ensures r == LastUpper(s)
    {
      var i := |s| - 1;
      while i >= 0
        invariant -1 <= i < |s|
        invariant forall j :: i < j < |s| ==> !IsUpper(s[j])
      {
        if IsUpper(s[i]) {
          LastUpperAt(s, i);
          return i;
        }
        i := i - 1;
      }
      LastUpperSpec(s);
      return -1;
    }

    /** The total number of atoms of element over all terms. */
    method CountElement(element: char) returns (sum: nat)
      ensures sum == Count(terms, element)
    {
      sum := 0;
      for i := 0 to |terms|
        invariant sum == Count(terms[..i], element)
      {
        assert terms[..i + 1][..i] == terms[..i];
        if terms[i].element == element {
          sum := sum + terms[i].count;
        }
      }
      assert terms[..|terms|] == terms;
    }

    /** Rewrites the terms into standardised form: one term per element
        present, in alphabetical order, carrying that element's total count. */
    method Standardise()
      modifies this
      ensures terms == Standardised(old(terms))
    {
      ghost var ts := terms;
      var elements: seq<char> := [];
      for i := 0 to |terms|
        invariant terms == ts
        invariant elements == ElementSeq(ts[..i])
      {
        ElementSeqSnoc(ts, i);
        elements := elements + [terms[i].element];
      }
      assert ts[..|ts|] == ts;
      var deDup := SortedDistinct(elements);
      ghost var std := Standardised(ts);
      StandardisedLength(ts);
      var subTerms: seq<Term> := [];
      for j := 0 to |deDup|
        invariant terms == ts
        invariant subTerms == std[..j]
      {
        var c := CountElement(deDup[j]);
        StandardisedAt(ts, j);
        PrefixSnoc(std, j);
        subTerms := subTerms + [Term(deDup[j], c)];
      }
      assert std[..|deDup|] == std;
      terms := subTerms;
    }

    /** Whether this formula and other contain the same number of atoms of
        every element. Both formulas are left standardised. */
    method IsIsomer(other: Formula) returns (r: bool)
      modifies this, other
      ensures terms == Standardised(old(terms))
      ensures other.terms == Standardised(old(other.terms))
      ensures r <==> DisplayTerms(terms) == DisplayTerms(other.terms)
      ensures UpperElements(old(terms)) && UpperElements(old(other.terms)) ==>
        (r <==> SameAtoms(old(terms), old(other.terms)))
      ensures (UpperElements(old(terms)) && UpperElements(old(other.terms)) &&
               PositiveCounts(old(terms)) && PositiveCounts(old(other.terms))) ==>
        (r <==> SameCounts(old(terms), old(other.terms)))
    {
      Standardise();
      other.Standardise();
      if other == this {
        StandardisedIdempotent(old(terms));
      }
      var mine := Display();
      var theirs := other.Display();
      if mine == theirs {
        r := true;
      } else {
        r := false;
      }
      if UpperElements(old(terms)) && UpperElements(old(other.terms)) {
        IsomerIff(old(terms), old(other.terms));
        if PositiveCounts(old(terms)) && PositiveCounts(old(other.terms)) {
          IsomerCountsIff(old(terms), old(other.terms));
        }
      }
    }

    /** The formula as text: each term's letter followed by its count, the
        count being left out when it is 1. */
    method Display() returns (d: string)
      ensures d == DisplayTerms(terms)
    {
      d := "";
      for i := 0 to |terms|
        invariant d == DisplayTerms(terms[..i])
      {
        var count := if terms[i].count == 1 then "" else NatToString(terms[i].count);
        DisplaySnoc(terms[..i], terms[i]);
        assert terms[..i + 1] == terms[..i] + [terms[i]];
        d := d + [terms[i].element] + count;
      }
      assert terms[..|terms|] == terms;
    }
  }
}
