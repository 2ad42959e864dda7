/** One term of a formula: an element symbol (one upper-case letter) and a count.
    The Term class itself is not part of this model; its string constructor is
    modelled as the parser the formula code relies on: the letter, then an
    optional run of digits that is the count, 1 when the run is absent. */
module Terms {
  import opened Text

  datatype Term = Term(element: char, count: nat)

  /** Text that the term parser accepts: a letter followed by digits only. */
  predicate IsTermText(s: string) {
    |s| >= 1 && IsUpper(s[0]) && AllDigits(s[1..])
  }

  /** The term written as s: its letter, and the value of its digits (1 when there are none). */
  function ParseTerm(s: string): (t: Term)
    requires IsTermText(s)
  {
    Term(s[0], if |s| == 1 then 1 else DigitsValue(s[1..]))
  }

  /** How Formula.display writes one term: the letter, then the count in decimal,
      the count being left out when it is 1. */
  function TermText(t: Term): (r: string)
  {
    [t.element] + (if t.count == 1 then "" else NatToString(t.count))
  }

  /** Parsing the text of a term gives the term back, whatever its count; the
      text is one character long exactly when the count is 1. */
  lemma ParseTermText(t: Term)
    requires IsUpper(t.element)
    ensures IsTermText(TermText(t)) && ParseTerm(TermText(t)) == t
    ensures |TermText(t)| == 1 <==> t.count == 1
  {
    if t.count != 1 {
      assert TermText(t)[1..] == NatToString(t.count);
    }
  }
}
