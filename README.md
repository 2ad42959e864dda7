# Bydysawd formulas and equations, modelled in Dafny

This project models the core of a small Java program that reads a toy
chemical notation. An element symbol is one upper-case letter. A term is an
element followed by an optional run of digits, its count. A formula is a run
of terms such as `AX3YM67`. An equation is `+`-joined formulas on each side
of a single `=`, such as `X3 + Y2Z = ZX + Y2X4`.

The model follows the two Java classes:

- `Formula` (`Formula.dfy`, class `Formulas.Formula`) holds its terms in a
  mutable field. Its string constructor tokenises the text; it also provides
  `lastUC`, `countElement`, the in-place `standardise`, the destructive
  `isIsomer` and `display`.
- `Equation` (`Equation.dfy`, class `Equations.Equation`) holds the formulas
  of its two sides. Its string constructor splits the text at `=`, strips
  whitespace and cuts each side at `+`. It also provides the static helpers
  `indicesOf` and `parseSide` (the side parser that reads coefficients), plus
  `isValid` and `display`.

Every method is proved against a specification function on values:

- `FormulaSpec` holds `Tokenise`, `Count`, `Standardised` and `DisplayTerms`.
- `EquationSpec` holds `SideTerms`, `ParsedSide`, `ExpandSegment`, `Balanced` and `EquationText`.
- The lemmas in those two modules state what the operations promise.
- `Text` holds the string utilities the Java code borrows from the library:
  `split`, `replaceAll("\\s+", "")`, `String.join` and `Integer.toString`.
- `Terms` holds the term datatype and the term parser that the formula code relies on.
- `HashOrder` models the order in which `standardise` really lays out its terms (see Findings).

`parseSide` reads a leading coefficient but does not multiply every term of
the segment by it:

- In a segment followed by a `+`, it multiplies only the first term, and only by the one digit after the element. The rest of the segment is copied unchanged.
- In the last segment, the whole digit run after the element must be the only thing that follows.

`ExpandSegment` models exactly this.

## Model

| member | source | states |
|---|---|---|
| `Formulas.Formula.constructor` | Formula.java:30-42 | the terms are `Tokenise(s)`: a term starts at every upper-case letter and runs to the next one, in source order |
| `Formulas.Formula.FromTerms` | Formula.java:20-23 | the new formula holds a copy of the given term list |
| `FormulaSpec.TokeniseElements` | Formula.java:25-42 | the elements of the parsed terms are exactly the upper-case letters of the text, in order, one term per letter |
| `FormulaSpec.TokeniseWellFormed` | Formula.java:30-42 | legal formula text yields at least one term, each with an upper-case element |
| `FormulaSpec.TokenisePrepend` | Formula.java:30-42 | term text in front of formula text contributes exactly its own term, ahead of the terms of the rest |
| `FormulaSpec.TokeniseExample` | Formula.java:26-27 | `"AX3YM67"` parses to A1, X3, Y1, M67 |
| `Formulas.Formula.LastUC` | Formula.java:52-67 | the result is -1 or the index of an upper-case letter, and no upper-case letter follows it, so -1 means there is none |
| `FormulaSpec.LastUpperSpec` | Formula.java:52-67 | the specification of the rightmost upper-case letter: a letter at the result, none after it |
| `FormulaSpec.LastUpperExample` | Formula.java:53-54 | the rightmost letter of `"AX3YM67"` is at 4 |
| `Formulas.Formula.CountElement` | Formula.java:69-85 | the loop's sum is `Count(terms, element)`, the total of the counts of the terms for that element |
| `FormulaSpec.Count` | Formula.java:69-85 | an absent element counts 0, and with positive counts a present element counts more than 0 |
| `FormulaSpec.CountConcat` | Formula.java:74-85 | counting over two lists one after the other adds the two counts |
| `FormulaSpec.CountExample` | Formula.java:70-72 | in W2, X1, W5 the counts are W=7, X=1, Q=0 |
| `Formulas.Formula.Standardise` | Formula.java:92-110 | the terms are replaced by `Standardised(old terms)`, the one-term-per-element form in alphabetical order |
| `FormulaSpec.SortedDistinct` | Formula.java:94-101 | the element list sorted with duplicates dropped: strictly increasing, with the same members |
| `FormulaSpec.Standardised` | Formula.java:87-110 | the standardised list has strictly increasing elements and the same set of elements as the input |
| `FormulaSpec.StandardisedCounts` | Formula.java:104-107 | standardising keeps the count of every element |
| `FormulaSpec.StandardisedOneTermEach` | Formula.java:87-90 | after standardising, each element present is in exactly one term |
| `FormulaSpec.StandardisedIdempotent` | Formula.java:87-110 | standardising a standardised list changes nothing |
| `FormulaSpec.StandardisedExample` | Formula.java:88-90 | C3, D1, B2, D2, C1 becomes B2, C4, D3 |
| `FormulaSpec.StandardisedSameAtoms` | Formula.java:112-115 | two lists standardise to the same list exactly when they have the same elements with the same counts |
| `Formulas.Formula.IsIsomer` | Formula.java:112-128 | both operands are left standardised. The result is true iff the two displays are equal. For well-formed terms it is true iff the operands are isomers, and with positive counts iff every element has the same count in both |
| `FormulaSpec.IsomerIff` | Formula.java:116-127 | comparing the displays of the two standardised lists decides "same elements, same counts" in both directions |
| `FormulaSpec.IsomerCountsIff` | Formula.java:112-128 | with positive counts, the display comparison holds exactly when every element has the same count in both lists |
| `FormulaSpec.SameAtomsIffCounts` | Formula.java:112-115 | with positive counts, "isomers" and "equal count of every element" are the same thing |
| `Formulas.Formula.Display` | Formula.java:130-143 | the result is `DisplayTerms(terms)`: each element followed by its count, a count of 1 left out |
| `Terms.ParseTermText` | Formula.java:139-140 | the text of one term parses back to that term; it is a single letter exactly when the count is 1 |
| `FormulaSpec.DisplayRoundTrip` | Formula.java:130-143 | parsing the display of any term list with upper-case elements gives the same list back |
| `FormulaSpec.DisplayConcat` | Formula.java:134-143 | the display of two lists one after the other is the two displays concatenated |
| `FormulaSpec.DisplayExample` | Formula.java:131-132 | B22, E1, D3 displays as `"B22ED3"` |
| `FormulaSpec.StandardisedDisplayExample` | Formula.java:88-90 | the standardised B2, C4, D3 displays as `"B2C4D3"` |
| `Text.NatToString` | Formula.java:139 | the decimal text of a count is non-empty digits, has no leading zero and reads back as the count |
| `Text.LeadingZero` | Equation.java:133 | `DigitsValue`, the value `Integer.parseInt` reads from a run of digits, is unchanged by a leading zero |
| `Text.DigitsValueBound` | Equation.java:150 | a run of n digits, as `Integer.parseInt` reads it, has a value below 10^n |
| `Text.StripWhitespace` | Equation.java:30-31 | the result contains no whitespace |
| `Text.StripConcat` | Equation.java:30-31 | removing whitespace from two texts one after the other removes it from each |
| `Text.SplitSegments` | Equation.java:29 | no segment of a split contains the separator |
| `Text.JoinSplit` | Equation.java:29 | joining the segments with the separator gives the text back |
| `Text.SplitCount` | Equation.java:29 | a split has one segment more than the text has separators |
| `Equations.Equation.constructor` | Equation.java:26-54 | each side holds one formula per `+`-separated segment of its whitespace-free text, in order, and every formula is a new object |
| `Equations.Equation.SplitSide` | Equation.java:33-42 | the cursor loop over one side builds the formulas of `SideTerms(side)`, in order |
| `EquationSpec.SideTermsCount` | Equation.java:33-53 | a side has one formula more than it has pluses |
| `EquationSpec.SideTermsWellFormed` | Equation.java:33-53 | legal side text yields a non-empty side of non-empty formulas with upper-case elements |
| `Equations.Equation.IndicesOf` | Equation.java:72-87 | the result holds exactly the indices of `s` holding `x`, strictly ascending |
| `EquationSpec.OccurrencesSpec` | Equation.java:72-87 | the specification of the search: exactly the matching indices, strictly ascending |
| `EquationSpec.OccurrencesExample` | Equation.java:73-74 | the indices of `x` in `"ax34x"` are 1 and 4 |
| `Equations.Equation.ParseSide` | Equation.java:95-98 | the formulas are `ParsedSide` of the text with its whitespace removed |
| `Equations.Equation.ParseStripped` | Equation.java:102-178 | the scan closes a segment at every `+` and at the last character, and adds the formula of each segment in order |
| `Equations.Equation.SegmentText` | Equation.java:104-174 | a segment that starts with a digit is rewritten by the coefficient branch; any other segment is copied as it is |
| `Equations.Equation.CoefficientText` | Equation.java:107-160 | the coefficient branch builds `ExpandSegment` of the segment |
| `Equations.Equation.FirstElement` | Equation.java:109-120 | the first loop stops at the first upper-case letter of the segment |
| `Equations.Equation.ScaleNext` | Equation.java:121-141 | in a segment followed by `+`, the element's first digit is multiplied by the coefficient and the rest of the segment is copied after the product |
| `Equations.Equation.ScaleLast` | Equation.java:142-154 | in the last segment, the whole digit run after the element is multiplied by the coefficient |
| `Equations.Equation.SegmentFormula` | Equation.java:175 | the formula added for a segment is the tokenised rewritten text |
| `EquationSpec.ExpandSegment` | Equation.java:104-174 | the rewritten text is legal formula text, and for a coefficient segment it starts with the segment's first element |
| `EquationSpec.ParsedStep` | Equation.java:102-104 | where the scan closes a segment it has just passed segment number n of the split, and it is the last one exactly at the end of the text |
| `EquationSpec.PlainSideAgrees` | Equation.java:162-174 | on text in which no segment starts with a digit, the side parser builds the same formulas as the constructor's split |
| `EquationSpec.NonFinalCoefficient` | Equation.java:121-141 | a segment `k X d rest` followed by `+` becomes the term X with count k·d, then the terms of `rest` unchanged |
| `EquationSpec.FinalCoefficient` | Equation.java:142-154 | a last segment `k X c`, with `c` digits, becomes the single term X with count k·c |
| `EquationSpec.NonFinalCoefficientExample` | Equation.java:131-133 | `"2X34Y"` followed by `+` becomes `"X64Y"`, that is X64 and Y1 |
| `EquationSpec.FinalCoefficientExample` | Equation.java:149-150 | `"3H2"` as the last segment becomes H6 |
| `EquationSpec.InvalidFinalExamples` | Equation.java:144-150 | `"2X3Y"` and `"2O"` are not accepted as a last segment |
| `Equations.Equation.IsValid` | Equation.java:186-206 | the result is true iff the equation is balanced; with positive counts, iff every element has the same total on both sides. The stored formulas are not changed |
| `EquationSpec.BalanceByDisplay` | Equation.java:188-205 | comparing the displays of the two standardised aggregates decides balance in both directions |
| `EquationSpec.BalancedCounts` | Equation.java:182-185 | with positive counts, balanced means the same total count of every element on both sides |
| `EquationSpec.CountFlatten` | Equation.java:191-199 | the count over the concatenated side is the sum of the counts of its formulas |
| `EquationSpec.DisplayAllParses` | Equation.java:191-201 | the concatenated displays of a side are legal formula text that parses to all its terms, in order |
| `EquationSpec.UnbalancedExample` | Equation.java:182-185 | H2 + O2 = H2O is not balanced |
| `EquationSpec.BalancedExample` | Equation.java:182-185 | H2 + H2 = H4 is balanced |
| `EquationSpec.UnbalancedParse` | Equation.java:26-54 | `"H2 + O2 = H2O"` is legal equation text, and the sides the constructor reads from it are not balanced |
| `EquationSpec.BalancedParse` | Equation.java:26-54 | `"H2 + H2 = H4"` is legal equation text, and the sides the constructor reads from it are balanced |
| `Equations.UnbalancedEquationExample` | Equation.java:186-206 | an `Equation` built from `"H2 + O2 = H2O"` answers false to `isValid` |
| `Equations.BalancedEquationExample` | Equation.java:186-206 | an `Equation` built from `"H2 + H2 = H4"` answers true to `isValid` |
| `Equations.Equation.StandardDisplay` | Equation.java:200-205 | a fresh formula parsed from the text, standardised and displayed, gives the display of the standardised terms |
| `Equations.Equation.SideString` | Equation.java:188-199 | the loop concatenates the displays of the side's formulas in order |
| `Equations.Equation.Display` | Equation.java:211-229 | the text is each side's displays joined by `" + "`, and the two sides joined by `" = "`, in the original order |
| `Equations.Equation.DisplayList` | Equation.java:214-223 | the display of every formula of a side, in order |
| `EquationSpec.EquationDisplayRoundTrip` | Equation.java:211-229 | the display of an equation with well-formed sides is legal equation text that the constructor reads back as the same two sides |
| `HashOrder.IterationOrder` | Formula.java:101 | the iteration order of the hash set is a permutation of the sorted element list |
| `HashOrder.StandardisedAsWritten` | Formula.java:92-110 | `standardise` as written: one term per element in hash-set iteration order, each carrying its element's total count |
| `HashOrder.AsWrittenSameTerms` | Formula.java:99-107 | as written, `standardise` produces exactly the terms of the alphabetical form, possibly in another order |
| `HashOrder.AsWrittenNotIdempotent` | Formula.java:92-110 | as written, `"AAAAAAAAAAAAAP"` standardises to A13, P, and standardising that again reorders it to P, A13 |
| `HashOrder.IsomerAsWrittenFails` | Formula.java:101 | as written, `"A13P"` and `"AAAAAAAAAAAAAP"` are isomers whose standardised displays differ |
| `HashOrder.IsomerSortedHolds` | Formula.java:87-90 | with the alphabetical order, the same two formulas standardise to the same display |

## Left out

- `Term.java` is not part of this model. `Terms.Term` is a datatype of an element and a count. `Terms.ParseTerm` is the term parser the formula code relies on: the letter, then the value of the digits after it, 1 when there are none.
- The getters `getTerms`, `getLHS` and `getRHS` only return the fields; they have no behaviour to verify.
- Exceptions are not modelled: a `NumberFormatException` from `Integer.parseInt`, an index out of bounds, or a `Term` built from empty text. Preconditions exclude the inputs that raise them: `IsFormulaText` for formulas, `ValidEquationText` for equations, and `ValidSide` for `parseSide`. In `parseSide`, a last segment `kX` with no digit after the element always fails, because its line 146 reads the letter as a number. `ValidSegment` excludes it, and that branch is `assert false` in `ScaleLast`.
- Java's 32-bit `int` is not modelled. Counts, coefficients and products are unbounded naturals, so an overflowing k·c is out of scope.
- `Character.isUpperCase` and `Character.isDigit` are restricted to ASCII `A`–`Z` and `0`–`9`. Whitespace is the six characters of the regular-expression class `\s`.
- `String.split("=")` is modelled for text with exactly one `=`. Java would also accept more than one `=` and ignore what follows the second.
- Formulas.Formula.Standardise: the result is ordered alphabetically, as the doc comment promises, not in the `HashSet` iteration order the code produces. The as-written order is modelled separately in `HashOrder` (see Findings).
- FormulaSpec.SortedDistinct: the element list is sorted with duplicates dropped; the `HashSet` reordering that follows in the code is modelled separately by `HashOrder.IterationOrder`.
- FormulaSpec.StandardisedIdempotent: holds for the alphabetical order only. As written, `standardise` is not idempotent (`HashOrder.AsWrittenNotIdempotent`).
- HashOrder.HashCapacity: the table size is computed with exact division rather than Java's `float` division. The two agree for the counterexample used.
- Formulas.Formula.IsIsomer: the contract follows the alphabetical `standardise`; as written, two isomers can be answered false (see Findings). Also, "isomers iff equal counts of every element" is stated only for positive counts. A written count of 0, as in `A0`, is legal text. It keeps the element in the display, so `A0` and `B0` are not isomers although every count agrees. For any counts, the contract says "same elements and same counts".
- Equations.Equation.IsValid: the contract follows the alphabetical `standardise`; as written, a balanced equation such as `A13P = AAAAAAAAAAAAAP` can be answered false (see Findings). Also, "balanced iff equal totals" is stated only for positive counts, for the same reason. For any counts, the contract is `Balanced`, which also requires the same element set.
- Formulas are held by reference, as in Java. The constructor's formulas are new objects, so no caller holds them. Aliasing set up later, through the getters, is not modelled beyond `IsIsomer`, which also covers a formula compared with itself.

## Findings

| source | as written | input that shows it | evidently intended | confidence | as-written member | corrected member |
|---|---|---|---|---|---|---|
| Formula.java:99-101 | `standardise` sorts the elements, then copies them through a `HashSet`. The set iterates in bucket order (character code modulo a table size that grows with the number of terms, duplicates included), which discards the sort | `new Formula("A13P").isIsomer(new Formula("AAAAAAAAAAAAAP"))`: 2 terms give 16 buckets, so P (bucket 0) comes before A (bucket 1) and the display is `PA13`; 14 terms give 32 buckets and the display is `A13P`. The result is false for two isomers. `isValid` on `A13P = AAAAAAAAAAAAAP` is false in the same way | terms in alphabetical order, as the doc comment at Formula.java:88-90 states, so that isomers always display alike | not executed; follows the JDK's `HashSet(Collection)` and `HashMap` table layout | `HashOrder.IsomerAsWrittenFails` | `FormulaSpec.StandardisedSameAtoms` |
