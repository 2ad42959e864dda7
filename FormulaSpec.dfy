/** The meaning of a formula as a value: a sequence of terms. The functions
    here are the specifications that the methods of class Formula are proved
    against, and the lemmas state what the formula operations promise:
    tokenising, counting, the display/parse round trip, standardisation and
    the isomer test. */
module FormulaSpec {
  import opened Text
  import opened Terms

  /** A character of formula text: an upper-case letter or a digit. */
  predicate FormulaChar(c: char) {
    IsUpper(c) || IsDigit(c)
  }

  /** Text made of formula characters only. */
  predicate FormulaChars(s: string) {
    forall i :: 0 <= i < |s| ==> FormulaChar(s[i])
  }

  /** Legal formula text: a non-empty run of letters and digits that starts
      with a letter, such as "AX3YM67" or "Z". */
  predicate IsFormulaText(s: string) {
    |s| >= 1 && IsUpper(s[0]) && forall i :: 0 <= i < |s| ==> FormulaChar(s[i])
  }

  /** The index of the rightmost upper-case letter of s, or -1 when s has none. */
  function LastUpper(s: string): (r: int)
    ensures -1 <= r < |s|
  {
    if s == [] then -1
    else if IsUpper(s[|s| - 1]) then |s| - 1
    else LastUpper(s[..|s| - 1])
  }

  /** LastUpper finds a letter with no letter after it; -1 means there is none. */
  lemma {:induction false} LastUpperSpec(s: string)
    ensures var r := LastUpper(s);
      (r >= 0 ==> IsUpper(s[r])) && forall j :: r < j < |s| ==> !IsUpper(s[j])
  {
    if s != [] && !IsUpper(s[|s| - 1]) {
      LastUpperSpec(s[..|s| - 1]);
    }
  }

  /** The rightmost letter is the one with no letter after it. */
  lemma LastUpperAt(s: string, k: nat)
    requires k < |s| && IsUpper(s[k])
    requires forall j :: k < j < |s| ==> !IsUpper(s[j])
    ensures LastUpper(s) == k
  {
    LastUpperSpec(s);
  }

  /** The terms of a formula text in source order: every upper-case letter
      starts a term that runs up to the next letter or the end of the text. */
  function Tokenise(s: string): seq<Term>
    requires s == [] || IsFormulaText(s)
    decreases |s|
  {
    if s == [] then []
    else
      LastUpperSpec(s);
      var k := LastUpper(s);
      assert IsUpper(s[0]);
      assert forall i :: 0 <= i < |s[k..][1..]| ==> s[k..][1..][i] == s[k + 1 + i];
      Tokenise(s[..k]) + [ParseTerm(s[k..])]
  }

  /** The upper-case letters of s, in order. */
  function UpperLetters(s: string): seq<char>
  {
    if s == [] then []
    else UpperLetters(s[..|s| - 1]) + (if IsUpper(s[|s| - 1]) then [s[|s| - 1]] else [])
  }

  /** The element of each term, in order. */
  function ElementSeq(ts: seq<Term>): (r: seq<char>)
    ensures |r| == |ts|
    ensures forall i :: 0 <= i < |ts| ==> r[i] == ts[i].element
  {
    if ts == [] then [] else ElementSeq(ts[..|ts| - 1]) + [ts[|ts| - 1].element]
  }

  /** The set of elements present. */
  function Elements(ts: seq<Term>): set<char>
  {
    set e | e in ElementSeq(ts)
  }

  predicate UpperElements(ts: seq<Term>) {
    forall i :: 0 <= i < |ts| ==> IsUpper(ts[i].element)
  }

  predicate PositiveCounts(ts: seq<Term>) {
    forall i :: 0 <= i < |ts| ==> ts[i].count >= 1
  }

  /** The total number of atoms of element e: the sum of the counts of the
      terms for e. It is 0 for an absent element, and (when every count is
      positive) non-zero for a present one. */
  function Count(ts: seq<Term>, e: char): (n: nat)
    ensures e !in Elements(ts) ==> n == 0
    ensures PositiveCounts(ts) && e in Elements(ts) ==> n > 0
  {
    if ts == [] then 0
    else
      var init := ts[..|ts| - 1];
      assert ElementSeq(ts) == ElementSeq(init) + [ts[|ts| - 1].element];
      Count(init, e) + (if ts[|ts| - 1].element == e then ts[|ts| - 1].count else 0)
  }

  /** The text of the terms in order, each written by TermText. */
  function DisplayTerms(ts: seq<Term>): string
  {
    if ts == [] then [] else DisplayTerms(ts[..|ts| - 1]) + TermText(ts[|ts| - 1])
  }

  predicate StrictlyIncreasing(cs: seq<char>) {
    forall i, j :: 0 <= i < j < |cs| ==> cs[i] < cs[j]
  }

  /** cs with c added in its place, unless c is there already. */
  function Insert(c: char, cs: seq<char>): (r: seq<char>)
    requires StrictlyIncreasing(cs)
    ensures StrictlyIncreasing(r)
    ensures forall x :: x in r <==> x == c || x in cs
  {
    if cs == [] then [c]
    else if c < cs[0] then [c] + cs
    else if c == cs[0] then cs
    else
      var rest := Insert(c, cs[1..]);
      assert forall x :: x in cs[1..] ==> cs[0] < x;
      [cs[0]] + rest
  }

  /** The distinct characters of cs in ascending order: what standardise makes
      of its element list by sorting it and dropping duplicates. */
  function SortedDistinct(cs: seq<char>): (r: seq<char>)
    ensures StrictlyIncreasing(r)
    ensures forall x :: x in r <==> x in cs
  {
    if cs == [] then []
    else
      assert cs == cs[..|cs| - 1] + [cs[|cs| - 1]];
      Insert(cs[|cs| - 1], SortedDistinct(cs[..|cs| - 1]))
  }

  /** The standardised form: one term per element present, in alphabetical
      order, each with that element's total count. */
  function Standardised(ts: seq<Term>): (r: seq<Term>)
    ensures StrictlyIncreasing(ElementSeq(r))
    ensures Elements(r) == Elements(ts)
  {
    var es := SortedDistinct(ElementSeq(ts));
    var r := seq(|es|, j requires 0 <= j < |es| => Term(es[j], Count(ts, es[j])));
    ElementSeqIs(r, es);
    SameMembers(es, ElementSeq(ts));
    r
  }

  /** A term list whose elements are, position by position, es. */
  lemma ElementSeqIs(r: seq<Term>, es: seq<char>)
    requires |r| == |es| && forall j :: 0 <= j < |r| ==> r[j].element == es[j]
    ensures ElementSeq(r) == es
  {
  }

  lemma SameMembers(a: seq<char>, b: seq<char>)
    requires forall x :: x in a <==> x in b
    ensures (set e | e in a) == (set e | e in b)
  {
  }

  /** The standardised form has one term per distinct element, in the order
      of SortedDistinct, carrying that element's total count. */
  lemma StandardisedAt(ts: seq<Term>, j: nat)
    requires j < |SortedDistinct(ElementSeq(ts))|
    ensures |Standardised(ts)| == |SortedDistinct(ElementSeq(ts))|
    ensures Standardised(ts)[j] ==
      Term(SortedDistinct(ElementSeq(ts))[j], Count(ts, SortedDistinct(ElementSeq(ts))[j]))
  {
  }

  lemma StandardisedLength(ts: seq<Term>)
    ensures |Standardised(ts)| == |SortedDistinct(ElementSeq(ts))|
  {
  }

  /** Two term lists are isomers: the same elements, with the same count of each. */
  ghost predicate SameAtoms(a: seq<Term>, b: seq<Term>) {
    Elements(a) == Elements(b) && SameCounts(a, b)
  }

  /** Every element has the same count in both lists. */
  ghost predicate SameCounts(a: seq<Term>, b: seq<Term>) {
    forall e :: Count(a, e) == Count(b, e)
  }

  // ---------------------------------------------------------------------------
  // Tokenising

  /** The step of the tokenising scan: the letter at lo, followed by no letter
      before hi, closes the term s[lo..hi]. */
  lemma TokeniseStep(s: string, lo: nat, hi: nat)
    requires IsFormulaText(s)
    requires lo < hi <= |s|
    requires IsUpper(s[lo])
    requires forall j :: lo < j < hi ==> !IsUpper(s[j])
    ensures IsTermText(s[lo..hi])
    ensures Tokenise(s[..hi]) == Tokenise(s[..lo]) + [ParseTerm(s[lo..hi])]
  {
    var p := s[..hi];
    assert IsFormulaText(p);
    LastUpperAt(p, lo);
    assert p[..lo] == s[..lo];
    assert p[lo..] == s[lo..hi];
  }

  /** The state of the constructor's scan of formula text s: it is at i, the
      current term started at the letter at lastIndex, no letter has been seen
      since, and ts holds the terms before lastIndex. */
  ghost predicate TokenScan(s: string, lastIndex: nat, i: nat, ts: seq<Term>) {
    IsFormulaText(s) && lastIndex < i <= |s| && IsUpper(s[lastIndex]) &&
    (forall j :: lastIndex < j < i ==> !IsUpper(s[j])) &&
    ts == Tokenise(s[..lastIndex])
  }

  lemma ScanStart(s: string)
    requires IsFormulaText(s)
    ensures TokenScan(s, 0, 1, [])
  {
    assert s[..0] == [];
  }

  /** Passing a digit. */
  lemma ScanSkip(s: string, lastIndex: nat, i: nat, ts: seq<Term>)
    requires TokenScan(s, lastIndex, i, ts) && i < |s| && !IsUpper(s[i])
    ensures TokenScan(s, lastIndex, i + 1, ts)
  {
  }

  /** Reaching a letter closes the current term. */
  lemma ScanCut(s: string, lastIndex: nat, i: nat, ts: seq<Term>)
    requires TokenScan(s, lastIndex, i, ts) && i < |s| && IsUpper(s[i])
    ensures IsTermText(s[lastIndex..i])
    ensures TokenScan(s, i, i + 1, ts + [ParseTerm(s[lastIndex..i])])
  {
    TokeniseStep(s, lastIndex, i);
  }

  /** Reaching the end closes the last term, and the scan has the terms of s. */
  lemma ScanEnd(s: string, lastIndex: nat, ts: seq<Term>)
    requires TokenScan(s, lastIndex, |s|, ts)
    ensures IsTermText(s[lastIndex..])
    ensures ts + [ParseTerm(s[lastIndex..])] == Tokenise(s)
  {
    TokeniseStep(s, lastIndex, |s|);
    assert s[..|s|] == s && s[lastIndex..|s|] == s[lastIndex..];
  }

  /** The elements of a prefix one longer. */
  lemma ElementSeqSnoc(ts: seq<Term>, i: nat)
    requires i < |ts|
    ensures ElementSeq(ts[..i + 1]) == ElementSeq(ts[..i]) + [ts[i].element]
  {
    assert ts[..i + 1][..i] == ts[..i];
  }

  lemma FormulaTextPrefix(s: string, k: nat)
    requires IsFormulaText(s)
    requires 0 < k <= |s|
    ensures IsFormulaText(s[..k])
  {
  }

  lemma {:induction false} UpperLettersLast(s: string, k: nat)
    requires k < |s|
    requires IsUpper(s[k])
    requires forall j :: k < j < |s| ==> !IsUpper(s[j])
    ensures UpperLetters(s) == UpperLetters(s[..k]) + [s[k]]
    decreases |s|
  {
    if k < |s| - 1 {
      UpperLettersLast(s[..|s| - 1], k);
      assert s[..|s| - 1][..k] == s[..k];
    } else {
      assert s[..|s| - 1] == s[..k];
    }
  }

  /** Each upper-case letter of the text begins a term of its own, and the
      terms come in the order of their letters. */
  lemma {:induction false} TokeniseElements(s: string)
    requires s == [] || IsFormulaText(s)
    ensures ElementSeq(Tokenise(s)) == UpperLetters(s)
    ensures |Tokenise(s)| == |UpperLetters(s)|
    decreases |s|
  {
    if s != [] {
      var k := LastUpper(s);
      LastUpperSpec(s);
      assert IsUpper(s[0]);
      TokeniseElements(s[..k]);
      UpperLettersLast(s, k);
      var ts := Tokenise(s);
      assert ts[..|ts| - 1] == Tokenise(s[..k]);
    }
  }

  /** Legal formula text has at least one term, and every term's element is
      an upper-case letter. */
  lemma {:induction false} TokeniseWellFormed(s: string)
    requires IsFormulaText(s)
    ensures |Tokenise(s)| >= 1 && UpperElements(Tokenise(s))
  {
    TokeniseElements(s);
    UpperLettersUpper(s);
    var ts := Tokenise(s);
    forall i | 0 <= i < |ts| ensures IsUpper(ts[i].element) {
      assert ElementSeq(ts)[i] == ts[i].element;
    }
    LastUpperSpec(s);
    assert |Tokenise(s)| >= 1;
  }

  lemma {:induction false} UpperLettersUpper(s: string)
    ensures forall i :: 0 <= i < |UpperLetters(s)| ==> IsUpper(UpperLetters(s)[i])
  {
    if s != [] {
      UpperLettersUpper(s[..|s| - 1]);
    }
  }

  /** A text ending in a letter has its last letter shifted by a prefix. */
  lemma LastUpperShift(u: string, r: string)
    requires LastUpper(r) >= 0
    ensures LastUpper(u + r) == |u| + LastUpper(r)
  {
    LastUpperSpec(r);
    var k := LastUpper(r);
    var s := u + r;
    assert s[|u| + k] == r[k];
    forall j | |u| + k < j < |s| ensures !IsUpper(s[j]) {
      assert s[j] == r[j - |u|];
    }
    LastUpperAt(s, |u| + k);
  }

  lemma FormulaTextConcat(u: string, r: string)
    requires IsFormulaText(u)
    requires r == [] || IsFormulaText(r)
    ensures IsFormulaText(u + r)
  {
    var s := u + r;
    forall i | 0 <= i < |s| ensures IsUpper(s[i]) || IsDigit(s[i]) {
      if i >= |u| {
        assert s[i] == r[i - |u|];
      }
    }
  }

  lemma TokeniseUnfold(s: string)
    requires IsFormulaText(s)
    ensures 0 <= LastUpper(s)
    ensures IsTermText(s[LastUpper(s)..])
    ensures s[..LastUpper(s)] == [] || IsFormulaText(s[..LastUpper(s)])
    ensures Tokenise(s) == Tokenise(s[..LastUpper(s)]) + [ParseTerm(s[LastUpper(s)..])]
  {
    LastUpperSpec(s);
    var k := LastUpper(s);
    assert IsUpper(s[0]);
    assert forall i :: 0 <= i < |s[k..][1..]| ==> s[k..][1..][i] == s[k + 1 + i];
  }

  /** Term text on its own is one term. */
  lemma TokeniseSingle(u: string)
    requires IsTermText(u)
    ensures IsFormulaText(u) && Tokenise(u) == [ParseTerm(u)]
  {
    AppendTermText([], u);
    assert [] + u == u;
    TokeniseUnfold(u);
    assert u[..0] == [] && u[0..] == u;
  }

  /** Term text in front of formula text contributes exactly its own term,
      ahead of the terms of the rest. */
  lemma {:induction false} TokenisePrepend(u: string, r: string)
    requires IsTermText(u)
    requires r == [] || IsFormulaText(r)
    ensures IsFormulaText(u + r)
    ensures Tokenise(u + r) == [ParseTerm(u)] + Tokenise(r)
    decreases |r|
  {
    TokeniseSingle(u);
    FormulaTextConcat(u, r);
    if r == [] {
      assert u + r == u;
    } else {
      var k := LastUpper(r);
      TokeniseUnfold(r);
      TokenisePrepend(u, r[..k]);
      LastUpperShift(u, r);
      ConcatSlices(u, r, k);
      TokeniseUnfold(u + r);
      SeqAssoc([ParseTerm(u)], Tokenise(r[..k]), [ParseTerm(r[k..])]);
    }
  }

  lemma LastUpperExample()
    ensures LastUpper("AX3YM67") == 4
  {
    var s := "AX3YM67";
    assert IsUpper(s[4]) && !IsUpper(s[5]) && !IsUpper(s[6]);
  }

  // ---------------------------------------------------------------------------
  // Counting and display

  lemma {:induction false} CountConcat(a: seq<Term>, b: seq<Term>, e: char)
    ensures Count(a + b, e) == Count(a, e) + Count(b, e)
    decreases |b|
  {
    if b == [] {
      assert a + b == a;
    } else {
      assert (a + b)[..|a + b| - 1] == a + b[..|b| - 1];
      CountConcat(a, b[..|b| - 1], e);
    }
  }

  lemma CountExample()
    ensures var ts := [Term('W', 2), Term('X', 1), Term('W', 5)];
      Count(ts, 'W') == 7 && Count(ts, 'X') == 1 && Count(ts, 'Q') == 0
  {
    var ts := [Term('W', 2), Term('X', 1), Term('W', 5)];
    assert ts[..2] == [Term('W', 2), Term('X', 1)];
    assert ts[..2][..1] == [Term('W', 2)];
  }

  lemma AppendTermChars(d: string, u: string)
    requires d == [] || IsFormulaText(d)
    requires IsTermText(u)
    ensures IsFormulaText(d + u)
    ensures IsUpper((d + u)[|d|])
    ensures forall j :: |d| < j < |d + u| ==> IsDigit((d + u)[j])
  {
    var s := d + u;
    forall i | 0 <= i < |s| ensures IsUpper(s[i]) || IsDigit(s[i]) {
      if i < |d| {
        assert s[i] == d[i];
      } else if i > |d| {
        assert s[i] == u[1..][i - |d| - 1];
      }
    }
    forall j | |d| < j < |s| ensures IsDigit(s[j]) {
      assert s[j] == u[1..][j - |d| - 1];
    }
  }

  lemma AppendTermText(d: string, u: string)
    requires d == [] || IsFormulaText(d)
    requires IsTermText(u)
    ensures IsFormulaText(d + u)
    ensures LastUpper(d + u) == |d|
  {
    AppendTermChars(d, u);
    LastUpperAt(d + u, |d|);
  }

  /** Appending the text of a term to formula text appends that term. */
  lemma TokeniseAppendTerm(d: string, t: Term)
    requires d == [] || IsFormulaText(d)
    requires IsUpper(t.element)
    ensures IsFormulaText(d + TermText(t))
    ensures Tokenise(d + TermText(t)) == Tokenise(d) + [t]
  {
    var tt := TermText(t);
    ParseTermText(t);
    AppendTermText(d, tt);
    ConcatSlices(d, tt, 0);
  }

  /** Parsing the display of a term list gives the list back. Counts of 1,
      which the display leaves out, come back as 1. */
  lemma {:induction false} DisplayRoundTrip(ts: seq<Term>)
    requires UpperElements(ts)
    ensures DisplayTerms(ts) == [] || IsFormulaText(DisplayTerms(ts))
    ensures Tokenise(DisplayTerms(ts)) == ts
  {
    if ts != [] {
      var init, last := ts[..|ts| - 1], ts[|ts| - 1];
      assert UpperElements(init) && IsUpper(last.element);
      DisplayRoundTrip(init);
      TokeniseAppendTerm(DisplayTerms(init), last);
      PrefixSnoc(ts, |ts| - 1);
    }
  }

  lemma DisplaySnoc(ts: seq<Term>, t: Term)
    ensures DisplayTerms(ts + [t]) == DisplayTerms(ts) + TermText(t)
  {
    assert (ts + [t])[..|ts|] == ts;
  }

  /** The display of two lists one after the other is the two displays one
      after the other. */
  lemma {:induction false} DisplayConcat(a: seq<Term>, b: seq<Term>)
    ensures DisplayTerms(a + b) == DisplayTerms(a) + DisplayTerms(b)
    decreases |b|
  {
    if b == [] {
      assert a + b == a;
    } else {
      var init, last := b[..|b| - 1], b[|b| - 1];
      DisplayConcat(a, init);
      PrefixSnoc(b, |b| - 1);
      assert b == init + [last];
      SeqAssoc(a, init, [last]);
      DisplaySnoc(a + init, last);
      DisplaySnoc(init, last);
      SeqAssoc(DisplayTerms(a), DisplayTerms(init), TermText(last));
    }
  }

  lemma TermTextExamples()
    ensures TermText(Term('B', 22)) == "B22" && TermText(Term('M', 67)) == "M67"
    ensures TermText(Term('D', 3)) == "D3" && TermText(Term('E', 1)) == "E"
    ensures TermText(Term('A', 1)) == "A" && TermText(Term('X', 3)) == "X3" && TermText(Term('Y', 1)) == "Y"
    ensures TermText(Term('B', 2)) == "B2" && TermText(Term('C', 4)) == "C4"
    ensures TermText(Term('H', 2)) == "H2" && TermText(Term('O', 2)) == "O2"
    ensures TermText(Term('O', 1)) == "O" && TermText(Term('H', 4)) == "H4"
  {
    assert NatToString(22) == NatToString(2) + [DigitChar(2)];
    assert NatToString(67) == NatToString(6) + [DigitChar(7)];
  }

  lemma DisplayExample()
    ensures DisplayTerms([Term('B', 22), Term('E', 1), Term('D', 3)]) == "B22ED3"
  {
    var b, e, d := Term('B', 22), Term('E', 1), Term('D', 3);
    TermTextExamples();
    DisplaySnoc([], b);
    DisplaySnoc([b], e);
    DisplaySnoc([b, e], d);
    assert [] + [b] == [b] && [b] + [e] == [b, e] && [b, e] + [d] == [b, e, d];
  }

  lemma DisplayTokensExample()
    ensures DisplayTerms([Term('A', 1), Term('X', 3), Term('Y', 1), Term('M', 67)]) == "AX3YM67"
  {
    var a, x, y, m := Term('A', 1), Term('X', 3), Term('Y', 1), Term('M', 67);
    TermTextExamples();
    DisplaySnoc([], a);
    DisplaySnoc([a], x);
    DisplaySnoc([a, x], y);
    DisplaySnoc([a, x, y], m);
    assert [] + [a] == [a] && [a] + [x] == [a, x] && [a, x] + [y] == [a, x, y];
    assert [a, x, y] + [m] == [a, x, y, m];
  }

  /** The constructor's example: "AX3YM67" is the terms A, X3, Y and M67. */
  lemma TokeniseExample()
    ensures Tokenise("AX3YM67") == [Term('A', 1), Term('X', 3), Term('Y', 1), Term('M', 67)]
  {
    var ts := [Term('A', 1), Term('X', 3), Term('Y', 1), Term('M', 67)];
    DisplayTokensExample();
    assert UpperElements(ts);
    DisplayRoundTrip(ts);
  }

  // ---------------------------------------------------------------------------
  // Standardisation

  lemma StrictlyIncreasingTail(s: seq<char>, x: char)
    requires StrictlyIncreasing(s) && s != []
    ensures x in s[1..] <==> x in s && x != s[0]
  {
    if x in s && x != s[0] {
      var i :| 0 <= i < |s| && s[i] == x;
      assert s[1..][i - 1] == x;
    }
  }

  /** A strictly increasing sequence is determined by its members. */
  lemma {:induction false} SortedUnique(a: seq<char>, b: seq<char>)
    requires StrictlyIncreasing(a) && StrictlyIncreasing(b)
    requires forall x :: x in a <==> x in b
    ensures a == b
    decreases |a|
  {
    assert a == [] || a[0] in a;
    assert b == [] || b[0] in b;
    if a != [] && b != [] {
      assert a[0] in b && b[0] in a;
      var i :| 0 <= i < |a| && a[i] == b[0];
      var j :| 0 <= j < |b| && b[j] == a[0];
      assert a[0] <= b[0] && b[0] <= a[0];
      forall x ensures x in a[1..] <==> x in b[1..] {
        StrictlyIncreasingTail(a, x);
        StrictlyIncreasingTail(b, x);
      }
      SortedUnique(a[1..], b[1..]);
      assert a == [a[0]] + a[1..] && b == [b[0]] + b[1..];
    }
  }

  /** In a term list with strictly increasing elements, the count of a term's
      element is that term's count. */
  lemma {:induction false} CountDistinct(us: seq<Term>, j: nat)
    requires StrictlyIncreasing(ElementSeq(us))
    requires j < |us|
    ensures Count(us, us[j].element) == us[j].count
    decreases |us|
  {
    var init := us[..|us| - 1];
    var last := us[|us| - 1];
    assert StrictlyIncreasing(ElementSeq(init)) by {
      assert forall i :: 0 <= i < |init| ==> ElementSeq(init)[i] == ElementSeq(us)[i];
    }
    if j == |us| - 1 {
      assert forall i :: 0 <= i < |init| ==> ElementSeq(init)[i] < last.element by {
        assert forall i :: 0 <= i < |init| ==> ElementSeq(init)[i] == ElementSeq(us)[i];
      }
      assert last.element !in Elements(init);
    } else {
      assert ElementSeq(us)[j] < ElementSeq(us)[|us| - 1];
      CountDistinct(init, j);
      assert init[j] == us[j];
    }
  }

  /** Standardising keeps the count of every element. */
  lemma StandardisedCounts(ts: seq<Term>, e: char)
    ensures Count(Standardised(ts), e) == Count(ts, e)
  {
    var r := Standardised(ts);
    if e in Elements(ts) {
      var es := SortedDistinct(ElementSeq(ts));
      assert e in es;
      var j :| 0 <= j < |es| && es[j] == e;
      assert r[j] == Term(e, Count(ts, e));
      CountDistinct(r, j);
    }
  }

  /** After standardising, each element present has exactly one term. */
  lemma StandardisedOneTermEach(ts: seq<Term>, e: char)
    requires e in Elements(ts)
    ensures exists j :: 0 <= j < |Standardised(ts)| && Standardised(ts)[j].element == e
    ensures forall i, j ::
      (0 <= i < |Standardised(ts)| && 0 <= j < |Standardised(ts)| &&
       Standardised(ts)[i].element == e && Standardised(ts)[j].element == e) ==> i == j
  {
    var r := Standardised(ts);
    var er := ElementSeq(r);
    assert e in Elements(r);
    var j :| 0 <= j < |er| && er[j] == e;
    assert r[j].element == e;
    forall i, k | 0 <= i < |r| && 0 <= k < |r| && r[i].element == e && r[k].element == e
      ensures i == k
    {
      assert er[i] == e && er[k] == e;
    }
  }

  /** Standardising a standardised list changes nothing. */
  lemma StandardisedIdempotent(ts: seq<Term>)
    ensures Standardised(Standardised(ts)) == Standardised(ts)
  {
    var r := Standardised(ts);
    var es := SortedDistinct(ElementSeq(ts));
    assert ElementSeq(r) == es;
    SortedUnique(SortedDistinct(ElementSeq(r)), ElementSeq(r));
    var r2 := Standardised(r);
    assert |r2| == |r|;
    forall j | 0 <= j < |r| ensures r2[j] == r[j] {
      StandardisedCounts(ts, es[j]);
    }
  }

  /** Two term lists standardise to the same list exactly when they are isomers. */
  lemma StandardisedSameAtoms(a: seq<Term>, b: seq<Term>)
    ensures Standardised(a) == Standardised(b) <==> SameAtoms(a, b)
  {
    if SameAtoms(a, b) {
      forall x ensures x in SortedDistinct(ElementSeq(a)) <==> x in SortedDistinct(ElementSeq(b)) {
        assert x in Elements(a) <==> x in ElementSeq(a);
        assert x in Elements(b) <==> x in ElementSeq(b);
      }
      SortedUnique(SortedDistinct(ElementSeq(a)), SortedDistinct(ElementSeq(b)));
    }
    if Standardised(a) == Standardised(b) {
      forall e ensures Count(a, e) == Count(b, e) {
        StandardisedCounts(a, e);
        StandardisedCounts(b, e);
      }
    }
  }

  lemma StandardisedUpper(ts: seq<Term>)
    requires UpperElements(ts)
    ensures UpperElements(Standardised(ts))
  {
    var r := Standardised(ts);
    forall i | 0 <= i < |r| ensures IsUpper(r[i].element) {
      assert ElementSeq(r)[i] in Elements(r);
      var j :| 0 <= j < |ts| && ElementSeq(ts)[j] == r[i].element;
    }
  }

  lemma SortedDistinctExample()
    ensures SortedDistinct("CDBDC") == "BCD"
  {
    assert StrictlyIncreasing("BCD");
    SortedUnique(SortedDistinct("CDBDC"), "BCD");
  }

  lemma CountsExample(ts: seq<Term>)
    requires ts == [Term('C', 3), Term('D', 1), Term('B', 2), Term('D', 2), Term('C', 1)]
    ensures ElementSeq(ts) == "CDBDC"
    ensures Count(ts, 'B') == 2 && Count(ts, 'C') == 4 && Count(ts, 'D') == 3
  {
    var t4 := [Term('C', 3), Term('D', 1), Term('B', 2), Term('D', 2)];
    var t3 := [Term('C', 3), Term('D', 1), Term('B', 2)];
    var t2 := [Term('C', 3), Term('D', 1)];
    assert ts[..4] == t4 && t4[..3] == t3 && t3[..2] == t2 && t2[..1] == [Term('C', 3)];
  }

  /** The standardise example: C3 D B2 D2 C becomes B2 C4 D3. */
  lemma StandardisedExample(ts: seq<Term>)
    requires ts == [Term('C', 3), Term('D', 1), Term('B', 2), Term('D', 2), Term('C', 1)]
    ensures Standardised(ts) == [Term('B', 2), Term('C', 4), Term('D', 3)]
  {
    CountsExample(ts);
    SortedDistinctExample();
    var r := Standardised(ts);
    assert |r| == 3 && r[0] == Term('B', 2) && r[1] == Term('C', 4) && r[2] == Term('D', 3);
  }

  lemma StandardisedDisplayExample()
    ensures DisplayTerms([Term('B', 2), Term('C', 4), Term('D', 3)]) == "B2C4D3"
  {
    var b, c, d := Term('B', 2), Term('C', 4), Term('D', 3);
    TermTextExamples();
    DisplaySnoc([], b);
    DisplaySnoc([b], c);
    DisplaySnoc([b, c], d);
    assert [] + [b] == [b] && [b] + [c] == [b, c] && [b, c] + [d] == [b, c, d];
  }

  // ---------------------------------------------------------------------------
  // Isomers

  /** The isomer test, which compares the displays of the two standardised
      lists, holds exactly when the lists have the same elements with the same
      counts. */
  lemma IsomerIff(a: seq<Term>, b: seq<Term>)
    requires UpperElements(a) && UpperElements(b)
    ensures DisplayTerms(Standardised(a)) == DisplayTerms(Standardised(b)) <==> SameAtoms(a, b)
  {
    StandardisedSameAtoms(a, b);
    StandardisedUpper(a);
    StandardisedUpper(b);
    DisplayRoundTrip(Standardised(a));
    DisplayRoundTrip(Standardised(b));
  }

  /** With positive counts, the isomer test holds exactly when every element
      has the same count in both lists. */
  lemma IsomerCountsIff(a: seq<Term>, b: seq<Term>)
    requires UpperElements(a) && UpperElements(b)
    requires PositiveCounts(a) && PositiveCounts(b)
    ensures DisplayTerms(Standardised(a)) == DisplayTerms(Standardised(b)) <==> SameCounts(a, b)
  {
    IsomerIff(a, b);
    SameAtomsIffCounts(a, b);
  }

  /** With positive counts, two lists are isomers exactly when every element
      has the same count in both. */
  lemma SameAtomsIffCounts(a: seq<Term>, b: seq<Term>)
    requires PositiveCounts(a) && PositiveCounts(b)
    ensures SameAtoms(a, b) <==> SameCounts(a, b)
  {
    if SameCounts(a, b) {
      SameAtomsPositive(a, b);
    }
  }

  /** With positive counts, equal counts of every element are enough to be
      isomers: an element is present exactly when its count is non-zero. */
  lemma SameAtomsPositive(a: seq<Term>, b: seq<Term>)
    requires PositiveCounts(a) && PositiveCounts(b)
    requires SameCounts(a, b)
    ensures SameAtoms(a, b)
  {
    forall e ensures e in Elements(a) <==> e in Elements(b) {
      assert Count(a, e) == Count(b, e);
    }
    assert Elements(a) == Elements(b);
  }
}
