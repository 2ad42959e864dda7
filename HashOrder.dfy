/** The order in which standardise actually lays out its terms. After sorting
    the element list it copies it through a java.util.HashSet, whose iteration
    order is the order of the hash table's buckets: a Character hashes to its
    code, and the bucket is the code modulo the table capacity, a power of
    two chosen from the number of elements copied in, duplicates included.
    Inside one bucket the elements keep their insertion order, which is the
    sorted order. This module models that layout and shows that it makes the
    isomer test depend on how a formula is written, not only on its atoms. */
module HashOrder {
  import opened Terms
  import opened FormulaSpec

  /** The smallest power of two that is at least x (HashMap.tableSizeFor). */
  function PowerOfTwoAtLeast(x: nat): (p: nat)
    ensures p >= 1 && p >= x
    decreases x
  {
    if x <= 1 then 1 else 2 * PowerOfTwoAtLeast((x + 1) / 2)
  }

  /** The table capacity of new HashSet<>(c) for a collection of n elements:
      the requested capacity is max(n / 0.75 + 1, 16), rounded up to a power
      of two. The division is exact here rather than in float. */
  function HashCapacity(n: nat): (cap: nat)
    ensures cap >= 16
  {
    var requested := 4 * n / 3 + 1;
    PowerOfTwoAtLeast(if requested < 16 then 16 else requested)
  }

  /** The bucket of element c in a table of capacity cap. */
  function Bucket(c: char, cap: nat): nat
    requires cap >= 1
  {
    c as int % cap
  }

  /** cs with c placed after every element whose bucket is not after c's. */
  function InsertByBucket(c: char, cs: seq<char>, cap: nat): (r: seq<char>)
    requires cap >= 1
    ensures multiset(r) == multiset(cs) + multiset{c}
  {
    if cs == [] then [c]
    else if Bucket(c, cap) < Bucket(cs[0], cap) then [c] + cs
    else
      assert cs == [cs[0]] + cs[1..];
      [cs[0]] + InsertByBucket(c, cs[1..], cap)
  }

  /** The iteration order of a hash set of capacity cap filled with the
      elements of cs in order: by bucket, and by insertion order in a bucket. */
  function IterationOrder(cs: seq<char>, cap: nat): (r: seq<char>)
    requires cap >= 1
    ensures multiset(r) == multiset(cs)
  {
    if cs == [] then []
    else
      assert cs == cs[..|cs| - 1] + [cs[|cs| - 1]];
      InsertByBucket(cs[|cs| - 1], IterationOrder(cs[..|cs| - 1], cap), cap)
  }

  /** standardise as written: one term per element with its total count, in
      the iteration order of the hash set built from the sorted element list. */
  function StandardisedAsWritten(ts: seq<Term>): (r: seq<Term>)
    ensures forall t :: t in r ==> t.count == Count(ts, t.element)
  {
    var es := IterationOrder(SortedDistinct(ElementSeq(ts)), HashCapacity(|ts|));
    seq(|es|, j requires 0 <= j < |es| => Term(es[j], Count(ts, es[j])))
  }

  /** Every term standardise produces as written is a term of the
      alphabetical standardisation. */
  lemma AsWrittenInSorted(ts: seq<Term>, t: Term)
    requires t in StandardisedAsWritten(ts)
    ensures t in Standardised(ts)
  {
    var d := SortedDistinct(ElementSeq(ts));
    var es := IterationOrder(d, HashCapacity(|ts|));
    var r := StandardisedAsWritten(ts);
    var j :| 0 <= j < |r| && r[j] == t;
    assert es[j] in multiset(d);
    var k :| 0 <= k < |d| && d[k] == es[j];
    StandardisedAt(ts, k);
  }

  /** Every term of the alphabetical standardisation is produced by
      standardise as written. */
  lemma SortedInAsWritten(ts: seq<Term>, t: Term)
    requires t in Standardised(ts)
    ensures t in StandardisedAsWritten(ts)
  {
    var d := SortedDistinct(ElementSeq(ts));
    var es := IterationOrder(d, HashCapacity(|ts|));
    var std := Standardised(ts);
    StandardisedLength(ts);
    var k :| 0 <= k < |std| && std[k] == t;
    StandardisedAt(ts, k);
    assert d[k] in multiset(es);
    var j :| 0 <= j < |es| && es[j] == d[k];
    var r := StandardisedAsWritten(ts);
    assert |r| == |es| && r[j] == Term(es[j], Count(ts, es[j]));
  }

  /** As written, standardise produces the same terms as the alphabetical
      standardisation, only possibly in another order. */
  lemma AsWrittenSameTerms(ts: seq<Term>)
    ensures |StandardisedAsWritten(ts)| == |Standardised(ts)|
    ensures forall t :: t in StandardisedAsWritten(ts) <==> t in Standardised(ts)
  {
    var d := SortedDistinct(ElementSeq(ts));
    assert |IterationOrder(d, HashCapacity(|ts|))| == |d| by {
      assert |multiset(IterationOrder(d, HashCapacity(|ts|)))| == |multiset(d)|;
    }
    StandardisedLength(ts);
    forall t ensures t in StandardisedAsWritten(ts) <==> t in Standardised(ts) {
      if t in StandardisedAsWritten(ts) {
        AsWrittenInSorted(ts, t);
      }
      if t in Standardised(ts) {
        SortedInAsWritten(ts, t);
      }
    }
  }

  /** The display of a non-empty term list starts with its first element. */
  lemma {:induction false} DisplayFirst(ts: seq<Term>)
    requires ts != []
    ensures |DisplayTerms(ts)| >= 1 && DisplayTerms(ts)[0] == ts[0].element
  {
    if |ts| > 1 {
      DisplayFirst(ts[..|ts| - 1]);
    }
  }

  /** n terms of one atom of c each. */
  function Atoms(c: char, n: nat): (r: seq<Term>)
    ensures |r| == n
    ensures forall i :: 0 <= i < n ==> r[i] == Term(c, 1)
  {
    if n == 0 then [] else Atoms(c, n - 1) + [Term(c, 1)]
  }

  lemma {:induction false} AtomsCount(c: char, n: nat, e: char)
    ensures Count(Atoms(c, n), e) == if e == c then n else 0
  {
    if n > 0 {
      assert Atoms(c, n)[..n - 1] == Atoms(c, n - 1);
      AtomsCount(c, n - 1, e);
    }
  }

  lemma ElementSeqConcat(a: seq<Term>, b: seq<Term>)
    ensures ElementSeq(a + b) == ElementSeq(a) + ElementSeq(b)
  {
    var l, r := ElementSeq(a + b), ElementSeq(a) + ElementSeq(b);
    assert |l| == |r|;
    forall i | 0 <= i < |l| ensures l[i] == r[i] {
      if i >= |a| {
        assert (a + b)[i] == b[i - |a|];
      }
    }
  }

  /** The elements of n atoms of c are all c. */
  lemma AtomsElements(c: char, n: nat)
    ensures forall x :: x in ElementSeq(Atoms(c, n)) <==> n > 0 && x == c
  {
    var es := ElementSeq(Atoms(c, n));
    if n > 0 {
      assert es[0] == c;
    }
  }

  /** "A13P" is the terms A13 and P. */
  function Compact(): seq<Term> { [Term('A', 13), Term('P', 1)] }

  /** "AAAAAAAAAAAAAP" is thirteen terms A and a term P. */
  function Spelled(): seq<Term> { Atoms('A', 13) + [Term('P', 1)] }

  lemma SpelledCounts(e: char)
    ensures Count(Spelled(), e) == Count(Compact(), e)
  {
    CountConcat(Atoms('A', 13), [Term('P', 1)], e);
    AtomsCount('A', 13, e);
    assert Compact()[..1] == [Term('A', 13)];
  }

  /** A character list with exactly the members A and P sorts to "AP". */
  lemma SortedAP(cs: seq<char>)
    requires forall x :: x in cs <==> x == 'A' || x == 'P'
    ensures SortedDistinct(cs) == "AP"
  {
    assert StrictlyIncreasing("AP");
    assert forall x :: x in "AP" <==> x == 'A' || x == 'P';
    SortedUnique(SortedDistinct(cs), "AP");
  }

  lemma SpelledMembers()
    ensures forall x :: x in ElementSeq(Spelled()) <==> x == 'A' || x == 'P'
  {
    ElementSeqConcat(Atoms('A', 13), [Term('P', 1)]);
    AtomsElements('A', 13);
    assert ElementSeq([Term('P', 1)]) == "P";
  }

  lemma SpelledElements()
    ensures SortedDistinct(ElementSeq(Spelled())) == "AP"
    ensures SortedDistinct(ElementSeq(Compact())) == "AP"
  {
    SpelledMembers();
    SortedAP(ElementSeq(Spelled()));
    assert ElementSeq(Compact()) == "AP";
    SortedAP(ElementSeq(Compact()));
  }

  /** The two writings of the same atoms are isomers. */
  lemma CompactSpelledIsomers()
    ensures SameAtoms(Compact(), Spelled())
  {
    forall e ensures Count(Compact(), e) == Count(Spelled(), e) {
      SpelledCounts(e);
    }
    SpelledElements();
    assert Elements(Compact()) == Elements(Spelled()) by {
      forall x ensures x in ElementSeq(Compact()) <==> x in ElementSeq(Spelled()) {
        assert x in SortedDistinct(ElementSeq(Compact())) <==> x in ElementSeq(Compact());
      }
    }
  }

  lemma CapacityTwo()
    ensures HashCapacity(2) == 16
  {
    assert PowerOfTwoAtLeast(1) == 1;
    assert PowerOfTwoAtLeast(2) == 2;
    assert PowerOfTwoAtLeast(4) == 4;
    assert PowerOfTwoAtLeast(8) == 8;
    assert PowerOfTwoAtLeast(16) == 16;
  }

  lemma CapacityFourteen()
    ensures HashCapacity(14) == 32
  {
    assert PowerOfTwoAtLeast(1) == 1;
    assert PowerOfTwoAtLeast(2) == 2;
    assert PowerOfTwoAtLeast(3) == 4;
    assert PowerOfTwoAtLeast(5) == 8;
    assert PowerOfTwoAtLeast(10) == 16;
    assert PowerOfTwoAtLeast(19) == 32;
  }

  lemma OrderAP(cs: seq<char>, cap: nat)
    requires cs == ['A', 'P'] && (cap == 16 || cap == 32)
    ensures IterationOrder(cs, cap) == if cap == 16 then ['P', 'A'] else ['A', 'P']
  {
    assert cs[..1] == ['A'];
    assert IterationOrder(['A'], cap) == ['A'];
    assert Bucket('A', cap) == 1;
    assert Bucket('P', cap) == if cap == 16 then 0 else 16;
  }

  /** With two terms the table has 16 buckets, and P (code 80, bucket 0)
      comes before A (code 65, bucket 1); with fourteen terms it has 32
      buckets, and A (bucket 1) comes before P (bucket 16). */
  lemma Capacities()
    ensures HashCapacity(2) == 16 && HashCapacity(14) == 32
    ensures IterationOrder("AP", 16) == "PA" && IterationOrder("AP", 32) == "AP"
  {
    CapacityTwo();
    CapacityFourteen();
    OrderAP("AP", 16);
    OrderAP("AP", 32);
  }

  /** Standardise as written lays out the same atoms in two different orders,
      so the isomer test, which compares displays, calls these two isomers
      different: "A13P" standardises to PA13 and "AAAAAAAAAAAAAP" to A13P. */
  lemma IsomerAsWrittenFails()
    ensures SameAtoms(Compact(), Spelled())
    ensures StandardisedAsWritten(Compact())[0].element == 'P'
    ensures StandardisedAsWritten(Spelled())[0].element == 'A'
    ensures DisplayTerms(StandardisedAsWritten(Compact())) != DisplayTerms(StandardisedAsWritten(Spelled()))
  {
    CompactSpelledIsomers();
    SpelledElements();
    Capacities();
    assert |Spelled()| == 14;
    var a, b := StandardisedAsWritten(Compact()), StandardisedAsWritten(Spelled());
    DisplayFirst(a);
    DisplayFirst(b);
  }

  /** The sorted standardisation, which the rest of the model uses, has no
      such dependence: its display is the same for any two isomers. */
  lemma IsomerSortedHolds()
    ensures DisplayTerms(Standardised(Compact())) == DisplayTerms(Standardised(Spelled()))
  {
    CompactSpelledIsomers();
    StandardisedSameAtoms(Compact(), Spelled());
  }

  /** The counts of "A13P". */
  lemma CompactCounts()
    ensures Count(Compact(), 'A') == 13 && Count(Compact(), 'P') == 1
  {
    assert Compact()[..1] == [Term('A', 13)];
  }

  /** As written, the elements of "AAAAAAAAAAAAAP" come out as A, P. */
  lemma SpelledOrder()
    ensures IterationOrder(SortedDistinct(ElementSeq(Spelled())), HashCapacity(|Spelled()|)) == "AP"
  {
    SpelledElements();
    Capacities();
    assert |Spelled()| == 14;
  }

  /** A list whose two elements come out as a, b standardises as written to
      their two totals in that order. */
  lemma AsWrittenTwo(ts: seq<Term>, a: char, b: char)
    requires IterationOrder(SortedDistinct(ElementSeq(ts)), HashCapacity(|ts|)) == [a, b]
    ensures StandardisedAsWritten(ts) == [Term(a, Count(ts, a)), Term(b, Count(ts, b))]
  {
  }

  /** As written, "AAAAAAAAAAAAAP" standardises to A13, P. */
  lemma SpelledAsWritten()
    ensures StandardisedAsWritten(Spelled()) == Compact()
  {
    SpelledOrder();
    AsWrittenTwo(Spelled(), 'A', 'P');
    SpelledCounts('A');
    SpelledCounts('P');
    CompactCounts();
  }

  /** As written, standardise is not idempotent: "AAAAAAAAAAAAAP" (fourteen
      terms, 32 buckets) standardises to A13, P, and standardising that (two
      terms, 16 buckets) reorders it to P, A13. */
  lemma AsWrittenNotIdempotent()
    ensures StandardisedAsWritten(Spelled()) == Compact()
    ensures StandardisedAsWritten(StandardisedAsWritten(Spelled())) != StandardisedAsWritten(Spelled())
  {
    SpelledAsWritten();
    IsomerAsWrittenFails();
    assert Compact()[0].element == 'A';
  }
}
