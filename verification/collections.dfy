/**
 * Facts about sequences and sets shared by the games: duplicate-free
 * sequences, the set of elements a sequence holds, and the counting
 * lemmas that relate their sizes.
 */
module Collections {

  /** No element occurs twice. */
  predicate Distinct<T(==)>(s: seq<T>) {
    forall i, j :: 0 <= i < j < |s| ==> s[i] != s[j]
  }

  /** The set of elements a sequence holds. */
  function Elems<T(==)>(s: seq<T>): set<T> {
    set x | x in s
  }

  /** A sequence holds no more distinct elements than it has entries. */
  lemma {:induction false} ElemsCountAtMost<T>(s: seq<T>)
    ensures |Elems(s)| <= |s|
  {
    if s != [] {
      ElemsCountAtMost(s[1..]);
      assert Elems(s) == Elems(s[1..]) + {s[0]};
    }
  }

  /** A duplicate-free sequence holds exactly as many elements as it has entries. */
  lemma {:induction false} DistinctElemsCount<T>(s: seq<T>)
    requires Distinct(s)
    ensures |Elems(s)| == |s|
  {
    if s != [] {
      DistinctElemsCount(s[1..]);
      assert Elems(s) == Elems(s[1..]) + {s[0]};
      assert s[0] !in Elems(s[1..]);
    }
  }

  lemma SubsetCount<T>(a: set<T>, b: set<T>)
    requires a <= b
    ensures |a| <= |b|
  {
    assert b == a + (b - a);
    assert a !! (b - a);
  }
}
