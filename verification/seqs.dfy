/** Sequences used as duplicate-free lists. */
module Seqs {

  /** The elements of a sequence, as a set. */
  function Elems<T(==)>(s: seq<T>): set<T>
  {
    set x | x in s
  }

  /** No element occurs twice. */
  predicate Distinct<T(==)>(s: seq<T>)
  {
    forall i, j :: 0 <= i < j < |s| ==> s[i] != s[j]
  }

  /** Adds `x` to a list that stands for a set: appended only when absent. */
  function AddDistinct<T(==)>(s: seq<T>, x: T): (r: seq<T>)
    ensures Elems(r) == Elems(s) + {x}
    ensures Distinct(s) ==> Distinct(r)
    ensures |s| <= |r| <= |s| + 1
  {
    if x in s then s else s + [x]
  }

  /** `drop_duplicates`: keeps the first occurrence of every element, in order.
      That it keeps every element is `DedupElems`. */
  function Dedup<T(==)>(s: seq<T>): (r: seq<T>)
    ensures Distinct(r)
    ensures |r| <= |s|
  {
    if |s| == 0 then []
    else AddDistinct(Dedup(s[..|s| - 1]), s[|s| - 1])
  }

  /** Deduplication loses no element and adds none. */
  lemma {:induction false} DedupElems<T>(s: seq<T>)
    ensures Elems(Dedup(s)) == Elems(s)
  {
    if |s| > 0 {
      var pre := s[..|s| - 1];
      DedupElems(pre);
      assert s == pre + [s[|s| - 1]];
      assert Elems(s) == Elems(pre) + {s[|s| - 1]};
    }
  }

  /** A duplicate-free list has as many elements as its set. */
  lemma {:induction false} DistinctCard<T>(s: seq<T>)
    requires Distinct(s)
    ensures |Elems(s)| == |s|
  {
    if |s| > 0 {
      var pre := s[..|s| - 1];
      assert s == pre + [s[|s| - 1]];
      assert Elems(s) == Elems(pre) + {s[|s| - 1]};
      assert s[|s| - 1] !in Elems(pre);
      DistinctCard(pre);
    }
  }
}
