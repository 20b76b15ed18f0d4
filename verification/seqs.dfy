/** Concatenation of a list of lists (`list.extend` applied in a loop). */
module Seqs {

  function Flatten<T>(ss: seq<seq<T>>): seq<T>
  {
    if |ss| == 0 then [] else Flatten(ss[..|ss| - 1]) + ss[|ss| - 1]
  }

  /** Extending the accumulated list by one more list. */
  lemma FlattenAppend<T>(ss: seq<seq<T>>, s: seq<T>)
    ensures Flatten(ss + [s]) == Flatten(ss) + s
  {
    assert (ss + [s])[..|ss|] == ss;
  }

  /** An element of the concatenation comes from one of the lists, and
      every element of every list is in the concatenation. */
  lemma {:induction false} FlattenMember<T>(ss: seq<seq<T>>)
    ensures forall x :: x in Flatten(ss) ==> exists k :: 0 <= k < |ss| && x in ss[k]
    ensures forall k, x :: 0 <= k < |ss| && x in ss[k] ==> x in Flatten(ss)
  {
    if |ss| > 0 {
      var front := ss[..|ss| - 1];
      FlattenMember(front);
      forall x | x in Flatten(ss)
        ensures exists k :: 0 <= k < |ss| && x in ss[k]
      {
        if x in Flatten(front) {
          var k :| 0 <= k < |front| && x in front[k];
          assert ss[k] == front[k];
        }
      }
      forall k, x | 0 <= k < |ss| && x in ss[k]
        ensures x in Flatten(ss)
      {
        if k < |ss| - 1 {
          assert ss[k] == front[k];
        }
      }
    }
  }

  /** If every list of `xss` is no longer than the matching list of `yss`,
      the concatenations compare the same way. */
  lemma {:induction false} FlattenLengthLe<T, U>(xss: seq<seq<T>>, yss: seq<seq<U>>)
    requires |xss| == |yss|
    requires forall k :: 0 <= k < |xss| ==> |xss[k]| <= |yss[k]|
    ensures |Flatten(xss)| <= |Flatten(yss)|
  {
    if |xss| > 0 {
      FlattenLengthLe(xss[..|xss| - 1], yss[..|yss| - 1]);
    }
  }

  /** A list with every length-one part non-empty is at least as long as
      the number of parts. */
  lemma {:induction false} FlattenNonEmptyParts<T>(ss: seq<seq<T>>)
    requires forall k :: 0 <= k < |ss| ==> |ss[k]| > 0
    ensures |Flatten(ss)| >= |ss|
  {
    if |ss| > 0 {
      FlattenNonEmptyParts(ss[..|ss| - 1]);
    }
  }

  /** No element occurs twice. */
  predicate Distinct<T(==)>(s: seq<T>)
  {
    forall a, b :: 0 <= a < b < |s| ==> s[a] != s[b]
  }

  /** The set of elements of a list. */
  function Elems<T>(s: seq<T>): set<T>
  {
    set x | x in s
  }

  /** A list without repetitions has as many elements as its set. */
  lemma {:induction false} DistinctCard<T>(s: seq<T>)
    requires Distinct(s)
    ensures |Elems(s)| == |s|
  {
    if |s| > 0 {
      var front := s[..|s| - 1];
      var last := s[|s| - 1];
      DistinctCard(front);
      assert Elems(s) == Elems(front) + {last};
      assert last !in Elems(front);
    }
  }

  /** `range(n)` as a set, which has `n` elements. */
  function RangeSet(n: nat): (r: set<nat>)
    ensures forall v :: v in r <==> 0 <= v < n
    ensures |r| == n
  {
    if n == 0 then {}
    else
      var r := RangeSet(n - 1);
      assert n - 1 !in r;
      r + {n - 1}
  }

  /** Concatenating lists that are each without repetitions and pairwise
      disjoint gives a list without repetitions. */
  lemma {:induction false} FlattenDistinct<T>(ss: seq<seq<T>>)
    requires forall k :: 0 <= k < |ss| ==> Distinct(ss[k])
    requires forall k1, k2, x :: 0 <= k1 < k2 < |ss| && x in ss[k1] ==> x !in ss[k2]
    ensures Distinct(Flatten(ss))
  {
    if |ss| > 0 {
      var front := ss[..|ss| - 1];
      var last := ss[|ss| - 1];
      FlattenDistinct(front);
      FlattenMember(front);
      var f := Flatten(front);
      assert Flatten(ss) == f + last;
      forall a, b | 0 <= a < b < |f + last|
        ensures (f + last)[a] != (f + last)[b]
      {
        if a < |f| && |f| <= b {
          assert f[a] in f;
          var k :| 0 <= k < |front| && f[a] in front[k];
          assert front[k] == ss[k];
          assert last[b - |f|] in ss[|ss| - 1];
        }
      }
    }
  }
}
