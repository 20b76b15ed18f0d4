/**
 Consequences of the grouping specification: the components partition the
 input (sizes add up), every input box is inside its group, no group leaves
 the hull of the input, and the specification determines the result
 uniquely.
 */
module GroupingFacts {
  import opened Options
  import opened Geometry
  import opened Merge
  import opened Proximity
  import opened Seqs
  import opened Grouping

  /** The components' sizes add up to the number of boxes, so there are at
      most as many groups as boxes, and none exactly when there are no
      boxes. */
  lemma GroupSizes(boxes: seq<Rect>, t: real, comps: seq<seq<nat>>, groups: seq<Rect>)
    requires GroupSpec(boxes, t, comps, groups)
    ensures |Flatten(comps)| == |boxes|
    ensures |groups| <= |boxes|
    ensures |groups| == 0 <==> |boxes| == 0
  {
    PartitionSize(comps, |boxes|);
    FlattenNonEmptyParts(comps);
    if |boxes| > 0 {
      FlattenIsRange(comps, |boxes|);
      assert 0 in RangeSet(|boxes|);
    }
  }

  /** A partition of `0..n-1` has `n` members in all. */
  lemma PartitionSize(comps: seq<seq<nat>>, n: nat)
    requires IsPartition(comps, n)
    ensures |Flatten(comps)| == n
  {
    FlattenDistinct(comps);
    DistinctCard(Flatten(comps));
    FlattenIsRange(comps, n);
  }

  /** The members of a partition of `0..n-1`, taken together, are
      `0..n-1`. */
  lemma FlattenIsRange(comps: seq<seq<nat>>, n: nat)
    requires IsPartition(comps, n)
    ensures Elems(Flatten(comps)) == RangeSet(n)
  {
    FlattenMember(comps);
    forall x: nat | x in Flatten(comps)
      ensures x < n
    {
      var k :| 0 <= k < |comps| && x in comps[k];
    }
  }

  /** Every non-empty box lies inside the group of its component, so inside
      some group. (An empty box, such as a line segment, is ignored by `|`
      and need not lie inside its group.) */
  lemma GroupCovers(boxes: seq<Rect>, t: real, comps: seq<seq<nat>>, groups: seq<Rect>)
    requires GroupSpec(boxes, t, comps, groups)
    ensures forall k, m :: 0 <= k < |comps| && 0 <= m < |comps[k]| ==>
      comps[k][m] < |boxes| && (!IsEmpty(boxes[comps[k][m]]) ==> Contains(groups[k], boxes[comps[k][m]]))
    ensures forall i :: 0 <= i < |boxes| && !IsEmpty(boxes[i]) ==> exists k :: 0 <= k < |groups| && Contains(groups[k], boxes[i])
  {
    forall k, m | 0 <= k < |comps| && 0 <= m < |comps[k]|
      ensures comps[k][m] < |boxes| && (!IsEmpty(boxes[comps[k][m]]) ==> Contains(groups[k], boxes[comps[k][m]]))
    {
      assert comps[k][m] in comps[k];
      var rs := Pick(boxes, comps[k]);
      assert EnclosesNonEmpty(groups[k], rs);
      assert rs[m] == boxes[comps[k][m]];
    }
    FlattenMember(comps);
    forall i | 0 <= i < |boxes| && !IsEmpty(boxes[i])
      ensures exists k :: 0 <= k < |groups| && Contains(groups[k], boxes[i])
    {
      assert i in Flatten(comps);
      var k :| 0 <= k < |comps| && i in comps[k];
      var m :| 0 <= m < |comps[k]| && comps[k][m] == i;
    }
  }

  /** A rectangle enclosing all the boxes encloses all the groups. */
  lemma GroupWithin(boxes: seq<Rect>, t: real, comps: seq<seq<nat>>, groups: seq<Rect>, c: Rect)
    requires GroupSpec(boxes, t, comps, groups)
    requires Encloses(c, boxes)
    ensures Encloses(c, groups)
  {
    forall k | 0 <= k < |groups|
      ensures Contains(c, groups[k])
    {
      var rs := Pick(boxes, comps[k]);
      MergeLeast(rs);
      forall m | 0 <= m < |rs|
        ensures Contains(c, rs[m])
      {
        assert comps[k][m] in comps[k];
      }
    }
  }

  /** `Grouped` versions of the three facts above. */
  lemma GroupedFacts(boxes: seq<Rect>, t: real, groups: seq<Rect>)
    requires Grouped(boxes, t, groups)
    ensures |groups| <= |boxes| && (|groups| == 0 <==> |boxes| == 0)
    ensures forall i :: 0 <= i < |boxes| && !IsEmpty(boxes[i]) ==> exists k :: 0 <= k < |groups| && Contains(groups[k], boxes[i])
    ensures forall c :: Encloses(c, boxes) ==> Encloses(c, groups)
  {
    var comps :| GroupSpec(boxes, t, comps, groups);
    GroupSizes(boxes, t, comps, groups);
    GroupCovers(boxes, t, comps, groups);
    forall c | Encloses(c, boxes)
      ensures Encloses(c, groups)
    {
      GroupWithin(boxes, t, comps, groups, c);
    }
  }

  // ---- Uniqueness ----------------------------------------------------

  /** `group_bounding_boxes` is deterministic: two results for the same
      boxes and threshold are equal. */
  lemma GroupedUnique(boxes: seq<Rect>, t: real, g1: seq<Rect>, g2: seq<Rect>)
    requires Grouped(boxes, t, g1) && Grouped(boxes, t, g2)
    ensures g1 == g2
  {
    var c1 :| GroupSpec(boxes, t, c1, g1);
    var c2 :| GroupSpec(boxes, t, c2, g2);
    GroupSpecUnique(boxes, t, c1, g1, c2, g2);
  }

  /** A linked list of indices whose first element is in a component that
      is closed under edges lies entirely in that component. */
  lemma {:induction false} LinkedStaysInside(boxes: seq<Rect>, t: real, c: seq<nat>, comps: seq<seq<nat>>, j: nat, upto: nat)
    requires Linked(boxes, t, c) && Closed(boxes, t, comps)
    requires 0 < upto <= |c| && j < |comps| && c[0] in comps[j]
    ensures forall m :: 0 <= m < upto ==> c[m] in comps[j]
    decreases upto
  {
    if upto > 1 {
      LinkedStaysInside(boxes, t, c, comps, j, upto - 1);
      var m := upto - 1;
      assert ReachedFromEarlier(boxes, t, c, m);
      var p :| 0 <= p < m && Adjacent(boxes, t, c[p], c[m]);
      assert c[p] in comps[j];
    }
  }

  /** The index of the component holding `v`. */
  lemma OwnerOf(comps: seq<seq<nat>>, n: nat, v: nat) returns (k: nat)
    requires IsPartition(comps, n) && v < n
    ensures k < |comps| && v in comps[k]
  {
    FlattenMember(comps);
    assert v in Flatten(comps);
    k :| 0 <= k < |comps| && v in comps[k];
  }

  /** Component `k` of one valid result and the component of the other
      result that holds its seed have the same members and the same seed. */
  lemma SameComponent(boxes: seq<Rect>, t: real, c1: seq<seq<nat>>, g1: seq<Rect>,
                      c2: seq<seq<nat>>, g2: seq<Rect>, k: nat) returns (j: nat)
    requires GroupSpec(boxes, t, c1, g1) && GroupSpec(boxes, t, c2, g2) && k < |c1|
    ensures j < |c2|
    ensures forall v :: v in c1[k] <==> v in c2[j]
    ensures c1[k][0] == c2[j][0]
  {
    assert c1[k][0] in c1[k];
    j := OwnerOf(c2, |boxes|, c1[k][0]);
    LinkedStaysInside(boxes, t, c1[k], c2, j, |c1[k]|);
    assert c2[j][0] in c2[j];
    var k' := OwnerOf(c1, |boxes|, c2[j][0]);
    LinkedStaysInside(boxes, t, c2[j], c1, k', |c2[j]|);
    assert c1[k][0] in c1[k'];
    assert k' == k;
    forall v | v in c1[k] ensures v in c2[j] {
      var m :| 0 <= m < |c1[k]| && c1[k][m] == v;
    }
    forall v | v in c2[j] ensures v in c1[k] {
      var m :| 0 <= m < |c2[j]| && c2[j][m] == v;
    }
  }

  function Seeds(comps: seq<seq<nat>>): (s: seq<nat>)
    requires forall k :: 0 <= k < |comps| ==> |comps[k]| > 0
    ensures |s| == |comps| && forall k :: 0 <= k < |comps| ==> s[k] == comps[k][0]
  {
    seq(|comps|, k requires 0 <= k < |comps| => comps[k][0])
  }

  predicate Increasing(s: seq<nat>)
  {
    forall a, b :: 0 <= a < b < |s| ==> s[a] < s[b]
  }

  /** Two strictly increasing lists with the same elements are equal. */
  lemma {:induction false} IncreasingUnique(s1: seq<nat>, s2: seq<nat>)
    requires Increasing(s1) && Increasing(s2)
    requires forall x :: x in s1 <==> x in s2
    ensures s1 == s2
    decreases |s1|
  {
    assert |s1| > 0 ==> s1[0] in s2;
    assert |s2| > 0 ==> s2[0] in s1;
    if |s1| > 0 && |s2| > 0 {
      var a :| 0 <= a < |s2| && s2[a] == s1[0];
      var b :| 0 <= b < |s1| && s1[b] == s2[0];
      assert s1[0] == s2[0];
      forall x ensures x in s1[1..] <==> x in s2[1..] {
        if x in s1[1..] {
          var i :| 1 <= i < |s1| && s1[i] == x;
          assert x in s2;
          assert x != s2[0];
        }
        if x in s2[1..] {
          var i :| 1 <= i < |s2| && s2[i] == x;
          assert x in s1;
          assert x != s1[0];
        }
      }
      IncreasingUnique(s1[1..], s2[1..]);
      assert s1 == [s1[0]] + s1[1..] && s2 == [s2[0]] + s2[1..];
    }
  }

  /** Two valid results have the same seeds, in the same order. */
  lemma SameSeeds(boxes: seq<Rect>, t: real, c1: seq<seq<nat>>, g1: seq<Rect>,
                  c2: seq<seq<nat>>, g2: seq<Rect>)
    requires GroupSpec(boxes, t, c1, g1) && GroupSpec(boxes, t, c2, g2)
    ensures Seeds(c1) == Seeds(c2)
  {
    var s1, s2 := Seeds(c1), Seeds(c2);
    forall x ensures x in s1 <==> x in s2 {
      if x in s1 {
        var k :| 0 <= k < |s1| && s1[k] == x;
        var j := SameComponent(boxes, t, c1, g1, c2, g2, k);
        assert s2[j] == x;
      }
      if x in s2 {
        var j :| 0 <= j < |s2| && s2[j] == x;
        var k := SameComponent(boxes, t, c2, g2, c1, g1, j);
        assert s1[k] == x;
      }
    }
    IncreasingUnique(s1, s2);
  }

  /** With the same seeds, component `k` of both results has the same
      members and so the same merged rectangle. */
  lemma SameGroup(boxes: seq<Rect>, t: real, c1: seq<seq<nat>>, g1: seq<Rect>,
                  c2: seq<seq<nat>>, g2: seq<Rect>, k: nat)
    requires GroupSpec(boxes, t, c1, g1) && GroupSpec(boxes, t, c2, g2)
    requires Seeds(c1) == Seeds(c2) && k < |c1|
    ensures k < |c2| && (forall v :: v in c1[k] <==> v in c2[k]) && g1[k] == g2[k]
  {
    var j := SameComponent(boxes, t, c1, g1, c2, g2, k);
    assert Seeds(c2)[j] == Seeds(c2)[k];
    assert j == k;
    var r1, r2 := Pick(boxes, c1[k]), Pick(boxes, c2[k]);
    forall r ensures r in r1 <==> r in r2 {
      if r in r1 {
        var m :| 0 <= m < |r1| && r1[m] == r;
        assert c1[k][m] in c2[k];
        var m' :| 0 <= m' < |c2[k]| && c2[k][m'] == c1[k][m];
        assert r2[m'] == r;
      }
      if r in r2 {
        var m :| 0 <= m < |r2| && r2[m] == r;
        assert c2[k][m] in c1[k];
        var m' :| 0 <= m' < |c1[k]| && c1[k][m'] == c2[k][m];
        assert r1[m'] == r;
      }
    }
    MergeOrderIrrelevant(r1, r2);
  }

  /** The specification of `group_bounding_boxes` determines its result: any
      two valid results have the same components, member for member, and
      the same groups. */
  lemma GroupSpecUnique(boxes: seq<Rect>, t: real, c1: seq<seq<nat>>, g1: seq<Rect>,
                        c2: seq<seq<nat>>, g2: seq<Rect>)
    requires GroupSpec(boxes, t, c1, g1) && GroupSpec(boxes, t, c2, g2)
    ensures |c1| == |c2| && forall k, v :: 0 <= k < |c1| ==> (v in c1[k] <==> v in c2[k])
    ensures g1 == g2
  {
    SameSeeds(boxes, t, c1, g1, c2, g2);
    forall k | 0 <= k < |c1|
      ensures (forall v :: v in c1[k] <==> v in c2[k]) && g1[k] == g2[k]
    {
      SameGroup(boxes, t, c1, g1, c2, g2, k);
    }
  }

  // ---- Monotonic merging ---------------------------------------------

  /** A component linked at threshold `s` stays linked at any larger
      threshold. */
  lemma LinkedMonotone(boxes: seq<Rect>, s: real, t: real, c: seq<nat>)
    requires s <= t && Linked(boxes, s, c)
    ensures Linked(boxes, t, c)
  {
    forall m | 0 < m < |c|
      ensures ReachedFromEarlier(boxes, t, c, m)
    {
      assert ReachedFromEarlier(boxes, s, c, m);
      var p :| 0 <= p < m && Adjacent(boxes, s, c[p], c[m]);
      AdjacentMonotone(boxes, s, t, c[p], c[m]);
    }
  }

  /** Raising the threshold never splits a component: component `k` at
      threshold `s` lies inside component `j` at threshold `t`, and, unless
      its group is empty, its group lies inside group `j`. */
  lemma GroupsMonotone(boxes: seq<Rect>, s: real, t: real, c1: seq<seq<nat>>, g1: seq<Rect>,
                       c2: seq<seq<nat>>, g2: seq<Rect>, k: nat) returns (j: nat)
    requires s <= t && GroupSpec(boxes, s, c1, g1) && GroupSpec(boxes, t, c2, g2) && k < |c1|
    ensures j < |c2| && forall v :: v in c1[k] ==> v in c2[j]
    ensures !IsEmpty(g1[k]) ==> Contains(g2[j], g1[k])
  {
    assert c1[k][0] in c1[k];
    j := OwnerOf(c2, |boxes|, c1[k][0]);
    LinkedMonotone(boxes, s, t, c1[k]);
    LinkedStaysInside(boxes, t, c1[k], c2, j, |c1[k]|);
    forall v | v in c1[k] ensures v in c2[j] {
      var m :| 0 <= m < |c1[k]| && c1[k][m] == v;
    }
    GroupCovers(boxes, t, c2, g2);
    var rs := Pick(boxes, c1[k]);
    MergeLeast(rs);
    assert EnclosesNonEmpty(g2[j], rs) by {
      forall m | 0 <= m < |rs| && !IsEmpty(rs[m]) ensures Contains(g2[j], rs[m]) {
        var v := c1[k][m];
        assert v in c2[j];
        var m' :| 0 <= m' < |c2[j]| && c2[j][m'] == v;
      }
    }
  }

  // ---- A worked example ------------------------------------------------

  /** Three unit squares sharing edges and one far away. */
  function FourSquares(): seq<Rect>
  {
    [Rect(0.0, 0.0, 1.0, 1.0), Rect(1.0, 0.0, 2.0, 1.0),
     Rect(0.0, 1.0, 1.0, 2.0), Rect(10.0, 10.0, 11.0, 11.0)]
  }

  /** With threshold 1 the first three squares are pairwise neighbours and
      the fourth has none. */
  lemma FourSquaresAdjacency()
    ensures forall u, v :: 0 <= u < 4 && 0 <= v < 4 ==>
      (Adjacent(FourSquares(), 1.0, u, v) <==> u != v && (u < 3 <==> v < 3))
  {
    var b := FourSquares();
    forall u, v | 0 <= u < 4 && 0 <= v < 4
      ensures Adjacent(b, 1.0, u, v) <==> u != v && (u < 3 <==> v < 3)
    {
      if u < 3 && v == 3 {
        assert Expand(b[u], 1.0).x1 < Expand(b[v], 1.0).x0;
      } else if u == 3 && v < 3 {
        assert Expand(b[v], 1.0).x1 < Expand(b[u], 1.0).x0;
      }
    }
  }

  function FourSquaresComps(): seq<seq<nat>> { [[0, 1, 2], [3]] }

  lemma FourSquaresPartition()
    ensures IsPartition(FourSquaresComps(), 4)
    ensures SeedOrdered(FourSquaresComps())
  {
    var comps := FourSquaresComps();
    assert Flatten(comps) == [0, 1, 2, 3] by {
      assert comps[..1] == [comps[0]];
      assert comps[..1][..0] == comps[..0];
    }
  }

  lemma FourSquaresConnected()
    ensures Closed(FourSquares(), 1.0, FourSquaresComps())
    ensures forall k :: 0 <= k < 2 ==> Linked(FourSquares(), 1.0, FourSquaresComps()[k])
  {
    var b, c0 := FourSquares(), FourSquaresComps()[0];
    FourSquaresAdjacency();
    assert Adjacent(b, 1.0, c0[0], c0[1]) && Adjacent(b, 1.0, c0[0], c0[2]);
    assert ReachedFromEarlier(b, 1.0, c0, 1);
    assert ReachedFromEarlier(b, 1.0, c0, 2);
  }

  lemma FourSquaresMerged()
    ensures MergeBoundingBoxes(Pick(FourSquares(), [0, 1, 2])) == Some(Rect(0.0, 0.0, 2.0, 2.0))
    ensures MergeBoundingBoxes(Pick(FourSquares(), [3])) == Some(Rect(10.0, 10.0, 11.0, 11.0))
  {
    var b := FourSquares();
    var r0 := Pick(b, [0, 1, 2]);
    assert r0 == [b[0], b[1], b[2]];
    var g := Rect(0.0, 0.0, 2.0, 2.0);
    var m := MergeBoundingBoxes(r0).value;
    MergeLeast(r0);
    assert Encloses(g, r0);
    assert Contains(m, r0[0]) && Contains(m, r0[1]) && Contains(m, r0[2]);
    ContainsAntisymmetric(m, g);
    assert Pick(b, [3]) == [b[3]];
  }

  lemma FourSquaresGrouping()
    ensures GroupSpec(FourSquares(), 1.0, FourSquaresComps(),
                      [Rect(0.0, 0.0, 2.0, 2.0), Rect(10.0, 10.0, 11.0, 11.0)])
  {
    FourSquaresPartition();
    FourSquaresConnected();
    FourSquaresMerged();
    var b, comps := FourSquares(), FourSquaresComps();
    var g := [Rect(0.0, 0.0, 2.0, 2.0), Rect(10.0, 10.0, 11.0, 11.0)];
    assert forall k :: 0 <= k < |comps| ==> MergeBoundingBoxes(Pick(b, comps[k])) == Some(g[k]) by {
      assert comps[0] == [0, 1, 2] && comps[1] == [3];
    }
  }

  /** Grouping the four squares with threshold 1 gives exactly two
      figures: the three touching squares merged into (0, 0, 2, 2), and the
      far square alone. */
  lemma FourSquaresExample(comps: seq<seq<nat>>, groups: seq<Rect>)
    requires GroupSpec(FourSquares(), 1.0, comps, groups)
    ensures groups == [Rect(0.0, 0.0, 2.0, 2.0), Rect(10.0, 10.0, 11.0, 11.0)]
  {
    FourSquaresGrouping();
    GroupSpecUnique(FourSquares(), 1.0, comps, groups, FourSquaresComps(),
                    [Rect(0.0, 0.0, 2.0, 2.0), Rect(10.0, 10.0, 11.0, 11.0)]);
  }
}
