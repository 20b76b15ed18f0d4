/**
 A worked case of `process_large_drawing` at the chunking limit. With
 `max_drawings = 3` and three boxes, the `<` test sends the boxes down the
 chunked path: the single full slice is grouped, and its result is grouped
 once more. That second pass can join groups that the direct grouping keeps
 apart, because a merged rectangle reaches further than its members.
 */
module ChunkingExample {
  import opened Options
  import opened Geometry
  import opened Merge
  import opened Proximity
  import opened Seqs
  import opened Grouping
  import opened GroupingFacts
  import opened Chunking

  /** A tall bar, a wide bar touching it, and a small square in the corner
      they enclose, touching neither. */
  function Boxes(): seq<Rect>
  {
    [Rect(0.0, 0.0, 1.0, 10.0), Rect(1.0, 0.0, 10.0, 1.0), Rect(5.0, 5.0, 6.0, 6.0)]
  }

  function Corner(): Rect { Rect(0.0, 0.0, 10.0, 10.0) }
  function Square(): Rect { Rect(5.0, 5.0, 6.0, 6.0) }

  /** With threshold 0 the two bars are neighbours and the square is
      isolated. */
  lemma BoxesAdjacency()
    ensures forall u, v :: 0 <= u < 3 && 0 <= v < 3 ==>
      (Adjacent(Boxes(), 0.0, u, v) <==> u < 2 && v < 2 && u != v)
  {
    var b := Boxes();
    forall u, v | 0 <= u < 3 && 0 <= v < 3
      ensures Adjacent(b, 0.0, u, v) <==> u < 2 && v < 2 && u != v
    {
      if (u == 2 && v == 0) || (u == 0 && v == 2) {
        assert b[0].x1 < b[2].x0;
      } else if (u == 2 && v == 1) || (u == 1 && v == 2) {
        assert b[1].y1 < b[2].y0;
      }
    }
  }

  function DirectComps(): seq<seq<nat>> { [[0, 1], [2]] }

  lemma DirectPartition()
    ensures IsPartition(DirectComps(), 3)
    ensures SeedOrdered(DirectComps())
  {
    var comps := DirectComps();
    assert Flatten(comps) == [0, 1, 2] by {
      assert comps[..1] == [comps[0]];
      assert comps[..1][..0] == comps[..0];
    }
  }

  lemma DirectMerged()
    ensures MergeBoundingBoxes(Pick(Boxes(), [0, 1])) == Some(Corner())
    ensures MergeBoundingBoxes(Pick(Boxes(), [2])) == Some(Square())
  {
    var b := Boxes();
    var r := Pick(b, [0, 1]);
    assert r == [b[0], b[1]];
    var m := MergeBoundingBoxes(r).value;
    MergeLeast(r);
    assert !IsEmpty(r[0]) && !IsEmpty(r[1]);
    assert EnclosesNonEmpty(Corner(), r);
    assert Contains(m, r[0]) && Contains(m, r[1]);
    ContainsAntisymmetric(m, Corner());
    assert Pick(b, [2]) == [b[2]];
  }

  lemma DirectConnected()
    ensures Closed(Boxes(), 0.0, DirectComps())
    ensures forall k :: 0 <= k < 2 ==> Linked(Boxes(), 0.0, DirectComps()[k])
  {
    var b, c0 := Boxes(), DirectComps()[0];
    BoxesAdjacency();
    assert Adjacent(b, 0.0, c0[0], c0[1]);
    assert ReachedFromEarlier(b, 0.0, c0, 1);
  }

  /** Grouping the three boxes directly: the bars' corner and the square. */
  lemma DirectSpec()
    ensures GroupSpec(Boxes(), 0.0, DirectComps(), [Corner(), Square()])
  {
    DirectPartition();
    DirectConnected();
    DirectMerged();
    var b, comps := Boxes(), DirectComps();
    var g := [Corner(), Square()];
    assert forall k :: 0 <= k < |comps| ==> MergeBoundingBoxes(Pick(b, comps[k])) == Some(g[k]) by {
      assert comps[0] == [0, 1] && comps[1] == [2];
    }
  }

  /** `group_bounding_boxes` on the three boxes returns two rectangles. */
  lemma DirectResult(groups: seq<Rect>)
    requires Grouped(Boxes(), 0.0, groups)
    ensures groups == [Corner(), Square()]
  {
    DirectSpec();
    assert Grouped(Boxes(), 0.0, [Corner(), Square()]);
    GroupedUnique(Boxes(), 0.0, groups, [Corner(), Square()]);
  }

  function RegroupBoxes(): seq<Rect> { [Corner(), Square()] }
  function RegroupComps(): seq<seq<nat>> { [[0, 1]] }

  lemma RegroupPartition()
    ensures IsPartition(RegroupComps(), 2)
    ensures SeedOrdered(RegroupComps())
  {
    var comps := RegroupComps();
    assert Flatten(comps) == [0, 1] by {
      assert comps[..0] == [];
    }
  }

  lemma RegroupConnected()
    ensures Closed(RegroupBoxes(), 0.0, RegroupComps())
    ensures Linked(RegroupBoxes(), 0.0, RegroupComps()[0])
  {
    var b, c := RegroupBoxes(), RegroupComps()[0];
    assert Adjacent(b, 0.0, c[0], c[1]);
    assert ReachedFromEarlier(b, 0.0, c, 1);
  }

  lemma RegroupMerged()
    ensures MergeBoundingBoxes(Pick(RegroupBoxes(), RegroupComps()[0])) == Some(Corner())
  {
    var r := Pick(RegroupBoxes(), RegroupComps()[0]);
    assert r == [Corner(), Square()];
    var m := MergeBoundingBoxes(r).value;
    MergeLeast(r);
    assert !IsEmpty(r[0]) && !IsEmpty(r[1]);
    assert EnclosesNonEmpty(Corner(), r);
    assert Contains(m, r[0]);
    ContainsAntisymmetric(m, Corner());
  }

  /** The regroup pass sees the corner rectangle and the square, which
      now lies inside it: one component. */
  lemma RegroupSpec()
    ensures GroupSpec(RegroupBoxes(), 0.0, RegroupComps(), [Corner()])
  {
    RegroupPartition();
    RegroupConnected();
    RegroupMerged();
  }

  /** Grouping no boxes gives no groups. */
  lemma NothingGrouped(t: real, groups: seq<Rect>)
    requires Grouped([], t, groups)
    ensures groups == []
  {
    GroupedFacts([], t, groups);
  }

  /** The slice loop: one full slice grouped into the corner and the
      square, and one empty slice grouped into nothing. */
  lemma SlicesResult(partial: seq<seq<Rect>>)
    requires |partial| == NumChunks(|Boxes()|, 3)
    requires forall k :: 0 <= k < |partial| ==> Grouped(Chunks(Boxes(), 3)[k], 0.0, partial[k])
    ensures Flatten(partial) == RegroupBoxes()
  {
    var cs := Chunks(Boxes(), 3);
    ChunksAtLimit(Boxes(), 3);
    assert |partial| == 2 && cs[0] == Boxes() && cs[1] == [];
    DirectResult(partial[0]);
    NothingGrouped(0.0, partial[1]);
    FlattenTwo(partial);
    assert RegroupBoxes() + [] == RegroupBoxes();
  }

  lemma FlattenTwo<T>(p: seq<seq<T>>)
    requires |p| == 2
    ensures Flatten(p) == p[0] + p[1]
  {
    assert p[..1] == [p[0]];
    assert p[..1][..0] == [];
    assert Flatten(p[..1]) == p[0];
  }

  /** `process_large_drawing` with `max_drawings = 3` on the three boxes
      returns a single rectangle. */
  lemma ChunkedResult(groups: seq<Rect>)
    requires ProcessedBy(Boxes(), 3, 0.0, groups)
    ensures groups == [Corner()]
  {
    var b := Boxes();
    assert ChunkedGrouped(b, 3, 0.0, groups);
    var partial :| && |partial| == NumChunks(|b|, 3)
      && (forall k :: 0 <= k < |partial| ==> Grouped(Chunks(b, 3)[k], 0.0, partial[k]))
      && Grouped(Flatten(partial), 0.0, groups);
    SlicesResult(partial);
    RegroupSpec();
    assert Grouped(RegroupBoxes(), 0.0, [Corner()]);
    GroupedUnique(RegroupBoxes(), 0.0, groups, [Corner()]);
  }

  /** At exactly `max_drawings` boxes, the chunked path and the direct
      grouping give different results: one rectangle instead of two. */
  lemma AtLimitDiffers(chunked: seq<Rect>, direct: seq<Rect>)
    requires ProcessedBy(Boxes(), 3, 0.0, chunked) && Grouped(Boxes(), 0.0, direct)
    ensures |chunked| == 1 && |direct| == 2
  {
    ChunkedResult(chunked);
    DirectResult(direct);
  }
}
