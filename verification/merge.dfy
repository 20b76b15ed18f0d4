/**
 `merge_bounding_boxes`: fold a list of rectangles with `|`, starting from
 the first one; `None` for an empty list. Because `|` ignores an empty
 operand, the result is the least rectangle enclosing the non-empty inputs;
 when every input is empty, it is the first input.
 */
module Merge {
  import opened Options
  import opened Geometry

  /** The loop of `merge_bounding_boxes`: `combined_bbox` starts at `acc`
      and absorbs each rectangle of `rest` in turn, passing over empty
      ones. The result encloses the start box and every later box that is
      not empty; `MergeFromLeast` shows it is the least such rectangle. */
  function MergeFrom(acc: Rect, rest: seq<Rect>): (r: Rect)
    ensures !IsEmpty(acc) ==> Contains(r, acc)
    ensures EnclosesNonEmpty(r, rest)
    decreases |rest|
  {
    if |rest| == 0 then acc
    else
      var acc' := Include(acc, rest[0]);
      var r := MergeFrom(acc', rest[1..]);
      assert forall i :: 1 <= i < |rest| ==> rest[i] == rest[1..][i - 1];
      r
  }

  /** Empty rectangles leave the fold unchanged; once something non-empty
      has been seen, the fold is the least rectangle enclosing the
      non-empty ones. */
  lemma {:induction false} MergeFromLeast(acc: Rect, rest: seq<Rect>)
    ensures AllEmpty(rest) ==> MergeFrom(acc, rest) == acc
    ensures IsEmpty(MergeFrom(acc, rest)) <==> IsEmpty(acc) && AllEmpty(rest)
    ensures !IsEmpty(MergeFrom(acc, rest)) ==>
      forall c :: (IsEmpty(acc) || Contains(c, acc)) && EnclosesNonEmpty(c, rest) ==> Contains(c, MergeFrom(acc, rest))
    decreases |rest|
  {
    if |rest| > 0 {
      var acc' := Include(acc, rest[0]);
      MergeFromLeast(acc', rest[1..]);
      assert forall i :: 1 <= i < |rest| ==> rest[i] == rest[1..][i - 1];
      assert forall c :: (IsEmpty(acc) || Contains(c, acc)) && EnclosesNonEmpty(c, rest) ==> EnclosesNonEmpty(c, rest[1..]);
    }
  }

  /** `merge_bounding_boxes(bboxes)`: `None` exactly for an empty list;
      otherwise a rectangle enclosing every non-empty input. */
  function MergeBoundingBoxes(bs: seq<Rect>): (r: Option<Rect>)
    ensures r.None? <==> |bs| == 0
    ensures |bs| == 1 ==> r == Some(bs[0])
    ensures r.Some? ==> EnclosesNonEmpty(r.value, bs)
  {
    if |bs| == 0 then None
    else
      assert forall i :: 1 <= i < |bs| ==> bs[i] == bs[1..][i - 1];
      Some(MergeFrom(bs[0], bs[1..]))
  }

  /** The merge is the first box when every input is empty, and otherwise
      the least rectangle enclosing the non-empty inputs. */
  lemma MergeLeast(bs: seq<Rect>)
    ensures var r := MergeBoundingBoxes(bs);
      r.Some? && AllEmpty(bs) ==> r.value == bs[0]
    ensures var r := MergeBoundingBoxes(bs);
      r.Some? && !AllEmpty(bs) ==> !IsEmpty(r.value) && forall c :: EnclosesNonEmpty(c, bs) ==> Contains(c, r.value)
    ensures var r := MergeBoundingBoxes(bs);
      r.Some? ==> forall c :: Encloses(c, bs) ==> Contains(c, r.value)
  {
    if |bs| > 0 {
      MergeFromLeast(bs[0], bs[1..]);
      assert forall i :: 1 <= i < |bs| ==> bs[i] == bs[1..][i - 1];
      assert forall c :: EnclosesNonEmpty(c, bs) ==> (IsEmpty(bs[0]) || Contains(c, bs[0])) && EnclosesNonEmpty(c, bs[1..]);
    }
  }

  /** Reference definition: the least rectangle enclosing every member of a
      non-empty list, by componentwise min and max. */
  function Hull(rs: seq<Rect>): (h: Rect)
    requires |rs| > 0
    ensures Encloses(h, rs)
    ensures forall c :: Encloses(c, rs) ==> Contains(c, h)
  {
    if |rs| == 1 then rs[0]
    else
      var front := rs[..|rs| - 1];
      assert forall i :: 0 <= i < |front| ==> front[i] == rs[i];
      Union(Hull(front), rs[|rs| - 1])
  }

  /** The non-empty rectangles of `rs`, in order. */
  function NonEmptyOnly(rs: seq<Rect>): (ne: seq<Rect>)
    ensures forall r :: r in ne <==> r in rs && !IsEmpty(r)
  {
    if |rs| == 0 then []
    else
      var rest := NonEmptyOnly(rs[1..]);
      assert forall r :: r in rs <==> r == rs[0] || r in rs[1..];
      if IsEmpty(rs[0]) then rest else [rs[0]] + rest
  }

  /** As soon as one input is non-empty, the merge is the hull of the
      non-empty inputs: the empty ones leave no trace. */
  lemma MergeIsHull(bs: seq<Rect>)
    requires !AllEmpty(bs)
    ensures |NonEmptyOnly(bs)| > 0
    ensures MergeBoundingBoxes(bs) == Some(Hull(NonEmptyOnly(bs)))
  {
    var i0 :| 0 <= i0 < |bs| && !IsEmpty(bs[i0]);
    MergeLeast(bs);
    var ne := NonEmptyOnly(bs);
    assert bs[i0] in ne;
    var m, h := MergeBoundingBoxes(bs).value, Hull(ne);
    assert Encloses(m, ne) by {
      forall j | 0 <= j < |ne| ensures Contains(m, ne[j]) {
        assert ne[j] in bs;
        var i :| 0 <= i < |bs| && bs[i] == ne[j];
      }
    }
    assert EnclosesNonEmpty(h, bs) by {
      forall i | 0 <= i < |bs| && !IsEmpty(bs[i]) ensures Contains(h, bs[i]) {
        assert bs[i] in ne;
        var j :| 0 <= j < |ne| && ne[j] == bs[i];
      }
    }
    ContainsAntisymmetric(m, h);
  }

  /** When one input is non-empty, the merged rectangle depends only on
      which rectangles are merged, not on their order or multiplicity; when
      all are empty it is the first one. Either way two traversals of a
      component that start at the same box give the same figure
      candidate. */
  lemma {:induction false} MergeOrderIrrelevant(xs: seq<Rect>, ys: seq<Rect>)
    requires forall r :: r in xs <==> r in ys
    ensures |xs| == 0 ==> MergeBoundingBoxes(xs) == MergeBoundingBoxes(ys)
    ensures !AllEmpty(xs) ==> MergeBoundingBoxes(xs) == MergeBoundingBoxes(ys)
    ensures |xs| > 0 && |ys| > 0 && xs[0] == ys[0] ==> MergeBoundingBoxes(xs) == MergeBoundingBoxes(ys)
  {
    assert |xs| > 0 ==> xs[0] in ys;
    assert |ys| > 0 ==> ys[0] in xs;
    if |xs| > 0 {
      MergeLeast(xs);
      MergeLeast(ys);
      var a := MergeBoundingBoxes(xs).value;
      var b := MergeBoundingBoxes(ys).value;
      assert AllEmpty(xs) <==> AllEmpty(ys) by {
        forall i | 0 <= i < |xs| ensures xs[i] in ys { }
        forall j | 0 <= j < |ys| ensures ys[j] in xs { }
      }
      if !AllEmpty(xs) {
        forall c | EnclosesNonEmpty(c, xs)
          ensures EnclosesNonEmpty(c, ys)
        {
          forall j | 0 <= j < |ys| && !IsEmpty(ys[j])
            ensures Contains(c, ys[j])
          {
            assert ys[j] in xs;
          }
        }
        forall c | EnclosesNonEmpty(c, ys)
          ensures EnclosesNonEmpty(c, xs)
        {
          forall j | 0 <= j < |xs| && !IsEmpty(xs[j])
            ensures Contains(c, xs[j])
          {
            assert xs[j] in ys;
          }
        }
        ContainsAntisymmetric(a, b);
      }
    }
  }

  /** Merging upright rectangles gives an upright rectangle, so a regroup
      pass only ever sees upright boxes. */
  lemma MergeUpright(bs: seq<Rect>)
    requires |bs| > 0 && forall i :: 0 <= i < |bs| ==> IsUpright(bs[i])
    ensures IsUpright(MergeBoundingBoxes(bs).value)
  {
    MergeLeast(bs);
  }

  /** Two horizontal line segments merge to whichever comes first, so with
      only empty inputs the order does matter. */
  lemma MergeOrderOfLines()
    ensures MergeBoundingBoxes([Rect(0.0, 0.0, 10.0, 0.0), Rect(0.0, 5.0, 10.0, 5.0)]) == Some(Rect(0.0, 0.0, 10.0, 0.0))
    ensures MergeBoundingBoxes([Rect(0.0, 5.0, 10.0, 5.0), Rect(0.0, 0.0, 10.0, 0.0)]) == Some(Rect(0.0, 5.0, 10.0, 5.0))
  {
    assert AllEmpty([Rect(0.0, 0.0, 10.0, 0.0), Rect(0.0, 5.0, 10.0, 5.0)]);
    assert AllEmpty([Rect(0.0, 5.0, 10.0, 5.0), Rect(0.0, 0.0, 10.0, 0.0)]);
  }

  /** Each edge of the folded rectangle is an edge of the start box or of
      a later box. */
  lemma {:induction false} MergeFromEdges(acc: Rect, rest: seq<Rect>)
    ensures var r := MergeFrom(acc, rest);
      && (r.x0 == acc.x0 || exists i :: 0 <= i < |rest| && r.x0 == rest[i].x0)
      && (r.y0 == acc.y0 || exists i :: 0 <= i < |rest| && r.y0 == rest[i].y0)
      && (r.x1 == acc.x1 || exists i :: 0 <= i < |rest| && r.x1 == rest[i].x1)
      && (r.y1 == acc.y1 || exists i :: 0 <= i < |rest| && r.y1 == rest[i].y1)
    decreases |rest|
  {
    if |rest| > 0 {
      var acc' := Include(acc, rest[0]);
      MergeFromEdges(acc', rest[1..]);
      assert forall i :: 0 <= i < |rest| - 1 ==> rest[1..][i] == rest[i + 1];
    }
  }

  /** Each edge of the merged rectangle is an edge of some input. */
  lemma MergeEdgesAttained(bs: seq<Rect>)
    requires |bs| > 0
    ensures var r := MergeBoundingBoxes(bs).value;
      && (exists i :: 0 <= i < |bs| && r.x0 == bs[i].x0)
      && (exists i :: 0 <= i < |bs| && r.y0 == bs[i].y0)
      && (exists i :: 0 <= i < |bs| && r.x1 == bs[i].x1)
      && (exists i :: 0 <= i < |bs| && r.y1 == bs[i].y1)
  {
    MergeFromEdges(bs[0], bs[1..]);
    assert forall i :: 0 <= i < |bs| - 1 ==> bs[1..][i] == bs[i + 1];
  }
}
