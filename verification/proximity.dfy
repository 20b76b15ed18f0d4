/**
 The proximity graph of `group_bounding_boxes`: every box is inserted into
 an R-tree expanded by the threshold, and box `i` gets an edge to every
 other index `j` whose expanded box the R-tree reports as intersecting the
 expanded box of `i`. The R-tree is only an accelerator; the edge relation
 is stated directly. Assumption (library behaviour): the R-tree reports
 closed-interval intersection, so expanded boxes that only touch match.
 */
module Proximity {
  import opened Geometry

  /** Indices `i` and `j` of `boxes` are neighbours. */
  predicate Adjacent(boxes: seq<Rect>, t: real, i: int, j: int)
  {
    && 0 <= i < |boxes| && 0 <= j < |boxes| && i != j
    && Touches(Expand(boxes[i], t), Expand(boxes[j], t))
  }

  /** Insert and query use the same expansion, so the relation is symmetric;
      the `i != j` test makes it irreflexive. */
  lemma AdjacentSymmetric(boxes: seq<Rect>, t: real, i: int, j: int)
    ensures Adjacent(boxes, t, i, j) <==> Adjacent(boxes, t, j, i)
    ensures !Adjacent(boxes, t, i, i)
  {
  }

  /** Signed gap between two rectangles along x (negative when they
      overlap on that axis), and along y. */
  function GapX(a: Rect, b: Rect): real { Max(a.x0 - b.x1, b.x0 - a.x1) }
  function GapY(a: Rect, b: Rect): real { Max(a.y0 - b.y1, b.y0 - a.y1) }

  /** Reference reading of the edge relation: two distinct boxes are
      neighbours exactly when their gap on each axis is at most twice the
      threshold (each side is expanded by the threshold). */
  lemma AdjacentIffGap(boxes: seq<Rect>, t: real, i: int, j: int)
    requires 0 <= i < |boxes| && 0 <= j < |boxes|
    ensures Adjacent(boxes, t, i, j) <==>
      i != j && GapX(boxes[i], boxes[j]) <= 2.0 * t && GapY(boxes[i], boxes[j]) <= 2.0 * t
  {
  }

  /** A larger threshold keeps every edge. */
  lemma AdjacentMonotone(boxes: seq<Rect>, s: real, t: real, i: int, j: int)
    requires s <= t
    ensures Adjacent(boxes, s, i, j) ==> Adjacent(boxes, t, i, j)
  {
    if 0 <= i < |boxes| && 0 <= j < |boxes| {
      ExpandCompose(boxes[i], s, t);
      ExpandCompose(boxes[j], s, t);
      TouchesMonotone(Expand(boxes[i], s), Expand(boxes[j], s), Expand(boxes[i], t), Expand(boxes[j], t));
    }
  }

  /** `adj_list[i]` restricted to candidates `from..|boxes|-1`: the
      neighbours of `i` there, in ascending index order. */
  function NeighboursFrom(boxes: seq<Rect>, t: real, i: int, from: nat): (r: seq<nat>)
    requires from <= |boxes|
    ensures forall j :: j in r <==> from <= j && Adjacent(boxes, t, i, j)
    ensures forall a :: 0 <= a < |r| ==> Adjacent(boxes, t, i, r[a])
    ensures forall a, b :: 0 <= a < b < |r| ==> r[a] < r[b]
    decreases |boxes| - from
  {
    if from == |boxes| then []
    else
      var rest := NeighboursFrom(boxes, t, i, from + 1);
      assert forall b :: 0 <= b < |rest| ==> rest[b] in rest && from < rest[b];
      if Adjacent(boxes, t, i, from) then [from] + rest else rest
  }

  /** `adj_list[i]`: every index the R-tree query returns for box `i`,
      except `i` itself. The R-tree's result order is unspecified; the model
      lists neighbours in ascending order. */
  function Neighbours(boxes: seq<Rect>, t: real, i: int): (r: seq<nat>)
    ensures forall j :: j in r <==> Adjacent(boxes, t, i, j)
    ensures forall a :: 0 <= a < |r| ==> Adjacent(boxes, t, i, r[a])
    ensures forall a, b :: 0 <= a < b < |r| ==> r[a] < r[b]
  {
    NeighboursFrom(boxes, t, i, 0)
  }
}
