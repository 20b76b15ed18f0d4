/**
 Axis-aligned rectangles in page coordinates, as PyMuPDF's `fitz.Rect`
 4-tuples `(x0, y0, x1, y1)`, with the four operations the figure pipeline
 uses: expansion by a threshold, union (`|`), intersection, and the two
 intersection tests (the R-tree's closed one and PyMuPDF's strict one).
 Coordinates are exact reals; floating-point rounding is not modelled.
 */
module Geometry {

  datatype Rect = Rect(x0: real, y0: real, x1: real, y1: real)

  function Min(a: real, b: real): real { if a <= b then a else b }
  function Max(a: real, b: real): real { if a <= b then b else a }

  /** `outer` covers `inner` on both axes. */
  predicate Contains(outer: Rect, inner: Rect)
  {
    && outer.x0 <= inner.x0 && inner.x1 <= outer.x1
    && outer.y0 <= inner.y0 && inner.y1 <= outer.y1
  }

  /** Every rectangle of `rs` lies inside `c`. */
  predicate Encloses(c: Rect, rs: seq<Rect>)
  {
    forall i :: 0 <= i < |rs| ==> Contains(c, rs[i])
  }

  /** Left edge not right of the right edge, top not below the bottom. */
  predicate IsUpright(r: Rect)
  {
    r.x0 <= r.x1 && r.y0 <= r.y1
  }

  /** PyMuPDF's `Rect.is_empty`: no positive width or no positive height. */
  predicate IsEmpty(r: Rect)
  {
    r.x0 >= r.x1 || r.y0 >= r.y1
  }

  /** `rect + (-t, -t, t, t)`: every side moved outward by `t`. */
  function Expand(r: Rect, t: real): (e: Rect)
    ensures e.x1 - e.x0 == (r.x1 - r.x0) + 2.0 * t
    ensures e.y1 - e.y0 == (r.y1 - r.y0) + 2.0 * t
    ensures e.x0 + e.x1 == r.x0 + r.x1 && e.y0 + e.y1 == r.y0 + r.y1
    ensures t >= 0.0 ==> Contains(e, r)
  {
    Rect(r.x0 - t, r.y0 - t, r.x1 + t, r.y1 + t)
  }

  /** `a | b`: the smallest rectangle containing both operands. */
  function Union(a: Rect, b: Rect): (u: Rect)
    ensures Contains(u, a) && Contains(u, b)
    ensures forall c :: Contains(c, a) && Contains(c, b) ==> Contains(c, u)
  {
    Rect(Min(a.x0, b.x0), Min(a.y0, b.y0), Max(a.x1, b.x1), Max(a.y1, b.y1))
  }

  /** Every non-empty rectangle of `rs` lies inside `c`; empty ones (line
      segments, points, inverted rectangles) are not asked for. */
  predicate EnclosesNonEmpty(c: Rect, rs: seq<Rect>)
  {
    forall i :: 0 <= i < |rs| && !IsEmpty(rs[i]) ==> Contains(c, rs[i])
  }

  /** No rectangle of `rs` has positive width and height. */
  predicate AllEmpty(rs: seq<Rect>)
  {
    forall i :: 0 <= i < |rs| ==> IsEmpty(rs[i])
  }

  /** `a | b` as PyMuPDF evaluates it (`Rect.include_rect`, library
      behaviour): an empty right operand leaves `a` as it is, an empty left
      operand is replaced by `b`, and two non-empty operands give their
      union. Infinite rectangles are not modelled. */
  function Include(a: Rect, b: Rect): (u: Rect)
    ensures IsEmpty(b) ==> u == a
    ensures IsEmpty(a) && !IsEmpty(b) ==> u == b
    ensures !IsEmpty(a) ==> Contains(u, a)
    ensures !IsEmpty(b) ==> Contains(u, b)
    ensures IsEmpty(u) <==> IsEmpty(a) && IsEmpty(b)
    ensures forall c :: (IsEmpty(a) || Contains(c, a)) && (IsEmpty(b) || Contains(c, b)) && !IsEmpty(u) ==> Contains(c, u)
  {
    if IsEmpty(b) then a else if IsEmpty(a) then b else Union(a, b)
  }

  /** On non-empty operands `|` is the least enclosing rectangle; a line
      segment on the right is dropped even when it lies outside the left
      operand, which `Union` would not do. */
  lemma IncludeIsUnion(a: Rect, b: Rect)
    ensures !IsEmpty(a) && !IsEmpty(b) ==> Include(a, b) == Union(a, b)
    ensures Include(Rect(0.0, 0.0, 10.0, 10.0), Rect(20.0, 5.0, 30.0, 5.0)) == Rect(0.0, 0.0, 10.0, 10.0)
    ensures Union(Rect(0.0, 0.0, 10.0, 10.0), Rect(20.0, 5.0, 30.0, 5.0)) == Rect(0.0, 0.0, 30.0, 10.0)
  {
  }

  /** `a & b`: the largest rectangle contained in both operands (it is
      inverted on some axis when the operands are apart on that axis). */
  function Intersection(a: Rect, b: Rect): (s: Rect)
    ensures forall c :: Contains(a, c) && Contains(b, c) ==> Contains(s, c)
    ensures IsUpright(s) ==> Contains(a, s) && Contains(b, s)
  {
    Rect(Max(a.x0, b.x0), Max(a.y0, b.y0), Min(a.x1, b.x1), Min(a.y1, b.y1))
  }

  /** The R-tree's intersection query: closed intervals overlap on both
      axes, so rectangles that only share an edge or a corner match. */
  predicate Touches(a: Rect, b: Rect)
  {
    && a.x0 <= b.x1 && b.x0 <= a.x1
    && a.y0 <= b.y1 && b.y0 <= a.y1
  }

  /** PyMuPDF's `Rect.intersects`: both rectangles are non-empty and so is
      their intersection. */
  predicate Intersects(a: Rect, b: Rect)
  {
    !IsEmpty(a) && !IsEmpty(b) && !IsEmpty(Intersection(a, b))
  }

  /** `(x1 - x0) * (y1 - y0)`, as computed before the size filter. */
  function Area(r: Rect): real
  {
    (r.x1 - r.x0) * (r.y1 - r.y0)
  }

  /** For upright rectangles the R-tree test is the intersection rectangle
      being upright (possibly of zero width or height); it is symmetric. */
  lemma TouchesIffIntersection(a: Rect, b: Rect)
    requires IsUpright(a) && IsUpright(b)
    ensures Touches(a, b) <==> IsUpright(Intersection(a, b))
    ensures Touches(a, b) <==> Touches(b, a)
  {
  }

  /** PyMuPDF's test, stated as strict overlap of the open rectangles. */
  lemma IntersectsIffOverlap(a: Rect, b: Rect)
    ensures Intersects(a, b) <==>
      && a.x0 < a.x1 && a.y0 < a.y1 && b.x0 < b.x1 && b.y0 < b.y1
      && a.x0 < b.x1 && b.x0 < a.x1 && a.y0 < b.y1 && b.y0 < a.y1
    ensures Intersects(a, b) <==> Intersects(b, a)
  {
  }

  /** A strict intersection is in particular an R-tree match; the converse
      fails for rectangles that only share an edge. */
  lemma IntersectsImpliesTouches(a: Rect, b: Rect)
    ensures Intersects(a, b) ==> Touches(a, b)
    ensures Touches(Rect(0.0, 0.0, 1.0, 1.0), Rect(1.0, 0.0, 2.0, 1.0))
    ensures !Intersects(Rect(0.0, 0.0, 1.0, 1.0), Rect(1.0, 0.0, 2.0, 1.0))
  {
  }

  /** Expansions compose additively and grow with the threshold. */
  lemma ExpandCompose(r: Rect, s: real, t: real)
    ensures Expand(Expand(r, s), t) == Expand(r, s + t)
    ensures s <= t ==> Contains(Expand(r, t), Expand(r, s))
  {
  }

  lemma ContainsTransitive(a: Rect, b: Rect, c: Rect)
    requires Contains(a, b) && Contains(b, c)
    ensures Contains(a, c)
  {
  }

  /** Growing the operands never turns a match into a miss. */
  lemma TouchesMonotone(a: Rect, b: Rect, a': Rect, b': Rect)
    requires Contains(a', a) && Contains(b', b)
    ensures Touches(a, b) ==> Touches(a', b')
  {
  }

  /** A rectangle containing a non-empty one is non-empty. */
  lemma ContainsNonEmpty(outer: Rect, inner: Rect)
    requires Contains(outer, inner) && !IsEmpty(inner)
    ensures !IsEmpty(outer)
  {
  }

  /** Two rectangles that enclose each other are equal. */
  lemma ContainsAntisymmetric(a: Rect, b: Rect)
    requires Contains(a, b) && Contains(b, a)
    ensures a == b
  {
  }

  /** Enclosing a sequence is monotone in the enclosing rectangle. */
  lemma EnclosesWiden(c: Rect, d: Rect, rs: seq<Rect>)
    requires Contains(d, c) && Encloses(c, rs)
    ensures Encloses(d, rs)
  {
  }
}
