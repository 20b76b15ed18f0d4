/**
 `process_large_drawing`: keep the drawings that have a usable rectangle,
 group them directly when there are fewer than `max_drawings`, otherwise
 group fixed-size slices separately and group the concatenated slice results
 once more.
 */
module Chunking {
  import opened Options
  import opened Geometry
  import opened Seqs
  import opened Grouping
  import opened GroupingFacts

  /** A path from `page.get_drawings()`; only its `"rect"` entry is used,
      and it may be absent. */
  datatype Drawing = Drawing(rect: Option<Rect>)

  /** Truth value of a rectangle: PyMuPDF treats a rectangle as false
      exactly when all four coordinates are zero (library behaviour). */
  predicate Truthy(r: Rect)
  {
    !(r.x0 == 0.0 && r.y0 == 0.0 && r.x1 == 0.0 && r.y1 == 0.0)
  }

  /** `d.get("rect")` is present and true. */
  predicate HasRect(d: Drawing)
  {
    d.rect.Some? && Truthy(d.rect.value)
  }

  /** `[fitz.Rect(d["rect"]) for d in drawings if d.get("rect")]`. */
  function KeptBoxes(ds: seq<Drawing>): (bs: seq<Rect>)
    ensures |bs| <= |ds|
    ensures forall b :: b in bs <==> exists i :: 0 <= i < |ds| && HasRect(ds[i]) && ds[i].rect.value == b
    ensures forall k :: 0 <= k < |bs| ==> Truthy(bs[k])
  {
    if |ds| == 0 then []
    else
      var front := KeptBoxes(ds[..|ds| - 1]);
      var d := ds[|ds| - 1];
      assert forall i :: 0 <= i < |ds| - 1 ==> ds[..|ds| - 1][i] == ds[i];
      if HasRect(d) then front + [d.rect.value] else front
  }

  /** The filter keeps the drawings' order: filtering two lists and
      concatenating equals filtering their concatenation. */
  lemma {:induction false} KeptBoxesAppend(xs: seq<Drawing>, ys: seq<Drawing>)
    ensures KeptBoxes(xs + ys) == KeptBoxes(xs) + KeptBoxes(ys)
    decreases |ys|
  {
    if |ys| == 0 {
      assert xs + ys == xs;
    } else {
      var ys' := ys[..|ys| - 1];
      KeptBoxesAppend(xs, ys');
      assert (xs + ys)[..|xs + ys| - 1] == xs + ys';
    }
  }

  /** A single drawing is kept exactly when it has a true rectangle. */
  lemma KeptBoxesSingle(d: Drawing)
    ensures KeptBoxes([d]) == if HasRect(d) then [d.rect.value] else []
  {
    assert [d][..0] == [];
  }

  /** Python's `s[a:b]` for non-negative bounds: both bounds are clamped to
      the length, and a slice whose start is past its end is empty. */
  function PySlice<T>(s: seq<T>, a: nat, b: nat): (r: seq<T>)
    ensures |r| <= |s|
    ensures a <= b <= |s| ==> r == s[a..b]
    ensures a <= |s| <= b ==> r == s[a..]
    ensures |s| <= a ==> r == []
    ensures b <= a ==> r == []
  {
    var lo := if a < |s| then a else |s|;
    var hi := if b < |s| then b else |s|;
    if lo <= hi then s[lo..hi] else []
  }

  /** `bboxes[k * M : (k + 1) * M]`. */
  function Chunk(kept: seq<Rect>, m: nat, k: nat): (c: seq<Rect>)
    requires m > 0
    ensures |c| <= m
  {
    PySlice(kept, Mul(k, m), Mul(k + 1, m))
  }

  /** `k * m`, as repeated addition. The slice bounds are written with
      `Mul` and `Quot` so that facts about them follow by induction
      (`MulIs`, `QuotIs`) rather than by nonlinear arithmetic on `*` and
      `/`, which the solver handles unreliably. */
  function Mul(k: nat, m: nat): (r: nat)
  {
    if k == 0 then 0 else Mul(k - 1, m) + m
  }

  lemma {:induction false} MulIs(k: nat, m: nat)
    ensures Mul(k, m) == k * m
  {
    if k > 0 { MulIs(k - 1, m); }
  }

  /** `n // m`, by repeated subtraction (see `Mul` for why). */
  function Quot(n: nat, m: nat): nat
    requires m > 0
    decreases n
  {
    if n < m then 0 else Quot(n - m, m) + 1
  }

  lemma {:induction false} QuotIs(n: nat, m: nat)
    requires m > 0
    ensures Quot(n, m) == n / m
    decreases n
  {
    if n >= m {
      QuotIs(n - m, m);
      DivBounds(n - m, m);
      var q := (n - m) / m;
      MulSucc(q, m);
      assert (q + 1) * m <= n < (q + 1) * m + m;
      DivUnique(n, m, q + 1);
    }
  }

  /** The quotient is the one `q` with `q * m <= n < q * m + m`. */
  lemma DivUnique(n: nat, m: nat, q: nat)
    requires m > 0 && q * m <= n < q * m + m
    ensures n / m == q
  {
    DivBounds(n, m);
    var d := n / m;
    if d < q {
      MulLe(d + 1, q, m);
      MulSucc(d, m);
    } else if d > q {
      MulLe(q + 1, d, m);
      MulSucc(q, m);
    }
  }

  /** `num_chunks = len(bboxes) // M + 1`. */
  function NumChunks(n: nat, m: nat): nat
    requires m > 0
  {
    Quot(n, m) + 1
  }

  /** The slices of `process_large_drawing`, in order. */
  function Chunks(kept: seq<Rect>, m: nat): (cs: seq<seq<Rect>>)
    requires m > 0
    ensures |cs| == NumChunks(|kept|, m)
    ensures forall k :: 0 <= k < |cs| ==> cs[k] == Chunk(kept, m, k)
  {
    seq(NumChunks(|kept|, m), k requires 0 <= k => Chunk(kept, m, k))
  }

  lemma MulLe(a: nat, b: nat, m: nat)
    requires a <= b
    ensures a * m <= b * m
  {
  }

  lemma MulSucc(k: nat, m: nat)
    ensures (k + 1) * m == k * m + m
  {
  }

  /** `len // M` full slices fit, the next one does not, and the remainder
      is what is left. */
  lemma DivBounds(n: nat, m: nat)
    requires m > 0
    ensures (n / m) * m <= n < (n / m) * m + m
    ensures n - (n / m) * m == n % m
  {
    assert n == (n / m) * m + n % m;
  }

  /** Length of slice `k` (for `k <= len // M`): full before the last one,
      the remainder for the last one. */
  lemma ChunkLength(kept: seq<Rect>, m: nat, k: nat)
    requires m > 0 && k <= |kept| / m
    ensures |Chunk(kept, m, k)| == if k < |kept| / m then m else |kept| % m
  {
    var n, q := |kept|, |kept| / m;
    DivBounds(n, m);
    ChunkSlice(kept, m, k);
    var a := k * m;
    if k < q {
      MulLe(k + 1, q, m);
      MulSucc(k, m);
      assert a + m <= n;
    } else {
      assert a == q * m;
    }
  }

  /** Every slice but the last is full, and the last holds the remainder,
      so it is empty exactly when `M` divides the number of boxes. */
  lemma ChunkSizes(kept: seq<Rect>, m: nat)
    requires m > 0
    ensures |Chunks(kept, m)| == |kept| / m + 1
    ensures forall k :: 0 <= k < |kept| / m ==> |Chunks(kept, m)[k]| == m
    ensures |Chunks(kept, m)[|Chunks(kept, m)| - 1]| == |kept| % m
    ensures Chunks(kept, m)[|Chunks(kept, m)| - 1] == [] <==> |kept| % m == 0
  {
    QuotIs(|kept|, m);
    forall k | 0 <= k < |kept| / m
      ensures |Chunks(kept, m)[k]| == m
    {
      ChunkLength(kept, m, k);
    }
    ChunkLength(kept, m, |kept| / m);
  }

  /** The slices, concatenated, give back the boxes unchanged: nothing is
      lost, duplicated or reordered. */
  lemma ChunksConcat(kept: seq<Rect>, m: nat)
    requires m > 0
    ensures Flatten(Chunks(kept, m)) == kept
  {
    var cs := Chunks(kept, m);
    var n := |kept|;
    ChunksPrefix(kept, m, |cs|);
    assert cs[..|cs|] == cs;
    MulIs(|cs|, m);
    QuotIs(n, m);
    DivBounds(n, m);
    MulSucc(n / m, m);
  }

  /** `min(x, n)`: where a slice bound lands on a list of length `n`. */
  function Cap(x: nat, n: nat): (c: nat)
    ensures c <= n && c <= x && (c == x || c == n)
  {
    if x < n then x else n
  }

  /** Slice `k` covers the positions from `min(k * M, len)` up to
      `min((k + 1) * M, len)`. */
  lemma ChunkSlice(kept: seq<Rect>, m: nat, k: nat)
    requires m > 0
    ensures Cap(k * m, |kept|) <= Cap(k * m + m, |kept|)
    ensures Chunk(kept, m, k) == kept[Cap(k * m, |kept|)..Cap(k * m + m, |kept|)]
  {
    MulSucc(k, m);
    MulIs(k, m);
    MulIs(k + 1, m);
  }

  /** The first `j` slices concatenate to the first `min(j * M, len)` boxes. */
  lemma {:induction false} ChunksPrefix(kept: seq<Rect>, m: nat, j: nat)
    requires m > 0 && j <= NumChunks(|kept|, m)
    ensures Flatten(Chunks(kept, m)[..j]) == kept[..Cap(Mul(j, m), |kept|)]
  {
    if j > 0 {
      var i := j - 1;
      var lo, hi := Cap(Mul(i, m), |kept|), Cap(Mul(j, m), |kept|);
      ChunksPrefix(kept, m, i);
      assert Chunks(kept, m)[i] == kept[lo..hi];
      PrefixStep(kept, Chunks(kept, m), i, lo, hi);
    }
  }

  /** One more part that continues the prefix extends it. */
  lemma PrefixStep<T>(s: seq<T>, parts: seq<seq<T>>, i: nat, lo: nat, hi: nat)
    requires i < |parts| && lo <= hi <= |s|
    requires Flatten(parts[..i]) == s[..lo] && parts[i] == s[lo..hi]
    ensures Flatten(parts[..i + 1]) == s[..hi]
  {
    assert parts[..i + 1] == parts[..i] + [parts[i]];
    FlattenAppend(parts[..i], parts[i]);
    assert s[..lo] + s[lo..hi] == s[..hi];
  }

  /** Result of the chunked path: each slice grouped on its own, then the
      concatenation of those results grouped once more. */
  ghost predicate ChunkedGrouped(kept: seq<Rect>, m: nat, t: real, groups: seq<Rect>)
    requires m > 0
  {
    exists partial: seq<seq<Rect>> ::
      && |partial| == NumChunks(|kept|, m)
      && (forall k :: 0 <= k < |partial| ==> Grouped(Chunks(kept, m)[k], t, partial[k]))
      && Grouped(Flatten(partial), t, groups)
  }

  /** The result of `process_large_drawing` on the kept boxes: with fewer
      boxes than `max_drawings` the direct grouping, otherwise the chunked
      grouping with a single regroup pass. */
  ghost predicate ProcessedBy(kept: seq<Rect>, m: nat, t: real, groups: seq<Rect>)
    requires m > 0
  {
    if |kept| < m then Grouped(kept, t, groups) else ChunkedGrouped(kept, m, t, groups)
  }

  /** `group_bounding_boxes(boxes, threshold)`, seen through its result only. */
  method Group(boxes: seq<Rect>, t: real) returns (groups: seq<Rect>)
    ensures Grouped(boxes, t, groups)
  {
    var comps;
    groups, comps := GroupBoundingBoxes(boxes, t);
  }

  /** The loop over the slices: each grouped on its own, the results
      concatenated in slice order. */
  method GroupChunks(chunks: seq<seq<Rect>>, t: real) returns (allResults: seq<Rect>, partial: seq<seq<Rect>>)
    ensures |partial| == |chunks| && allResults == Flatten(partial)
    ensures forall q :: 0 <= q < |chunks| ==> Grouped(chunks[q], t, partial[q])
  {
    allResults, partial := [], [];
    for k := 0 to |chunks|
      invariant |partial| == k && allResults == Flatten(partial)
      invariant forall q :: 0 <= q < k ==> Grouped(chunks[q], t, partial[q])
    {
      var results := Group(chunks[k], t);
      FlattenAppend(partial, results);
      allResults := allResults + results;
      partial := partial + [results];
    }
  }

  /** `process_large_drawing(drawings, max_drawings, threshold)`. */
  method ProcessLargeDrawing(drawings: seq<Drawing>, maxDrawings: int, t: real) returns (groups: seq<Rect>)
    requires maxDrawings > 0
    ensures ProcessedBy(KeptBoxes(drawings), maxDrawings, t, groups)
  {
    var kept := KeptBoxes(drawings);
    if |kept| < maxDrawings {
      groups := Group(kept, t);
    } else {
      var chunks := Chunks(kept, maxDrawings);
      var allResults, partial := GroupChunks(chunks, t);
      groups := Group(allResults, t);
    }
  }

  /** Every non-empty rectangle of `boxes` lies inside some rectangle of
      `groups`. */
  ghost predicate Covers(boxes: seq<Rect>, groups: seq<Rect>)
  {
    forall i :: 0 <= i < |boxes| && !IsEmpty(boxes[i]) ==> CoveredBy(boxes[i], groups)
  }

  ghost predicate CoveredBy(b: Rect, groups: seq<Rect>)
  {
    exists g :: 0 <= g < |groups| && Contains(groups[g], b)
  }

  lemma CoversTransitive(a: seq<Rect>, b: seq<Rect>, c: seq<Rect>)
    requires Covers(a, b) && Covers(b, c)
    ensures Covers(a, c)
  {
    forall i | 0 <= i < |a| && !IsEmpty(a[i])
      ensures CoveredBy(a[i], c)
    {
      var j :| 0 <= j < |b| && Contains(b[j], a[i]);
      ContainsNonEmpty(b[j], a[i]);
      var g :| 0 <= g < |c| && Contains(c[g], b[j]);
      ContainsTransitive(c[g], b[j], a[i]);
    }
  }

  /** Covering part by part covers the concatenations. */
  lemma {:induction false} CoversFlatten(xss: seq<seq<Rect>>, yss: seq<seq<Rect>>)
    requires |xss| == |yss|
    requires forall k :: 0 <= k < |xss| ==> Covers(xss[k], yss[k])
    ensures Covers(Flatten(xss), Flatten(yss))
  {
    if |xss| > 0 {
      var n := |xss| - 1;
      CoversFlatten(xss[..n], yss[..n]);
      var fx, fy := Flatten(xss[..n]), Flatten(yss[..n]);
      assert Flatten(xss) == fx + xss[n];
      assert Flatten(yss) == fy + yss[n];
      forall i | 0 <= i < |fx + xss[n]| && !IsEmpty((fx + xss[n])[i])
        ensures CoveredBy((fx + xss[n])[i], fy + yss[n])
      {
        if i < |fx| {
          assert CoveredBy(fx[i], fy);
          var g :| 0 <= g < |fy| && Contains(fy[g], fx[i]);
          assert (fy + yss[n])[g] == fy[g];
        } else {
          assert CoveredBy(xss[n][i - |fx|], yss[n]);
          var g :| 0 <= g < |yss[n]| && Contains(yss[n][g], xss[n][i - |fx|]);
          assert (fy + yss[n])[|fy| + g] == yss[n][g];
        }
      }
    }
  }

  /** A concatenation is empty exactly when every part is. */
  lemma {:induction false} FlattenEmpty<T>(ss: seq<seq<T>>)
    ensures |Flatten(ss)| == 0 <==> forall k :: 0 <= k < |ss| ==> |ss[k]| == 0
  {
    if |ss| > 0 {
      FlattenEmpty(ss[..|ss| - 1]);
      assert forall k :: 0 <= k < |ss| - 1 ==> ss[..|ss| - 1][k] == ss[k];
    }
  }

  /** A rectangle encloses a concatenation exactly when it encloses every
      part. */
  lemma {:induction false} EnclosesFlatten(c: Rect, ss: seq<seq<Rect>>)
    ensures Encloses(c, Flatten(ss)) <==> forall k :: 0 <= k < |ss| ==> Encloses(c, ss[k])
  {
    if |ss| > 0 {
      var n := |ss| - 1;
      EnclosesFlatten(c, ss[..n]);
      var f := Flatten(ss[..n]);
      assert Flatten(ss) == f + ss[n];
      assert forall k :: 0 <= k < n ==> ss[..n][k] == ss[k];
      assert Encloses(c, f + ss[n]) <==> Encloses(c, f) && Encloses(c, ss[n]) by {
        assert forall i :: 0 <= i < |f| ==> (f + ss[n])[i] == f[i];
        assert forall i :: 0 <= i < |ss[n]| ==> (f + ss[n])[|f| + i] == ss[n][i];
      }
    }
  }

  /** What one grouping pass promises, in terms of covering. */
  lemma {:induction false} GroupedCovers(boxes: seq<Rect>, t: real, groups: seq<Rect>)
    requires Grouped(boxes, t, groups)
    ensures Covers(boxes, groups)
    ensures |groups| <= |boxes| && (|groups| == 0 <==> |boxes| == 0)
    ensures forall c :: Encloses(c, boxes) ==> Encloses(c, groups)
  {
    GroupedFacts(boxes, t, groups);
  }

  /** Every non-empty kept rectangle lies inside a rectangle returned by
      the chunked path (inside its slice's group, which lies inside a
      regrouped one); there are no more results than boxes and none only for
      no boxes; and any rectangle enclosing the boxes encloses the results. */
  lemma {:induction false} ChunkedCovers(kept: seq<Rect>, m: nat, t: real, groups: seq<Rect>)
    requires m > 0 && ChunkedGrouped(kept, m, t, groups)
    ensures Covers(kept, groups)
    ensures |groups| <= |kept| && (|groups| == 0 <==> |kept| == 0)
    ensures forall c :: Encloses(c, kept) ==> Encloses(c, groups)
  {
    var partial :| && |partial| == NumChunks(|kept|, m)
      && (forall k :: 0 <= k < |partial| ==> Grouped(Chunks(kept, m)[k], t, partial[k]))
      && Grouped(Flatten(partial), t, groups);
    ChunksConcat(kept, m);
    PartsCovered(Chunks(kept, m), t, partial);
    GroupedCovers(Flatten(partial), t, groups);
    CoversTransitive(kept, Flatten(partial), groups);
  }

  /** The facts of a single grouping, slice by slice. */
  lemma {:induction false} EachPartCovered(cs: seq<seq<Rect>>, t: real, partial: seq<seq<Rect>>)
    requires |partial| == |cs|
    requires forall k :: 0 <= k < |cs| ==> Grouped(cs[k], t, partial[k])
    ensures forall k :: 0 <= k < |cs| ==> Covers(cs[k], partial[k])
    ensures forall k :: 0 <= k < |cs| ==> |partial[k]| <= |cs[k]| && (|partial[k]| == 0 <==> |cs[k]| == 0)
    ensures forall k, c :: 0 <= k < |cs| && Encloses(c, cs[k]) ==> Encloses(c, partial[k])
  {
    forall k | 0 <= k < |cs|
      ensures Covers(cs[k], partial[k])
      ensures |partial[k]| <= |cs[k]| && (|partial[k]| == 0 <==> |cs[k]| == 0)
      ensures forall c :: Encloses(c, cs[k]) ==> Encloses(c, partial[k])
    {
      GroupedCovers(cs[k], t, partial[k]);
    }
  }

  /** Grouping slice by slice keeps the facts of a single grouping for the
      concatenations. */
  lemma {:induction false} PartsCovered(cs: seq<seq<Rect>>, t: real, partial: seq<seq<Rect>>)
    requires |partial| == |cs|
    requires forall k :: 0 <= k < |cs| ==> Grouped(cs[k], t, partial[k])
    ensures Covers(Flatten(cs), Flatten(partial))
    ensures |Flatten(partial)| <= |Flatten(cs)| && (|Flatten(partial)| == 0 <==> |Flatten(cs)| == 0)
    ensures forall c :: Encloses(c, Flatten(cs)) ==> Encloses(c, Flatten(partial))
  {
    EachPartCovered(cs, t, partial);
    FlattenCovered(cs, partial);
  }

  /** Covering, size and enclosure facts that hold part by part hold for
      the concatenations. */
  lemma {:induction false} FlattenCovered(cs: seq<seq<Rect>>, partial: seq<seq<Rect>>)
    requires |partial| == |cs|
    requires forall k :: 0 <= k < |cs| ==> Covers(cs[k], partial[k])
    requires forall k :: 0 <= k < |cs| ==> |partial[k]| <= |cs[k]| && (|partial[k]| == 0 <==> |cs[k]| == 0)
    requires forall k, c :: 0 <= k < |cs| && Encloses(c, cs[k]) ==> Encloses(c, partial[k])
    ensures Covers(Flatten(cs), Flatten(partial))
    ensures |Flatten(partial)| <= |Flatten(cs)| && (|Flatten(partial)| == 0 <==> |Flatten(cs)| == 0)
    ensures forall c :: Encloses(c, Flatten(cs)) ==> Encloses(c, Flatten(partial))
  {
    CoversFlatten(cs, partial);
    FlattenLengthLe(partial, cs);
    FlattenEmpty(partial);
    FlattenEmpty(cs);
    forall c | Encloses(c, Flatten(cs))
      ensures Encloses(c, Flatten(partial))
    {
      EnclosesFlatten(c, cs);
      EnclosesFlatten(c, partial);
    }
  }

  /** Both paths of `process_large_drawing` return rectangles that together
      cover every non-empty kept drawing, no more of them than kept
      drawings, and nothing outside any rectangle that encloses all kept
      drawings. */
  lemma {:induction false} ProcessedByCovers(kept: seq<Rect>, m: nat, t: real, groups: seq<Rect>)
    requires m > 0 && ProcessedBy(kept, m, t, groups)
    ensures Covers(kept, groups)
    ensures |groups| <= |kept| && (|groups| == 0 <==> |kept| == 0)
    ensures forall c :: Encloses(c, kept) ==> Encloses(c, groups)
  {
    if |kept| < m {
      GroupedCovers(kept, t, groups);
    } else {
      ChunkedCovers(kept, m, t, groups);
    }
  }

  /** With exactly `max_drawings` boxes the `<` test fails, so the chunked
      path runs: one full slice and one empty slice. */
  lemma ChunksAtLimit(kept: seq<Rect>, m: nat)
    requires m > 0 && |kept| == m
    ensures Chunks(kept, m) == [kept, []]
  {
    QuotIs(|kept|, m);
    assert |kept| / m == 1;
    var cs := Chunks(kept, m);
    assert cs[0] == PySlice(kept, 0, m) == kept;
    assert cs[1] == PySlice(kept, m, 2 * m) == [];
  }
}
