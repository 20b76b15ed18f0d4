/**
 The per-page figure logic of `extract_vector`: group the page's drawings,
 widen each group by the text around it, keep the figures whose area is
 strictly between 5% and 30% of the page, and name them. Rendering the
 figure and hashing its PNG bytes are outside the model; `digest` stands for
 "the MD5 hex digest of the rendered clip of this rectangle".
 */
module Figures {
  import opened Options
  import opened Geometry
  import opened Merge
  import opened Seqs
  import opened Grouping
  import opened GroupingFacts
  import opened Chunking
  import opened TextAssociation
  import opened Naming

  const MaxDrawings: nat := 1000
  const MinSize: real := 0.05
  const MaxSize: real := 0.30
  const Threshold: real := 5.0

  /** `page.rect.width * page.rect.height`; PyMuPDF reports a negative
      extent as zero (library behaviour). */
  function PageArea(page: Rect): (a: real)
    ensures a >= 0.0
    ensures IsUpright(page) ==> a == Area(page)
  {
    Max(page.x1 - page.x0, 0.0) * Max(page.y1 - page.y0, 0.0)
  }

  /** The size filter: both bounds are strict. */
  predicate Accepted(area: real, pageArea: real)
  {
    pageArea * MinSize < area < pageArea * MaxSize
  }

  /** Which areas pass: exactly the open interval, so the bounds themselves
      are rejected, and nothing passes on a page of zero area. */
  lemma AcceptedRange(area: real, pageArea: real)
    requires pageArea >= 0.0
    ensures Accepted(area, pageArea) ==> pageArea > 0.0 && area > 0.0
    ensures !Accepted(pageArea * MinSize, pageArea) && !Accepted(pageArea * MaxSize, pageArea)
    ensures pageArea > 0.0 ==> Accepted(pageArea * 0.1, pageArea)
  {
  }

  /** On a 1000-unit page: 50 and 300 are the rejected bounds, 51 and 299
      pass, 49 and 301 do not. */
  lemma AcceptedExample()
    ensures !Accepted(50.0, 1000.0) && !Accepted(300.0, 1000.0)
    ensures Accepted(51.0, 1000.0) && Accepted(299.0, 1000.0)
    ensures !Accepted(49.0, 1000.0) && !Accepted(301.0, 1000.0)
  {
  }

  /** The rectangle a group becomes once surrounding text is included: it
      contains the group unless the group is empty, and every nearby text
      block (those are non-empty, since `intersects` demands it). */
  function FigureOf(group: Rect, blocks: seq<TextBlock>, t: real): (f: Rect)
    ensures !IsEmpty(group) ==> Contains(f, group)
    ensures forall b :: 0 <= b < |blocks| && Near(blocks[b], Expand(group, t)) ==> Contains(f, blocks[b].bbox)
  {
    var s := FindSurroundingText(blocks, group, t);
    var f := FigureBox(group, s);
    assert forall b :: 0 <= b < |blocks| && Near(blocks[b], Expand(group, t)) ==> blocks[b].bbox in s;
    f
  }

  /** A figure written to disk: its pre-filter group number, its rectangle
      and its file name. */
  datatype Figure = Figure(index: nat, bbox: Rect, name: string)

  /** The figure rectangle of every group, in group order. */
  function FigureBoxes(groups: seq<Rect>, blocks: seq<TextBlock>, t: real): (bs: seq<Rect>)
    ensures |bs| == |groups|
    ensures forall i :: 0 <= i < |groups| ==> bs[i] == FigureOf(groups[i], blocks, t)
  {
    seq(|groups|, i requires 0 <= i < |groups| => FigureOf(groups[i], blocks, t))
  }

  /** `f` is the figure saved for group `f.index`, whose figure rectangle is
      `boxes[f.index]`, and it passed the size filter. */
  predicate SavedFrom(f: Figure, boxes: seq<Rect>, pageArea: real)
  {
    f.index < |boxes| && f.bbox == boxes[f.index] && Accepted(Area(f.bbox), pageArea)
  }

  /** `f` carries the file name of its page, group number and digest. */
  predicate NamedAfter(f: Figure, pageNum: nat, digest: Rect -> string)
  {
    f.name == NameOf(pageNum, f.index, f.bbox, digest)
  }

  /** The file name of the figure with group number `index` and rectangle
      `bbox` on page `pageNum`: the digest is that of the rendered clip. */
  function NameOf(pageNum: nat, index: nat, bbox: Rect, digest: Rect -> string): string
  {
    FigureName(pageNum, index, digest(bbox))
  }

  /** Some saved figure carries group number `i`. */
  predicate Emitted(fs: seq<Figure>, i: nat)
  {
    exists k :: 0 <= k < |fs| && fs[k].index == i
  }

  /** The loop over `enumerate(grouped)` in `extract_vector`, given the
      figure rectangle of each group: the accepted ones, in group order. */
  function PageFigures(boxes: seq<Rect>, pageArea: real, pageNum: nat, digest: Rect -> string): seq<Figure>
  {
    if |boxes| == 0 then []
    else
      var n := |boxes| - 1;
      var fs := PageFigures(boxes[..n], pageArea, pageNum, digest);
      if Accepted(Area(boxes[n]), pageArea) then
        fs + [Figure(n, boxes[n], NameOf(pageNum, n, boxes[n], digest))]
      else fs
  }

  /** Each saved figure belongs to a group that passed the filter, and
      group numbers increase along the list. */
  lemma {:induction false} PageFiguresSaved(boxes: seq<Rect>, pageArea: real, pageNum: nat, digest: Rect -> string)
    ensures var fs := PageFigures(boxes, pageArea, pageNum, digest);
      && |fs| <= |boxes|
      && (forall k :: 0 <= k < |fs| ==> SavedFrom(fs[k], boxes, pageArea))
      && (forall k1, k2 :: 0 <= k1 < k2 < |fs| ==> fs[k1].index < fs[k2].index)
  {
    if |boxes| > 0 {
      var n := |boxes| - 1;
      var front := boxes[..n];
      PageFiguresSaved(front, pageArea, pageNum, digest);
      var fs := PageFigures(front, pageArea, pageNum, digest);
      forall k | 0 <= k < |fs|
        ensures fs[k].index < n && SavedFrom(fs[k], boxes, pageArea)
      {
        assert SavedFrom(fs[k], front, pageArea);
        assert front[fs[k].index] == boxes[fs[k].index];
      }
    }
  }

  /** One more group: the loop appends its figure when it passes. */
  lemma PageFiguresStep(boxes: seq<Rect>, j: nat, pageArea: real, pageNum: nat, digest: Rect -> string)
    requires j < |boxes|
    ensures PageFigures(boxes[..j + 1], pageArea, pageNum, digest) ==
      PageFigures(boxes[..j], pageArea, pageNum, digest) +
      (if Accepted(Area(boxes[j]), pageArea) then [Figure(j, boxes[j], NameOf(pageNum, j, boxes[j], digest))] else [])
  {
    assert boxes[..j + 1][..j] == boxes[..j];
  }

  /** Each saved figure is named after its page, group number and digest. */
  lemma {:induction false} PageFiguresNamed(boxes: seq<Rect>, pageArea: real, pageNum: nat, digest: Rect -> string)
    ensures forall k :: 0 <= k < |PageFigures(boxes, pageArea, pageNum, digest)| ==>
      NamedAfter(PageFigures(boxes, pageArea, pageNum, digest)[k], pageNum, digest)
  {
    if |boxes| > 0 {
      var n := |boxes| - 1;
      PageFiguresNamed(boxes[..n], pageArea, pageNum, digest);
      PageFiguresStep(boxes, n, pageArea, pageNum, digest);
      assert boxes[..n + 1] == boxes;
    }
  }

  /** Appending a figure with another group number leaves the question of
      whether `i` is used unchanged. */
  lemma EmittedAppend(fs: seq<Figure>, f: Figure, i: nat)
    requires f.index != i
    ensures Emitted(fs + [f], i) <==> Emitted(fs, i)
  {
    if Emitted(fs + [f], i) {
      var k :| 0 <= k < |fs| + 1 && (fs + [f])[k].index == i;
      assert k < |fs| && fs[k] == (fs + [f])[k];
    }
    if Emitted(fs, i) {
      var k :| 0 <= k < |fs| && fs[k].index == i;
      assert (fs + [f])[k] == fs[k];
    }
  }

  /** No figure of the first `n` groups has group number `n` or more. */
  lemma PageFiguresBelow(boxes: seq<Rect>, pageArea: real, pageNum: nat, digest: Rect -> string, i: nat)
    requires i >= |boxes|
    ensures !Emitted(PageFigures(boxes, pageArea, pageNum, digest), i)
  {
    var fs := PageFigures(boxes, pageArea, pageNum, digest);
    PageFiguresSaved(boxes, pageArea, pageNum, digest);
    forall k | 0 <= k < |fs| ensures fs[k].index != i {
      assert SavedFrom(fs[k], boxes, pageArea);
    }
  }

  /** A group number is used exactly when its figure passes the filter. */
  lemma {:induction false} PageFiguresEmitted(boxes: seq<Rect>, pageArea: real, pageNum: nat, digest: Rect -> string)
    ensures var fs := PageFigures(boxes, pageArea, pageNum, digest);
      forall i: nat :: i < |boxes| ==> (Emitted(fs, i) <==> Accepted(Area(boxes[i]), pageArea))
  {
    if |boxes| > 0 {
      var n := |boxes| - 1;
      var front := boxes[..n];
      PageFiguresEmitted(front, pageArea, pageNum, digest);
      PageFiguresBelow(front, pageArea, pageNum, digest, n);
      PageFiguresStep(boxes, n, pageArea, pageNum, digest);
      assert boxes[..n + 1] == boxes;
      var fs := PageFigures(front, pageArea, pageNum, digest);
      assert forall i :: 0 <= i < n ==> front[i] == boxes[i];
      if Accepted(Area(boxes[n]), pageArea) {
        var f := Figure(n, boxes[n], NameOf(pageNum, n, boxes[n], digest));
        assert (fs + [f])[|fs|].index == n;
        forall i: nat | i < n
          ensures Emitted(fs + [f], i) <==> Emitted(fs, i)
        {
          EmittedAppend(fs, f, i);
        }
      }
    }
  }

  /** The names on one page are pairwise different, because the group
      numbers are. */
  lemma PageFigureNamesDistinct(boxes: seq<Rect>, pageArea: real, pageNum: nat, digest: Rect -> string)
    ensures var fs := PageFigures(boxes, pageArea, pageNum, digest);
      forall k1, k2 :: 0 <= k1 < k2 < |fs| ==> fs[k1].name != fs[k2].name
  {
    var fs := PageFigures(boxes, pageArea, pageNum, digest);
    PageFiguresSaved(boxes, pageArea, pageNum, digest);
    PageFiguresNamed(boxes, pageArea, pageNum, digest);
    forall k1, k2 | 0 <= k1 < k2 < |fs|
      ensures fs[k1].name != fs[k2].name
    {
      assert NamedAfter(fs[k1], pageNum, digest) && NamedAfter(fs[k2], pageNum, digest);
      FigureNameInjective(pageNum, fs[k1].index, digest(fs[k1].bbox), pageNum, fs[k2].index, digest(fs[k2].bbox));
      assert fs[k1].name == FigureName(pageNum, fs[k1].index, digest(fs[k1].bbox));
    }
  }

  /** Figures on different pages never share a name. */
  lemma FigureNamesAcrossPages(p1: nat, p2: nat, f1: nat, f2: nat, h1: string, h2: string)
    requires p1 != p2
    ensures FigureName(p1, f1, h1) != FigureName(p2, f2, h2)
  {
    FigureNameInjective(p1, f1, h1, p2, f2, h2);
  }

  /** Group numbers are counted before filtering: with three groups of
      which the middle one is too small, the figures are numbered 0 and 2. */
  lemma PageFiguresGap(boxes: seq<Rect>, pageArea: real, pageNum: nat, digest: Rect -> string)
    requires |boxes| == 3
    requires Accepted(Area(boxes[0]), pageArea) && !Accepted(Area(boxes[1]), pageArea)
    requires Accepted(Area(boxes[2]), pageArea)
    ensures |PageFigures(boxes, pageArea, pageNum, digest)| == 2
    ensures PageFigures(boxes, pageArea, pageNum, digest)[0].index == 0
    ensures PageFigures(boxes, pageArea, pageNum, digest)[1].index == 2
  {
    assert boxes[..0] == [];
    PageFiguresStep(boxes, 0, pageArea, pageNum, digest);
    PageFiguresStep(boxes, 1, pageArea, pageNum, digest);
    PageFiguresStep(boxes, 2, pageArea, pageNum, digest);
    assert boxes[..3] == boxes;
  }

  /** The loop over `enumerate(grouped)` in `extract_vector`: figure
      rectangle, size filter and name for each group in turn. */
  method SaveFigures(grouped: seq<Rect>, blocks: seq<TextBlock>, pageSize: real, pageNum: nat,
                     digest: Rect -> string) returns (figures: seq<Figure>)
    ensures figures == PageFigures(FigureBoxes(grouped, blocks, Threshold), pageSize, pageNum, digest)
  {
    ghost var boxes := FigureBoxes(grouped, blocks, Threshold);
    figures := [];
    for groupNum := 0 to |grouped|
      invariant figures == PageFigures(boxes[..groupNum], pageSize, pageNum, digest)
    {
      var surrounding := FindSurroundingText(blocks, grouped[groupNum], Threshold);
      var figureBox := if |surrounding| > 0 then MergeBoundingBoxes([grouped[groupNum]] + surrounding).value
                       else grouped[groupNum];
      assert figureBox == boxes[groupNum];
      PageFiguresStep(boxes, groupNum, pageSize, pageNum, digest);
      var area := Area(figureBox);
      if Accepted(area, pageSize) {
        var name := NameOf(pageNum, groupNum, figureBox, digest);
        figures := figures + [Figure(groupNum, figureBox, name)];
      }
    }
    assert boxes[..|grouped|] == boxes;
  }

  /** What the saved figures of a page satisfy, from the lemmas above,
      stated against the groups they come from. */
  lemma PageFiguresFacts(grouped: seq<Rect>, blocks: seq<TextBlock>, pageSize: real, pageNum: nat,
                         digest: Rect -> string)
    ensures |PageFigures(FigureBoxes(grouped, blocks, Threshold), pageSize, pageNum, digest)| <= |grouped|
    ensures forall k :: 0 <= k < |PageFigures(FigureBoxes(grouped, blocks, Threshold), pageSize, pageNum, digest)| ==>
      && SavedFrom(PageFigures(FigureBoxes(grouped, blocks, Threshold), pageSize, pageNum, digest)[k],
                   FigureBoxes(grouped, blocks, Threshold), pageSize)
      && NamedAfter(PageFigures(FigureBoxes(grouped, blocks, Threshold), pageSize, pageNum, digest)[k], pageNum, digest)
      && (!IsEmpty(grouped[PageFigures(FigureBoxes(grouped, blocks, Threshold), pageSize, pageNum, digest)[k].index]) ==>
          Contains(PageFigures(FigureBoxes(grouped, blocks, Threshold), pageSize, pageNum, digest)[k].bbox,
                   grouped[PageFigures(FigureBoxes(grouped, blocks, Threshold), pageSize, pageNum, digest)[k].index]))
    ensures forall i: nat :: i < |grouped| ==>
      (Emitted(PageFigures(FigureBoxes(grouped, blocks, Threshold), pageSize, pageNum, digest), i) <==>
       Accepted(Area(FigureOf(grouped[i], blocks, Threshold)), pageSize))
    ensures var fs := PageFigures(FigureBoxes(grouped, blocks, Threshold), pageSize, pageNum, digest);
      forall k1, k2 :: 0 <= k1 < k2 < |fs| ==> fs[k1].name != fs[k2].name
  {
    var boxes := FigureBoxes(grouped, blocks, Threshold);
    PageFiguresSaved(boxes, pageSize, pageNum, digest);
    PageFiguresNamed(boxes, pageSize, pageNum, digest);
    PageFiguresEmitted(boxes, pageSize, pageNum, digest);
    PageFigureNamesDistinct(boxes, pageSize, pageNum, digest);
  }

  /** `extract_vector(doc, page, page_num, images_dir)` without the
      rendering and the writes: the figures it saves, and the groups they
      come from. */
  method ExtractVector(page: Rect, drawings: seq<Drawing>, blocks: seq<TextBlock>, pageNum: nat,
                       digest: Rect -> string) returns (figures: seq<Figure>, grouped: seq<Rect>)
    ensures ProcessedBy(KeptBoxes(drawings), MaxDrawings, Threshold, grouped)
    ensures |figures| <= |grouped| <= |KeptBoxes(drawings)|
    ensures forall k :: 0 <= k < |figures| ==>
      && SavedFrom(figures[k], FigureBoxes(grouped, blocks, Threshold), PageArea(page))
      && NamedAfter(figures[k], pageNum, digest)
      && (!IsEmpty(grouped[figures[k].index]) ==> Contains(figures[k].bbox, grouped[figures[k].index]))
    ensures forall i: nat :: i < |grouped| ==>
      (Emitted(figures, i) <==> Accepted(Area(FigureOf(grouped[i], blocks, Threshold)), PageArea(page)))
    ensures forall k1, k2 :: 0 <= k1 < k2 < |figures| ==> figures[k1].name != figures[k2].name
  {
    var pageSize := PageArea(page);
    grouped := ProcessLargeDrawing(drawings, MaxDrawings, Threshold);
    ProcessedByCovers(KeptBoxes(drawings), MaxDrawings, Threshold, grouped);
    figures := SaveFigures(grouped, blocks, pageSize, pageNum, digest);
    PageFiguresFacts(grouped, blocks, pageSize, pageNum, digest);
  }
}
