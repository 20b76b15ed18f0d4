/**
 `find_surrounding_text` and the figure rectangle built from it: the text
 blocks of the page (from `page.get_text("dict")["blocks"]`) are an input
 sequence; a block of type 0 is a text block, other types are images.
 */
module TextAssociation {
  import opened Options
  import opened Geometry
  import opened Merge

  datatype TextBlock = TextBlock(kind: int, bbox: Rect)

  /** A block is kept when it is a text block and PyMuPDF's `intersects`
      holds between the expanded group and the block's rectangle. */
  predicate Near(b: TextBlock, expanded: Rect)
  {
    b.kind == 0 && Intersects(expanded, b.bbox)
  }

  /** The loop of `find_surrounding_text`, over the blocks in page order. */
  function SurroundingFrom(blocks: seq<TextBlock>, expanded: Rect): (r: seq<Rect>)
    ensures |r| <= |blocks|
    ensures forall x :: x in r <==> exists i :: 0 <= i < |blocks| && Near(blocks[i], expanded) && blocks[i].bbox == x
  {
    if |blocks| == 0 then []
    else
      var front := blocks[..|blocks| - 1];
      var b := blocks[|blocks| - 1];
      assert forall i :: 0 <= i < |front| ==> front[i] == blocks[i];
      var r := SurroundingFrom(front, expanded);
      if Near(b, expanded) then r + [b.bbox] else r
  }

  /** `find_surrounding_text(page, group, threshold)`. */
  function FindSurroundingText(blocks: seq<TextBlock>, group: Rect, t: real): (r: seq<Rect>)
    ensures |r| <= |blocks|
    ensures forall x :: x in r <==> exists i :: 0 <= i < |blocks| && Near(blocks[i], Expand(group, t)) && blocks[i].bbox == x
  {
    SurroundingFrom(blocks, Expand(group, t))
  }

  /** Independent description of the selection: the positions of the kept
      blocks, in increasing order. */
  function NearIndices(blocks: seq<TextBlock>, expanded: Rect): (ix: seq<nat>)
    ensures forall i: nat :: i in ix <==> i < |blocks| && Near(blocks[i], expanded)
    ensures forall a, b :: 0 <= a < b < |ix| ==> ix[a] < ix[b]
  {
    if |blocks| == 0 then []
    else
      var n := |blocks| - 1;
      var front := blocks[..n];
      assert forall i :: 0 <= i < n ==> front[i] == blocks[i];
      var ix := NearIndices(front, expanded);
      assert forall a :: 0 <= a < |ix| ==> ix[a] < n by {
        forall a | 0 <= a < |ix| ensures ix[a] < n {
          var v: nat := ix[a];
          assert v in ix;
        }
      }
      if Near(blocks[n], expanded) then ix + [n] else ix
  }

  /** The rectangles returned are exactly the kept blocks' rectangles, in
      block order and without repetition of a position. */
  lemma {:induction false} SurroundingInOrder(blocks: seq<TextBlock>, expanded: Rect)
    ensures var ix := NearIndices(blocks, expanded);
      && |SurroundingFrom(blocks, expanded)| == |ix|
      && forall k :: 0 <= k < |ix| ==> ix[k] < |blocks| && SurroundingFrom(blocks, expanded)[k] == blocks[ix[k]].bbox
  {
    if |blocks| > 0 {
      var n := |blocks| - 1;
      var front := blocks[..n];
      SurroundingInOrder(front, expanded);
      var ix := NearIndices(front, expanded);
      var r := SurroundingFrom(front, expanded);
      assert forall k :: 0 <= k < |ix| ==> ix[k] < n && blocks[ix[k]] == front[ix[k]] by {
        assert forall k :: 0 <= k < |ix| ==> ix[k] in ix;
      }
      if Near(blocks[n], expanded) {
        assert NearIndices(blocks, expanded) == ix + [n];
        assert SurroundingFrom(blocks, expanded) == r + [blocks[n].bbox];
      } else {
        assert NearIndices(blocks, expanded) == ix;
        assert SurroundingFrom(blocks, expanded) == r;
      }
    }
  }

  /** Lines 172-176: with surrounding text, the figure is the merge of the
      group and that text; without, the group itself. The merge passes over
      empty rectangles, so a group that is a line segment is replaced by
      the text around it. */
  function FigureBox(group: Rect, surrounding: seq<Rect>): (f: Rect)
    ensures !IsEmpty(group) ==> Contains(f, group)
    ensures EnclosesNonEmpty(f, surrounding)
    ensures !IsEmpty(f) ==> forall c :: (IsEmpty(group) || Contains(c, group)) && EnclosesNonEmpty(c, surrounding) ==> Contains(c, f)
    ensures IsEmpty(f) ==> f == group
    ensures |surrounding| == 0 ==> f == group
  {
    if |surrounding| > 0 then
      var all := [group] + surrounding;
      var m := MergeBoundingBoxes(all);
      MergeLeast(all);
      assert all[0] == group;
      assert forall i :: 0 <= i < |surrounding| ==> all[i + 1] == surrounding[i];
      assert forall c :: EnclosesNonEmpty(c, all) <==> (IsEmpty(group) || Contains(c, group)) && EnclosesNonEmpty(c, surrounding);
      assert AllEmpty(all) <==> IsEmpty(group) && AllEmpty(surrounding);
      m.value
    else group
  }

  /** A group that is a horizontal line with a text block beside it
      becomes the text block's rectangle: the line is left out. */
  lemma FigureBoxOfLine()
    ensures FigureBox(Rect(20.0, 5.0, 30.0, 5.0), [Rect(0.0, 0.0, 10.0, 10.0)]) == Rect(0.0, 0.0, 10.0, 10.0)
  {
    var all := [Rect(20.0, 5.0, 30.0, 5.0), Rect(0.0, 0.0, 10.0, 10.0)];
    assert MergeBoundingBoxes(all) == Some(MergeFrom(all[0], all[1..]));
    assert all[1..] == [Rect(0.0, 0.0, 10.0, 10.0)];
  }

  /** A figure rectangle grows the group by at most what the nearby text
      adds: each edge is the group's or some kept block's. */
  lemma FigureBoxEdges(group: Rect, surrounding: seq<Rect>)
    ensures var f := FigureBox(group, surrounding);
      && (f.x0 == group.x0 || exists i :: 0 <= i < |surrounding| && f.x0 == surrounding[i].x0)
      && (f.y0 == group.y0 || exists i :: 0 <= i < |surrounding| && f.y0 == surrounding[i].y0)
      && (f.x1 == group.x1 || exists i :: 0 <= i < |surrounding| && f.x1 == surrounding[i].x1)
      && (f.y1 == group.y1 || exists i :: 0 <= i < |surrounding| && f.y1 == surrounding[i].y1)
  {
    if |surrounding| > 0 {
      var all := [group] + surrounding;
      var f := FigureBox(group, surrounding);
      assert f == MergeBoundingBoxes(all).value;
      MergeEdgesAttained(all);
      assert forall i :: 1 <= i < |all| ==> all[i] == surrounding[i - 1];
    }
  }
}
