/**
 `group_bounding_boxes`: connected components of the proximity graph, one
 merged rectangle per component, components in order of their smallest
 index. The recursive DFS of the source is run here with an explicit stack;
 the set of indices reached from a seed is the same, and the merged
 rectangle does not depend on the visiting order (`MergeOrderIrrelevant`).
 */
module Grouping {
  import opened Options
  import opened Geometry
  import opened Merge
  import opened Proximity
  import opened Seqs

  /** The rectangles at the indices `c`, in that order. */
  function Pick(boxes: seq<Rect>, c: seq<nat>): (rs: seq<Rect>)
    requires forall v :: v in c ==> v < |boxes|
    ensures |rs| == |c|
    ensures forall m :: 0 <= m < |c| ==> c[m] in c && rs[m] == boxes[c[m]]
  {
    assert forall m :: 0 <= m < |c| ==> c[m] in c;
    seq(|c|, m requires 0 <= m < |c| => boxes[c[m]])
  }

  /** `comps` splits `0..n-1` into non-empty lists: every index is in
      exactly one list, once. */
  ghost predicate IsPartition(comps: seq<seq<nat>>, n: nat)
  {
    && (forall k :: 0 <= k < |comps| ==> |comps[k]| > 0 && Distinct(comps[k]))
    && (forall k, v :: 0 <= k < |comps| && v in comps[k] ==> v < n)
    && (forall k1, k2, v :: 0 <= k1 < k2 < |comps| && v in comps[k1] ==> v !in comps[k2])
    && (forall v :: 0 <= v < n ==> v in Flatten(comps))
  }

  /** No edge leaves a component. */
  ghost predicate Closed(boxes: seq<Rect>, t: real, comps: seq<seq<nat>>)
  {
    forall k, u, v :: 0 <= k < |comps| && u in comps[k] && Adjacent(boxes, t, u, v) ==> v in comps[k]
  }

  /** Every member after the first was discovered through an edge from an
      earlier member, so the component is connected. */
  ghost predicate Linked(boxes: seq<Rect>, t: real, c: seq<nat>)
  {
    forall m :: 0 < m < |c| ==> ReachedFromEarlier(boxes, t, c, m)
  }

  ghost predicate ReachedFromEarlier(boxes: seq<Rect>, t: real, c: seq<nat>, m: int)
    requires 0 <= m < |c|
  {
    exists p :: 0 <= p < m && Adjacent(boxes, t, c[p], c[m])
  }

  /** Each component starts at its smallest index, and components come in
      increasing order of that index. */
  ghost predicate SeedOrdered(comps: seq<seq<nat>>)
    requires forall k :: 0 <= k < |comps| ==> |comps[k]| > 0
  {
    && (forall k, v :: 0 <= k < |comps| && v in comps[k] ==> comps[k][0] <= v)
    && (forall k1, k2 :: 0 <= k1 < k2 < |comps| ==> comps[k1][0] < comps[k2][0])
  }

  /** What `group_bounding_boxes` computes: the connected components of the
      proximity graph in seed order, and the merge of each. */
  ghost predicate GroupSpec(boxes: seq<Rect>, t: real, comps: seq<seq<nat>>, groups: seq<Rect>)
  {
    && IsPartition(comps, |boxes|)
    && Closed(boxes, t, comps)
    && (forall k :: 0 <= k < |comps| ==> Linked(boxes, t, comps[k]))
    && SeedOrdered(comps)
    && |groups| == |comps|
    && (forall k :: 0 <= k < |comps| ==> MergeBoundingBoxes(Pick(boxes, comps[k])) == Some(groups[k]))
  }

  /** `groups` is a possible result of `group_bounding_boxes(boxes)`. */
  ghost predicate Grouped(boxes: seq<Rect>, t: real, groups: seq<Rect>)
  {
    exists comps :: GroupSpec(boxes, t, comps, groups)
  }

  /** Every neighbour of a visited index is visited. */
  ghost predicate ClosedVisited(boxes: seq<Rect>, t: real, visited: seq<bool>)
  {
    forall u, v :: 0 <= u < |visited| && 0 <= v < |visited| && visited[u] && Adjacent(boxes, t, u, v)
      ==> visited[v]
  }

  ghost function Unvisited(visited: seq<bool>): set<int>
  {
    set v | 0 <= v < |visited| && !visited[v]
  }

  lemma LinkedExtend(boxes: seq<Rect>, t: real, c: seq<nat>, u: nat, v: nat)
    requires Linked(boxes, t, c) && u in c && Adjacent(boxes, t, u, v)
    ensures Linked(boxes, t, c + [v])
  {
    var p :| 0 <= p < |c| && c[p] == u;
    var c' := c + [v];
    forall m | 0 < m < |c'|
      ensures ReachedFromEarlier(boxes, t, c', m)
    {
      if m < |c| {
        assert ReachedFromEarlier(boxes, t, c, m);
        var q :| 0 <= q < m && Adjacent(boxes, t, c[q], c[m]);
        assert c'[q] == c[q] && c'[m] == c[m];
      } else {
        assert c'[p] == u && c'[m] == v;
        assert Adjacent(boxes, t, c'[p], c'[m]);
      }
    }
  }

  /** The state of one `dfs` call seeded at `seed`: `visited'` is
      `visited` plus the members of `comp`, which are distinct, unvisited
      before the call, not below the seed, and linked to it; the stack holds
      members only. */
  ghost predicate Exploring(boxes: seq<Rect>, t: real, visited: seq<bool>, seed: nat,
                            visited': seq<bool>, comp: seq<nat>, stack: seq<nat>)
  {
    && |visited| == |boxes| && |visited'| == |boxes|
    && (forall v :: 0 <= v < |boxes| ==> (visited'[v] <==> visited[v] || v in comp))
    && (forall v :: v in comp ==> seed <= v < |boxes| && !visited[v])
    && |comp| > 0 && comp[0] == seed && Distinct(comp)
    && Linked(boxes, t, comp)
    && (forall v :: v in stack ==> v in comp)
  }

  /** The inner loop of `dfs(u, component)`: every unvisited neighbour of
      `u` is marked, appended to the component and scheduled for its own
      visit; the ones found are appended in the same order to both lists. */
  method PushNeighbours(boxes: seq<Rect>, t: real, ghost visited: seq<bool>, ghost seed: nat,
                        visited': seq<bool>, comp: seq<nat>, stack: seq<nat>, u: nat)
    returns (visited'': seq<bool>, comp': seq<nat>, stack': seq<nat>)
    requires Exploring(boxes, t, visited, seed, visited', comp, stack) && u in comp
    requires forall v :: 0 <= v < seed ==> visited[v]
    ensures Exploring(boxes, t, visited, seed, visited'', comp', stack')
    ensures forall v :: Adjacent(boxes, t, u, v) ==> visited''[v]
    ensures forall v :: 0 <= v < |boxes| && visited'[v] ==> visited''[v]
    ensures |comp| <= |comp'| && comp'[..|comp|] == comp && stack' == stack + comp'[|comp|..]
    ensures Unvisited(visited'') <= Unvisited(visited')
    ensures Unvisited(visited'') == Unvisited(visited') ==> stack' == stack
  {
    visited'', comp', stack' := visited', comp, stack;
    var nbrs := Neighbours(boxes, t, u);
    var m := 0;
    while m < |nbrs|
      invariant 0 <= m <= |nbrs|
      invariant Exploring(boxes, t, visited, seed, visited'', comp', stack')
      invariant u in comp'
      invariant forall j :: 0 <= j < m ==> visited''[nbrs[j]]
      invariant forall v :: 0 <= v < |boxes| && visited'[v] ==> visited''[v]
      invariant |comp| <= |comp'| && comp'[..|comp|] == comp && stack' == stack + comp'[|comp|..]
      invariant Unvisited(visited'') <= Unvisited(visited')
      invariant Unvisited(visited'') == Unvisited(visited') ==> stack' == stack
    {
      var v := nbrs[m];
      if !visited''[v] {
        assert v in Unvisited(visited');
        visited'' := visited''[v := true];
        assert v !in Unvisited(visited'');
        LinkedExtend(boxes, t, comp', u, v);
        comp' := comp' + [v];
        stack' := stack' + [v];
      }
      m := m + 1;
    }
    forall v | Adjacent(boxes, t, u, v)
      ensures visited''[v]
    {
      assert v in nbrs;
    }
  }

  /** One call of `dfs(seed, component)` from the main loop: marks and
      collects exactly the unvisited indices reachable from `seed`. */
  method ExploreComponent(boxes: seq<Rect>, t: real, visited: seq<bool>, seed: nat)
    returns (visited': seq<bool>, comp: seq<nat>)
    requires |visited| == |boxes| && seed < |boxes| && !visited[seed]
    requires forall v :: 0 <= v < seed ==> visited[v]
    requires ClosedVisited(boxes, t, visited)
    ensures |visited'| == |boxes|
    ensures forall v :: 0 <= v < |boxes| ==> (visited'[v] <==> visited[v] || v in comp)
    ensures forall v :: v in comp ==> seed <= v < |boxes| && !visited[v]
    ensures |comp| > 0 && comp[0] == seed && Distinct(comp)
    ensures Linked(boxes, t, comp)
    ensures forall u, v :: u in comp && Adjacent(boxes, t, u, v) ==> v in comp
    ensures ClosedVisited(boxes, t, visited')
  {
    visited' := visited[seed := true];
    comp := [seed];
    var stack := [seed];
    while |stack| > 0
      invariant Exploring(boxes, t, visited, seed, visited', comp, stack)
      invariant forall u, v :: u in comp && u !in stack && Adjacent(boxes, t, u, v) ==> visited'[v]
      decreases Unvisited(visited'), |stack|
    {
      var u := stack[|stack| - 1];
      var rest := stack[..|stack| - 1];
      assert u in comp;
      var visited'', comp', stack' := PushNeighbours(boxes, t, visited, seed, visited', comp, rest, u);
      forall w, v | w in comp' && w !in stack' && Adjacent(boxes, t, w, v)
        ensures visited''[v]
      {
        if w != u {
          assert w in comp && w !in rest;
        }
      }
      visited', comp, stack := visited'', comp', stack';
    }
    forall u, v | u in comp && Adjacent(boxes, t, u, v)
      ensures v in comp
    {
      AdjacentSymmetric(boxes, t, u, v);
    }
  }

  /** The state of the main loop of `group_bounding_boxes` after the seeds
      `0..i-1`. */
  ghost predicate Scanned(boxes: seq<Rect>, t: real, i: nat, visited: seq<bool>,
                          comps: seq<seq<nat>>, groups: seq<Rect>)
  {
    && i <= |boxes| && |visited| == |boxes| && |groups| == |comps|
    && (forall v :: 0 <= v < i ==> visited[v])
    && (forall k, v :: 0 <= k < |comps| && v in comps[k] ==> v < |boxes|)
    && (forall k :: 0 <= k < |comps| ==> AllVisited(comps[k], visited))
    && (forall v :: 0 <= v < |boxes| && visited[v] ==> v in Flatten(comps))
    && (forall k :: 0 <= k < |comps| ==> |comps[k]| > 0 && comps[k][0] < i && Distinct(comps[k]))
    && (forall k1, k2, v :: 0 <= k1 < k2 < |comps| && v in comps[k1] ==> v !in comps[k2])
    && Closed(boxes, t, comps)
    && (forall k :: 0 <= k < |comps| ==> Linked(boxes, t, comps[k]))
    && (forall k, v :: 0 <= k < |comps| && v in comps[k] ==> comps[k][0] <= v)
    && (forall k1, k2 :: 0 <= k1 < k2 < |comps| ==> comps[k1][0] < comps[k2][0])
    && ClosedVisited(boxes, t, visited)
    && (forall k :: 0 <= k < |comps| ==> MergeBoundingBoxes(Pick(boxes, comps[k])) == Some(groups[k]))
  }

  /** Every member of `c` is a visited index. */
  ghost predicate AllVisited(c: seq<nat>, visited: seq<bool>)
  {
    forall v :: v in c ==> v < |visited| && visited[v]
  }

  /** Adding a component of unvisited indices keeps the components
      pairwise disjoint. */
  lemma AddComponentDisjoint(comps: seq<seq<nat>>, comp: seq<nat>, visited: seq<bool>)
    requires forall k1, k2, v :: 0 <= k1 < k2 < |comps| && v in comps[k1] ==> v !in comps[k2]
    requires forall k :: 0 <= k < |comps| ==> AllVisited(comps[k], visited)
    requires forall v :: v in comp ==> v < |visited| && !visited[v]
    ensures forall k1, k2, v :: 0 <= k1 < k2 < |comps + [comp]| && v in (comps + [comp])[k1] ==> v !in (comps + [comp])[k2]
  {
    var comps' := comps + [comp];
    forall k1, k2, v | 0 <= k1 < k2 < |comps'| && v in comps'[k1]
      ensures v !in comps'[k2]
    {
      assert comps'[k1] == comps[k1];
      if k2 == |comps| {
        assert AllVisited(comps[k1], visited);
      } else {
        assert comps'[k2] == comps[k2];
      }
    }
  }

  /** Marking the members of the new component visited: the visited
      indices are still exactly the members of the recorded components. */
  lemma AddComponentVisited(n: nat, i: nat, visited: seq<bool>, comps: seq<seq<nat>>,
                            visited': seq<bool>, comp: seq<nat>)
    requires |visited| == n && |visited'| == n && i < n
    requires forall v :: 0 <= v < i ==> visited[v]
    requires forall k, v :: 0 <= k < |comps| && v in comps[k] ==> v < n
    requires forall k :: 0 <= k < |comps| ==> AllVisited(comps[k], visited)
    requires forall v :: 0 <= v < n && visited[v] ==> v in Flatten(comps)
    requires forall v :: 0 <= v < n ==> (visited'[v] <==> visited[v] || v in comp)
    requires forall v :: v in comp ==> v < n
    requires |comp| > 0 && comp[0] == i
    ensures var comps' := comps + [comp];
      && (forall v :: 0 <= v < i + 1 ==> visited'[v])
      && (forall k, v :: 0 <= k < |comps'| && v in comps'[k] ==> v < n)
      && (forall k :: 0 <= k < |comps'| ==> AllVisited(comps'[k], visited'))
      && (forall v :: 0 <= v < n && visited'[v] ==> v in Flatten(comps'))
  {
    FlattenAppend(comps, comp);
    var comps' := comps + [comp];
    assert forall k :: 0 <= k < |comps| ==> comps'[k] == comps[k];
    assert comps'[|comps|] == comp;
    assert comp[0] in comp;
  }

  /** Adding a component closed under edges keeps every component closed. */
  lemma AddComponentClosed(boxes: seq<Rect>, t: real, comps: seq<seq<nat>>, comp: seq<nat>)
    requires Closed(boxes, t, comps)
    requires forall u, v :: u in comp && Adjacent(boxes, t, u, v) ==> v in comp
    ensures Closed(boxes, t, comps + [comp])
  {
    var comps' := comps + [comp];
    forall k, u, v | 0 <= k < |comps'| && u in comps'[k] && Adjacent(boxes, t, u, v)
      ensures v in comps'[k]
    {
      if k < |comps| {
        assert comps'[k] == comps[k];
      }
    }
  }

  /** Adding the component seeded at `i`, whose members are not below `i`,
      after components seeded below `i` keeps the seed order. */
  lemma AddComponentOrdered(boxes: seq<Rect>, t: real, i: nat, comps: seq<seq<nat>>, comp: seq<nat>)
    requires forall k :: 0 <= k < |comps| ==> |comps[k]| > 0 && comps[k][0] < i && Distinct(comps[k])
    requires forall k :: 0 <= k < |comps| ==> Linked(boxes, t, comps[k])
    requires forall k, v :: 0 <= k < |comps| && v in comps[k] ==> comps[k][0] <= v
    requires forall k1, k2 :: 0 <= k1 < k2 < |comps| ==> comps[k1][0] < comps[k2][0]
    requires |comp| > 0 && comp[0] == i && Distinct(comp) && Linked(boxes, t, comp)
    requires forall v :: v in comp ==> i <= v
    ensures var comps' := comps + [comp];
      && (forall k :: 0 <= k < |comps'| ==> |comps'[k]| > 0 && comps'[k][0] < i + 1 && Distinct(comps'[k]))
      && (forall k :: 0 <= k < |comps'| ==> Linked(boxes, t, comps'[k]))
      && (forall k, v :: 0 <= k < |comps'| && v in comps'[k] ==> comps'[k][0] <= v)
      && (forall k1, k2 :: 0 <= k1 < k2 < |comps'| ==> comps'[k1][0] < comps'[k2][0])
  {
    var comps' := comps + [comp];
    assert forall k :: 0 <= k < |comps| ==> comps'[k] == comps[k];
    assert comps'[|comps|] == comp;
  }

  /** Appending the merge of the new component keeps `groups` in step. */
  lemma AddComponentMerged(boxes: seq<Rect>, comps: seq<seq<nat>>, groups: seq<Rect>, comp: seq<nat>)
    requires |groups| == |comps|
    requires forall k, v :: 0 <= k < |comps| && v in comps[k] ==> v < |boxes|
    requires forall k :: 0 <= k < |comps| ==> MergeBoundingBoxes(Pick(boxes, comps[k])) == Some(groups[k])
    requires |comp| > 0 && forall v :: v in comp ==> v < |boxes|
    ensures var comps', groups' := comps + [comp], groups + [MergeBoundingBoxes(Pick(boxes, comp)).value];
      forall k :: 0 <= k < |comps'| ==> MergeBoundingBoxes(Pick(boxes, comps'[k])) == Some(groups'[k])
  {
    var comps', groups' := comps + [comp], groups + [MergeBoundingBoxes(Pick(boxes, comp)).value];
    assert forall k :: 0 <= k < |comps| ==> comps'[k] == comps[k] && groups'[k] == groups[k];
    assert comps'[|comps|] == comp;
  }

  /** Recording the component found from seed `i` re-establishes the
      main-loop state for `i + 1`. */
  lemma ScannedAddComponent(boxes: seq<Rect>, t: real, i: nat, visited: seq<bool>,
                            comps: seq<seq<nat>>, groups: seq<Rect>,
                            visited': seq<bool>, comp: seq<nat>)
    requires Scanned(boxes, t, i, visited, comps, groups) && i < |boxes| && !visited[i]
    requires |visited'| == |boxes|
    requires forall v :: 0 <= v < |boxes| ==> (visited'[v] <==> visited[v] || v in comp)
    requires forall v :: v in comp ==> i <= v < |boxes| && !visited[v]
    requires |comp| > 0 && comp[0] == i && Distinct(comp)
    requires Linked(boxes, t, comp)
    requires forall u, v :: u in comp && Adjacent(boxes, t, u, v) ==> v in comp
    requires ClosedVisited(boxes, t, visited')
    ensures Scanned(boxes, t, i + 1, visited', comps + [comp],
                    groups + [MergeBoundingBoxes(Pick(boxes, comp)).value])
  {
    AddComponentVisited(|boxes|, i, visited, comps, visited', comp);
    AddComponentDisjoint(comps, comp, visited);
    AddComponentClosed(boxes, t, comps, comp);
    AddComponentOrdered(boxes, t, i, comps, comp);
    AddComponentMerged(boxes, comps, groups, comp);
  }

  /** The main-loop state after the last seed is the specification. */
  lemma ScannedComplete(boxes: seq<Rect>, t: real, visited: seq<bool>,
                        comps: seq<seq<nat>>, groups: seq<Rect>)
    requires Scanned(boxes, t, |boxes|, visited, comps, groups)
    ensures GroupSpec(boxes, t, comps, groups)
  {
  }

  /** `group_bounding_boxes(bboxes, threshold=t)`; `comps` are the index
      lists of the source's `components`. */
  method GroupBoundingBoxes(boxes: seq<Rect>, t: real) returns (groups: seq<Rect>, comps: seq<seq<nat>>)
    ensures GroupSpec(boxes, t, comps, groups)
  {
    var visited := seq(|boxes|, _ => false);
    groups, comps := [], [];
    var i := 0;
    while i < |boxes|
      invariant Scanned(boxes, t, i, visited, comps, groups)
    {
      if !visited[i] {
        var visited', comp := ExploreComponent(boxes, t, visited, i);
        ScannedAddComponent(boxes, t, i, visited, comps, groups, visited', comp);
        var merged := MergeBoundingBoxes(Pick(boxes, comp));
        groups := groups + [merged.value];
        comps := comps + [comp];
        visited := visited';
      }
      i := i + 1;
    }
    ScannedComplete(boxes, t, visited, comps, groups);
  }
}
