/** Descents and fallback: when `descend` turns into a first child whose key is above the one it looks for. */
module Descents {
  import opened Nodes
  import opened Rows
  import opened Edits
  import opened Steps
  import opened Search
  import opened LeafEdits
  import opened Trees
  import opened Deletes
  import opened FixedSizes
  import opened ExactKeys
  import opened Fallback
  import opened Chains

  const MAX_DEPTH := 64

  /** No node on the descent for `p` has a first key above `p`: no level falls back on its first child. */
  predicate Covered(nodes: Img, n: nat, height: nat, p: int)
    decreases height
  {
    height <= 1 ||
    (var rs := Recs(nodes, n);
     rs != [] && rs[0].key <= p && Covered(nodes, Kid(rs[Pick(rs, p)]), height - 1, p))
  }

  lemma {:induction false} CoveredFrom(nodes: Img, rows: seq<seq<nat>>, path: seq<nat>, ci: seq<nat>, pos: seq<nat>,
      p: int, d: nat)
    requires Whole(nodes, rows, 0) && PathOk(nodes, rows, path, ci, pos) && |path| == |rows|
    requires Followed(nodes, path, ci, p)
    requires d < |rows|
    ensures Covered(nodes, path[d], |rows| - d, p) <==>
      forall k :: d <= k < |ci| ==> Recs(nodes, path[k]) != [] && Recs(nodes, path[k])[0].key <= p
    decreases |rows| - d
  {
    hide Flat, Pick, WF, Off;
    if d < |rows| - 1 {
      CoveredFrom(nodes, rows, path, ci, pos, p, d + 1);
      assert TurnOk(nodes, rows, ci, pos, d);
      NextNode(nodes, rows, 0, d, pos[d], ci[d]);
      assert path[d + 1] == Kid(Recs(nodes, path[d])[ci[d]]);
    }
  }

  lemma CoveredIsNoFallback(nodes: Img, rows: seq<seq<nat>>, path: seq<nat>, ci: seq<nat>, pos: seq<nat>, p: int)
    requires Whole(nodes, rows, 0) && PathOk(nodes, rows, path, ci, pos) && |path| == |rows|
    requires Followed(nodes, path, ci, p)
    ensures Covered(nodes, path[0], |rows|, p) <==> NoFallback(nodes, path, ci, p)
  {
    hide Flat, Pick, WF, TurnOk;
    CoveredFrom(nodes, rows, path, ci, pos, p, 0);
  }

  lemma CoveredLeaf(nodes: Img, n: nat, p: int)
    ensures Covered(nodes, n, 1, p)
  {
  }

  lemma ExactOf(nodes: Img, live: set<nat>, m: nat, j: nat)
    requires Exact(nodes, live, 0) && 0 !in live && m in live && IndexNode(nodes, m) && j < |Recs(nodes, m)|
    ensures var r := Recs(nodes, m)[j];
      Kid(r) in live && Recs(nodes, Kid(r)) != [] && Recs(nodes, Kid(r))[0].key == r.key
  {
    assert ExactNode(nodes, live, m, 0);
    assert ExactRec(nodes, live, Recs(nodes, m)[j], 0);
  }

  lemma LevelSome(nodes: Img, s: seq<nat>, h: nat)
    requires Level(nodes, s, h)
    ensures s != []
  {
  }

  /** With exact keys the first key of every row is the smallest stored key. */
  lemma {:induction false} SmallestKey(nodes: Img, rows: seq<seq<nat>>, live: set<nat>, d: nat)
    requires WholeFull(nodes, rows, 0) && LiveIs(rows, live) && Exact(nodes, live, 0) && 0 !in live && d < |rows|
    ensures rows[d] != [] && Contents(nodes, rows) != [] && Recs(nodes, rows[d][0]) != []
    ensures Recs(nodes, rows[d][0])[0].key == Contents(nodes, rows)[0].key
    decreases |rows| - d
  {
    hide Flat, WF, LiveIs, Exact, AllFull;
    LevelOf(nodes, rows, 0, d);
    LevelSome(nodes, rows[d], |rows| - d);
    LevelNode(nodes, rows[d], |rows| - d, 0);
    hide Level;
    FullRow(nodes, rows, d, 0);
    var n := rows[d][0];
    if d == |rows| - 1 {
      HeadAt(nodes, rows[d], 0, 0);
      FlatEnds(nodes, rows[d]);
    } else {
      SmallestKey(nodes, rows, live, d + 1);
      assert n in rows[d];
      RowsLive(rows, live, d, n);
      ExactOf(nodes, live, n, 0);
      NextNode(nodes, rows, 0, d, 0, 0);
      FlatEnds(nodes, rows[d]);
    }
  }

  /** A key not below a node's first meets no larger first key on the way down from it. */
  lemma {:induction false} CoveredDown(nodes: Img, rows: seq<seq<nat>>, live: set<nat>, d: nat, i: nat, p: int)
    requires WholeFull(nodes, rows, 0) && LiveIs(rows, live) && Exact(nodes, live, 0) && 0 !in live && d < |rows|
    requires i < |rows[d]|
    requires Recs(nodes, rows[d][i]) != [] && Recs(nodes, rows[d][i])[0].key <= p
    ensures Covered(nodes, rows[d][i], |rows| - d, p)
    decreases |rows| - d
  {
    hide Flat, WF, LiveIs, Exact, AllFull, Off, Pick;
    if d < |rows| - 1 {
      var n := rows[d][i];
      var j := Pick(Recs(nodes, n), p);
      LevelOf(nodes, rows, 0, d);
      LevelNode(nodes, rows[d], |rows| - d, i);
      hide Level;
      assert n in rows[d];
      RowsLive(rows, live, d, n);
      ExactOf(nodes, live, n, j);
      NextNode(nodes, rows, 0, d, i, j);
      CoveredDown(nodes, rows, live, d + 1, Off(nodes, rows[d], i) + j, p);
    }
  }

  lemma CoveredByKeys(nodes: Img, rows: seq<seq<nat>>, live: set<nat>, p: int)
    requires WholeFull(nodes, rows, 0) && LiveIs(rows, live) && Exact(nodes, live, 0) && 0 !in live && |rows| > 1
    ensures rows[0] != []
    ensures Covered(nodes, rows[0][0], |rows|, p) <==> Contents(nodes, rows) != [] && Contents(nodes, rows)[0].key <= p
  {
    hide Flat, WF, LiveIs, Exact, AllFull, Contents, Pick;
    SmallestKey(nodes, rows, live, 0);
    if Contents(nodes, rows)[0].key <= p {
      CoveredDown(nodes, rows, live, 0, 0, p);
    }
  }

  lemma RootMapped(nodes: Img, rows: seq<seq<nat>>, h: TreeHeader)
    ensures rows != [] && WholeFull(nodes, rows, 0) && HeaderOk(rows, h) ==> h.root != 0
  {
    if rows != [] && WholeFull(nodes, rows, 0) && HeaderOk(rows, h) {
      LevelOf(nodes, rows, 0, 0);
      assert NodeAt(nodes, rows[0][0], |rows|);
    }
  }

  lemma RootPath(nodes: Img, rows: seq<seq<nat>>, h: TreeHeader)
    requires rows != [] && WholeFull(nodes, rows, 0) && HeaderOk(rows, h)
    ensures PathOk(nodes, rows, [] + [h.root], [], [0])
  {
  }

  lemma RootOfPath(nodes: Img, rows: seq<seq<nat>>, h: TreeHeader, path: seq<nat>, ci: seq<nat>, pos: seq<nat>)
    requires PathOk(nodes, rows, path, ci, pos) && HeaderOk(rows, h)
    requires rows != [] && Whole(nodes, rows, 0)
    ensures path[0] == h.root
  {
  }

  /** The node a descent has come to: a leaf in the last row, an index node with children above it. */
  lemma DescentNode(nodes: Img, rows: seq<seq<nat>>, path: seq<nat>, ci: seq<nat>, pos: seq<nat>)
    requires Whole(nodes, rows, 0) && PathOk(nodes, rows, path, ci, pos)
    ensures |ci| == |path| - 1 && |pos| == |path| <= |rows| && pos[|path| - 1] < |rows[|path| - 1]|
    ensures path[|path| - 1] in nodes
    ensures var nd := nodes[path[|path| - 1]];
      if |path| == |rows| then nd.kind == Leaf
      else nd.kind == Index && nd.recs != [] && forall i :: 0 <= i < |nd.recs| ==> nd.recs[i].data.Child?
  {
    hide Flat, WF, TurnOk;
    var d := |path| - 1;
    LevelOf(nodes, rows, 0, d);
    assert NodeAt(nodes, rows[d][pos[d]], |rows| - d);
  }

  /** The nodes of a descent are live. */
  lemma PathLive(nodes: Img, rows: seq<seq<nat>>, live: set<nat>, path: seq<nat>, ci: seq<nat>, pos: seq<nat>)
    requires PathOk(nodes, rows, path, ci, pos) && LiveIs(rows, live)
    ensures forall d :: 0 <= d < |path| ==> path[d] in live
  {
    forall d | 0 <= d < |path| ensures path[d] in live {
      assert path[d] in rows[d];
      assert InRows(rows, path[d]);
    }
  }

  /** The leaf a path ends at is none of the nodes above it. */
  ghost predicate LeafIsApart(path: seq<nat>)
    requires |path| > 0
  {
    forall d :: 0 <= d < |path| - 1 ==> path[d] != path[|path| - 1]
  }

  lemma ApartAt(path: seq<nat>, d: nat)
    requires |path| > 0 && LeafIsApart(path) && d < |path| - 1
    ensures path[d] != path[|path| - 1]
  {
  }
}
