/** The leaf chain: walking it from the first leaf, or from the leaf a descent reaches, visits the records in order. */
module Chains {
  import opened Nodes
  import opened Rows
  import opened Edits
  import opened Steps
  import opened Search
  import opened LeafEdits
  import opened Trees
  import opened Deletes
  import opened FixedSizes
  import opened ExactKeys
  import opened Fallback

  /** A chain walk takes at most this many steps, however large the file. */
  const NODE_CEILING := 0x100_0000

  /** The reader's bound on the nodes of a file of `total` nodes. */
  function MaxNodes(total: nat): (n: nat)
    ensures n >= 1 && (1 <= total <= NODE_CEILING ==> n == total)
  {
    if total < 1 then 1 else if total > NODE_CEILING then NODE_CEILING else total
  }

  /** A leaf links to the next one, and the last to 0. */
  lemma NextLeaf(nodes: Img, rows: seq<seq<nat>>, i: nat)
    requires rows != [] && Whole(nodes, rows, 0) && i < |rows[|rows| - 1]|
    ensures var s := rows[|rows| - 1];
      && s[i] in nodes && s[i] != 0 && nodes[s[i]].kind == Leaf
      && nodes[s[i]].flink == (if i + 1 < |s| then s[i + 1] else 0)
      && (i + 1 < |s| ==> s[i + 1] != 0)
      && Flat(nodes, s[..i + 1]) == Flat(nodes, s[..i]) + nodes[s[i]].recs
  {
    hide Flat, WF;
    var s := rows[|rows| - 1];
    LevelOf(nodes, rows, 0, |rows| - 1);
    assert LinksAt(nodes, s, i) && NodeAt(nodes, s[i], 1);
    assert i + 1 < |s| ==> NodeAt(nodes, s[i + 1], 1);
    FlatAt(nodes, s, i);
  }

  lemma ContentsIs(nodes: Img, rows: seq<seq<nat>>)
    requires rows != []
    ensures Contents(nodes, rows) == Flat(nodes, rows[|rows| - 1])
  {
  }

  lemma NoRecords(nodes: Img)
    ensures Contents(nodes, []) == []
  {
  }

  // ---- scanning a leaf up to a record that ends the scan ----

  /** The records before the first that ends the scan. */
  function Until(recs: seq<Rec>, stop: Rec -> bool): (n: nat)
    ensures n <= |recs|
  {
    if recs == [] || stop(recs[0]) then 0 else 1 + Until(recs[1..], stop)
  }

  lemma {:induction false} UntilFrom(recs: seq<Rec>, stop: Rec -> bool, i: nat)
    requires i <= Until(recs, stop)
    ensures i < |recs| ==> (stop(recs[i]) <==> i == Until(recs, stop))
    decreases i
  {
    if i > 0 {
      UntilFrom(recs[1..], stop, i - 1);
    }
  }

  // ---- the ends of the chain ----

  lemma FirstInChain(nodes: Img, rows: seq<seq<nat>>, h: TreeHeader)
    requires rows != [] && Whole(nodes, rows, 0) && HeaderOk(rows, h)
    ensures rows[|rows| - 1] != [] && h.firstLeaf == rows[|rows| - 1][0] && h.firstLeaf != 0
  {
    hide Flat, WF;
    LevelOf(nodes, rows, 0, |rows| - 1);
    assert NodeAt(nodes, rows[|rows| - 1][0], 1);
  }

  lemma ContentsAsc(nodes: Img, rows: seq<seq<nat>>)
    requires rows != [] && Whole(nodes, rows, 0)
    ensures Asc(Contents(nodes, rows))
  {
  }

  /** A chain of nodes numbered from 1 to `total - 1` has fewer than `total`. */
  lemma ChainShort(nodes: Img, rows: seq<seq<nat>>, live: set<nat>, total: nat)
    requires rows != [] && Whole(nodes, rows, 0) && LiveIs(rows, live)
    requires forall n: nat :: n in live ==> 0 < n < total
    ensures |rows[|rows| - 1]| < total
  {
    hide Flat, WF, LiveIs;
    var s := rows[|rows| - 1];
    LevelOf(nodes, rows, 0, |rows| - 1);
    forall i | 0 <= i < |s| ensures 0 < s[i] < total {
      assert s[i] in s;
      RowsLive(rows, live, |rows| - 1, s[i]);
    }
    LevelLong(nodes, s, 1);
    assert 0 < s[0] < total;
    DistinctBelow(s, total);
  }

  lemma LevelLong(nodes: Img, s: seq<nat>, h: nat)
    requires Level(nodes, s, h)
    ensures s != [] && NoDup(s)
  {
  }

  // ---- where a descent enters the chain ----

  /** Every stored key below `x` is below `p`. */
  ghost predicate BelowToo(c: seq<Rec>, x: int, p: int) {
    forall y :: 0 <= y < |c| && c[y].key < x ==> c[y].key < p
  }

  /** On a descent for `p`, with or without fallback, every stored key below the node's first is below `p`. */
  lemma {:induction false} DescentLeft(nodes: Img, rows: seq<seq<nat>>, path: seq<nat>, ci: seq<nat>, pos: seq<nat>,
      p: int, d: nat)
    requires rows != [] && WholeFull(nodes, rows, 0) && PathOk(nodes, rows, path, ci, pos) && |ci| == |path| - 1
    requires |path| == |rows| && Followed(nodes, path, ci, p)
    requires d < |path|
    ensures Recs(nodes, path[d]) != []
    ensures BelowToo(Contents(nodes, rows), Recs(nodes, path[d])[0].key, p) || d == |path| - 1 == 0
    decreases d
  {
    hide Flat, WF, AllFull, PathOk, Contents, Pick;
    PathLengths(nodes, rows, path, ci, pos);
    FullRow(nodes, rows, d, pos[d]);
    if d == 0 {
      PathStart(nodes, rows, path, ci, pos);
      if |rows| > 1 {
        RootLowest(nodes, rows, path[0], p);
      }
    } else {
      DescentLeft(nodes, rows, path, ci, pos, p, d - 1);
      NextOnPath(nodes, rows, path, ci, pos, d - 1);
      KeyTight(nodes, rows, d - 1, pos[d - 1], ci[d - 1]);
      assert ci[d - 1] == Pick(Recs(nodes, path[d - 1]), p);
      PickedLeft(Contents(nodes, rows), Recs(nodes, path[d - 1]), p, Recs(nodes, path[d])[0].key);
    }
  }

  lemma RootLowest(nodes: Img, rows: seq<seq<nat>>, root: nat, p: int)
    requires |rows| > 1 && WholeFull(nodes, rows, 0) && rows[0] != [] && root == rows[0][0] && Recs(nodes, root) != []
    ensures BelowToo(Contents(nodes, rows), Recs(nodes, root)[0].key, p)
  {
    hide Flat, WF, AllFull, Contents;
    LowestKey(nodes, rows, 0, 0);
    HeadAt(nodes, rows[0], 0, 0);
    FlatEnds(nodes, rows[0]);
  }

  lemma KeyTight(nodes: Img, rows: seq<seq<nat>>, d: nat, i: nat, j: nat)
    requires WholeFull(nodes, rows, 0) && d < |rows| - 1 && i < |rows[d]| && j < |Recs(nodes, rows[d][i])|
    ensures var r := Recs(nodes, rows[d][i])[j];
      Recs(nodes, Kid(r)) != [] && Tight(Contents(nodes, rows), r.key, Recs(nodes, Kid(r))[0].key)
  {
    hide Flat, Level, AllFull, Off;
    NextNode(nodes, rows, 0, d, i, j);
    LeafRecord(nodes, rows[d], i, j);
    assert IndexRow(nodes, Contents(nodes, rows), rows[d], rows[d + 1], 0);
    FullRow(nodes, rows, d + 1, Off(nodes, rows[d], i) + j);
  }

  lemma PickedLeft(c: seq<Rec>, rs: seq<Rec>, p: int, head: int)
    requires rs != [] && Tight(c, rs[Pick(rs, p)].key, head)
    requires BelowToo(c, rs[0].key, p)
    ensures BelowToo(c, head, p)
  {
    hide Pick;
    var n := Pick(rs, p);
    if rs[0].key > p {
      FirstPicked(rs, p);
    }
  }

  /** Records left of the leaf a descent for `p` reaches have keys below `p`. */
  lemma LeftOfLeaf(nodes: Img, rows: seq<seq<nat>>, path: seq<nat>, ci: seq<nat>, pos: seq<nat>, p: int)
    requires rows != [] && WholeFull(nodes, rows, 0) && PathOk(nodes, rows, path, ci, pos) && |ci| == |path| - 1
    requires |path| == |rows| && Followed(nodes, path, ci, p)
    ensures |pos| == |path| && pos[|path| - 1] < |rows[|rows| - 1]|
    ensures path[|path| - 1] == rows[|rows| - 1][pos[|path| - 1]]
    ensures AllBelow(Flat(nodes, rows[|rows| - 1][..pos[|path| - 1]]), p)
  {
    hide Flat, WF, AllFull, PathOk;
    PathLengths(nodes, rows, path, ci, pos);
    var k := |path| - 1;
    var s, i := rows[k], pos[k];
    DescentLeft(nodes, rows, path, ci, pos, p, k);
    FlatAt(nodes, s, i);
    ContentsAsc(nodes, rows);
    var fa, rs := Flat(nodes, s[..i]), Recs(nodes, s[i]);
    var c := Contents(nodes, rows);
    if k == 0 {
      PathStart(nodes, rows, path, ci, pos);
      FlatEnds(nodes, s);
    } else {
      assert c[|fa|] == rs[0];
      assert forall j :: 0 <= j < |fa| ==> fa[j] == c[j] && c[j].key < c[|fa|].key;
    }
  }

  lemma PathStart(nodes: Img, rows: seq<seq<nat>>, path: seq<nat>, ci: seq<nat>, pos: seq<nat>)
    requires PathOk(nodes, rows, path, ci, pos)
    ensures pos[0] == 0
  {
  }

  // ---- how many records a tree of several leaves holds ----

  lemma {:induction false} FlatAtLeastEach(nodes: Img, s: seq<nat>, k: nat)
    requires forall i :: 0 <= i < |s| ==> |Recs(nodes, s[i])| >= k
    ensures |Flat(nodes, s)| >= |s| * k
  {
    if s != [] {
      FlatAtLeastEach(nodes, s[1..], k);
      assert |s| * k == k + (|s| - 1) * k;
    }
  }

  /** A tree of fixed sizes with more than one level holds at least two minimal leaves' worth of records. */
  lemma ManyRecords(nodes: Img, rows: seq<seq<nat>>, live: set<nat>, nodeSize: nat, h: TreeHeader)
    requires nodeSize >= 512 && |rows| > 1 && WholeFull(nodes, rows, 0) && HeaderOk(rows, h) && RootOk(nodes, rows)
    requires LiveIs(rows, live) && Filled(nodes, live, nodeSize, h.root, 0)
    ensures |Contents(nodes, rows)| >= 2 * MinRecs(nodeSize, 1)
  {
    hide Flat, WF, HeaderOk, RootOk, LiveIs, Cap, AllFull, MinRecs, Sized;
    var d := |rows| - 1;
    var s := rows[d];
    RowsDouble(nodes, rows, live, nodeSize, h, d);
    Pow2Grows(1, d);
    LevelOf(nodes, rows, 0, d);
    forall i | 0 <= i < |s| ensures |Recs(nodes, s[i])| >= MinRecs(nodeSize, 1) {
      LevelNode(nodes, s, 1, i);
      assert s[i] in s;
      RowsLive(rows, live, d, s[i]);
      RootAbove(nodes, rows, h, 0, d, i);
      assert FilledNode(nodes, nodeSize, s[i], h.root, 0);
    }
    FlatAtLeastEach(nodes, s, MinRecs(nodeSize, 1));
    TwoTimes(|s|, MinRecs(nodeSize, 1));
  }

  lemma TwoTimes(n: nat, k: nat)
    requires n >= 2
    ensures n * k >= 2 * k
  {
  }

  // ---- what the root reaches ----

  /** `depth` child pointers lead from node `a` to node `b`. */
  ghost predicate Reached(nodes: Img, a: nat, b: nat, depth: nat)
    decreases depth
  {
    if depth == 0 then a == b
    else exists m: nat :: Reached(nodes, a, m, depth - 1) && NamedBy(nodes, m, b)
  }

  ghost predicate NamedBy(nodes: Img, m: nat, b: nat) {
    exists j :: 0 <= j < |Recs(nodes, m)| && Kid(Recs(nodes, m)[j]) == b
  }

  /** Every record of a row lies in one of its nodes. */
  lemma {:induction false} LocateRecord(nodes: Img, s: seq<nat>, x: nat) returns (i: nat, j: nat)
    requires x < |Flat(nodes, s)|
    ensures i < |s| && j < |Recs(nodes, s[i])| && Off(nodes, s, i) + j == x
    decreases |s|
  {
    hide Flat;
    if s == [] {
      FlatEnds(nodes, s);
    } else {
      var last := |s| - 1;
      FlatAt(nodes, s, last);
      FlatEnds(nodes, s);
      assert s[last + 1..] == s[|s|..] && s[..|s|] == s;
      var front := |Flat(nodes, s[..last])|;
      if x < front {
        i, j := LocateRecord(nodes, s[..last], x);
        assert s[..last][..i] == s[..i];
      } else {
        i, j := last, x - front;
      }
    }
  }

  ghost predicate ReachedWithin(nodes: Img, root: nat, n: nat, depth: nat) {
    exists d: nat :: d < depth && Reached(nodes, root, n, d)
  }

  lemma {:induction false} RowReached(nodes: Img, rows: seq<seq<nat>>, d: nat, x: nat)
    requires rows != [] && Whole(nodes, rows, 0) && rows[0] != [] && d < |rows| && x < |rows[d]|
    ensures Reached(nodes, rows[0][0], rows[d][x], d)
    decreases d
  {
    hide Flat, WF, Off;
    SingleRoot(nodes, rows, 0);
    if d > 0 {
      RowLength(nodes, rows, d - 1);
      var i, j := LocateRecord(nodes, rows[d - 1], x);
      NextNode(nodes, rows, 0, d - 1, i, j);
      RowReached(nodes, rows, d - 1, i);
      assert NamedBy(nodes, rows[d - 1][i], rows[d][x]);
    }
  }

  lemma {:induction false} ReachedInRow(nodes: Img, rows: seq<seq<nat>>, d: nat, n: nat)
    requires rows != [] && Whole(nodes, rows, 0) && rows[0] != [] && d < |rows| && Reached(nodes, rows[0][0], n, d)
    ensures n in rows[d]
    decreases d
  {
    hide Flat, WF, Off;
    if d > 0 {
      var m: nat :| Reached(nodes, rows[0][0], m, d - 1) && NamedBy(nodes, m, n);
      ReachedInRow(nodes, rows, d - 1, m);
      var i :| 0 <= i < |rows[d - 1]| && rows[d - 1][i] == m;
      var j :| 0 <= j < |Recs(nodes, m)| && Kid(Recs(nodes, m)[j]) == n;
      NextNode(nodes, rows, 0, d - 1, i, j);
    } else {
      assert rows[0][0] in rows[0];
    }
  }

  /** The nodes the root reaches within the tree's depth are exactly those of its rows. */
  lemma RootReaches(nodes: Img, rows: seq<seq<nat>>, n: nat)
    requires rows != [] && Whole(nodes, rows, 0) && rows[0] != []
    ensures InRows(rows, n) <==> ReachedWithin(nodes, rows[0][0], n, |rows|)
  {
    hide Flat, WF, Reached;
    if InRows(rows, n) {
      var d :| 0 <= d < |rows| && n in rows[d];
      var x :| 0 <= x < |rows[d]| && rows[d][x] == n;
      RowReached(nodes, rows, d, x);
    }
    if ReachedWithin(nodes, rows[0][0], n, |rows|) {
      var d: nat :| d < |rows| && Reached(nodes, rows[0][0], n, d);
      ReachedInRow(nodes, rows, d, n);
    }
  }

  lemma RowLength(nodes: Img, rows: seq<seq<nat>>, d: nat)
    requires Whole(nodes, rows, 0) && d < |rows| - 1
    ensures |Flat(nodes, rows[d])| == |rows[d + 1]|
  {
    hide Flat;
    assert IndexRow(nodes, Contents(nodes, rows), rows[d], rows[d + 1], 0);
  }

  // ---- walking any chain ----

  /** The leaf walk with the reader's step bound, over any image: links that run in a circle, or nowhere, end it.
      On a well-formed tree it visits the leaves in order, all of them unless they outnumber the bound. */
  method WalkChain(nodes: Img, first: nat, maxNodes: nat, ghost rows: seq<seq<nat>>)
    returns (ok: bool, visited: seq<nat>)
    requires maxNodes >= 1
    ensures |visited| <= maxNodes && forall n :: n in visited ==> n in nodes
    ensures rows != [] && rows[|rows| - 1] != [] && Whole(nodes, rows, 0) && first == rows[|rows| - 1][0] ==>
      var s := rows[|rows| - 1];
      ok && visited == if |s| <= maxNodes then s else s[..maxNodes]
  {
    hide WF;
    visited := [];
    var leaf, steps: nat := first, 0;
    ghost var whole := rows != [] && rows[|rows| - 1] != [] && Whole(nodes, rows, 0) && first == rows[|rows| - 1][0];
    ghost var s: seq<nat> := if rows != [] then rows[|rows| - 1] else [];
    if whole {
      LevelOf(nodes, rows, 0, |rows| - 1);
      LevelLong(nodes, s, 1);
      NextLeaf(nodes, rows, 0);
    }
    while leaf != 0
      invariant |visited| == steps <= maxNodes && (leaf != 0 ==> steps < maxNodes)
      invariant forall n :: n in visited ==> n in nodes
      invariant whole ==> steps <= |s| && visited == s[..steps] && (leaf != 0 ==> steps < |s| && leaf == s[steps])
      invariant whole && leaf == 0 ==> steps == |s| || steps == maxNodes
      decreases maxNodes - steps
    {
      if whole {
        NextLeaf(nodes, rows, steps);
      }
      if leaf !in nodes {
        return false, visited;
      }
      visited := visited + [leaf];
      var next := nodes[leaf].flink;
      steps := steps + 1;
      leaf := if steps >= maxNodes then 0 else next;
    }
    ok := true;
  }
}
