/** What goes wrong when a new key is below every index key of some node on its descent.

    The descent falls back on the first child, down to a leaf whose index record already has a larger key.
    Splits on the way up move that record but never lower its key, so the finished tree still holds an
    index record above the first key of the leaf it names: no rows make it well formed. */
module Fallback {
  import opened Nodes
  import opened Rows
  import opened Edits
  import opened Steps
  import opened Search
  import opened LeafEdits
  import opened Trees
  import opened Deletes
  import opened FixedSizes
  import opened ExactKeys

  /** Some index node of the tree names `leaf` by the record `r`, whose key is above the leaf's first. */
  ghost predicate Undercut(nodes: Img, live: set<nat>, leaf: nat, r: Rec) {
    && leaf in live && Recs(nodes, leaf) != [] && Recs(nodes, leaf)[0].key < r.key
    && Holds(nodes, live, leaf, r)
  }

  ghost predicate Holds(nodes: Img, live: set<nat>, leaf: nat, r: Rec) {
    r.data == Child(leaf) && exists m: nat :: m in live && IndexNode(nodes, m) && r in Recs(nodes, m)
  }

  ghost predicate AllIn(a: seq<Rec>, b: seq<Rec>) {
    forall x :: x in a ==> x in b
  }

  /** In a well-formed tree no index key is above the first key of the node it names. */
  lemma NamedNotAbove(nodes: Img, rows: seq<seq<nat>>, live: set<nat>, m: nat, j: nat)
    requires rows != [] && WholeFull(nodes, rows, 0) && LiveIs(rows, live)
    requires m in live && IndexNode(nodes, m) && j < |Recs(nodes, m)|
    ensures var r := Recs(nodes, m)[j]; Recs(nodes, Kid(r)) != [] ==> r.key <= Recs(nodes, Kid(r))[0].key
  {
    hide Flat, LiveIs, AllFull, Level;
    var d, i := RowOf(nodes, rows, 0, live, m);
    NextNode(nodes, rows, 0, d, i, j);
    LeafRecord(nodes, rows[d], i, j);
    assert IndexRow(nodes, Contents(nodes, rows), rows[d], rows[d + 1], 0);
  }

  lemma UndercutIsBad(nodes: Img, rows: seq<seq<nat>>, h: TreeHeader, live: set<nat>, leaf: nat, r: Rec)
    requires Undercut(nodes, live, leaf, r)
    ensures !(TreeOk(nodes, rows, h) && LiveIs(rows, live))
  {
    hide Flat, WF, AllFull, HeaderOk, RootOk;
    if rows != [] && WholeFull(nodes, rows, 0) && LiveIs(rows, live) {
      var m: nat :| m in live && IndexNode(nodes, m) && r in Recs(nodes, m);
      var j :| 0 <= j < |Recs(nodes, m)| && Recs(nodes, m)[j] == r;
      NamedNotAbove(nodes, rows, live, m, j);
    } else if rows == [] {
      EmptyRows(rows, leaf);
    }
  }

  lemma EmptyRows(rows: seq<seq<nat>>, n: nat)
    requires rows == []
    ensures !InRows(rows, n)
  {
  }

  /** The leaf `path` ends at, before a record below all its keys goes in. */
  ghost predicate FallsTo(nodes: Img, live: set<nat>, leaf: nat, r: Rec, p: int) {
    && leaf in live && leaf in nodes && nodes[leaf].height <= 1 && Asc(nodes[leaf].recs)
    && (forall x :: 0 <= x < |nodes[leaf].recs| ==> p < nodes[leaf].recs[x].key)
    && p < r.key && Holds(nodes, live, leaf, r)
  }

  /** Insertion below all keys of a node puts the record first. */
  lemma InsertFirst(rs: seq<Rec>, rec: Rec)
    requires forall x :: 0 <= x < |rs| ==> rec.key < rs[x].key
    ensures InsertSorted(rs, rec) == [rec] + rs
  {
    LowerBoundAt(rs, rec.key, 0);
  }

  /** The index record survives the insertion into node `n` and the split that may follow. */
  lemma HoldsAfter(nodes: Img, base: Img, nodes': Img, live: set<nat>, live': set<nat>, n: nat, rs: seq<Rec>,
      child: nat, leaf: nat, r: Rec)
    requires Holds(nodes, live, leaf, r) && n in live && n in nodes
    requires AllIn(Recs(nodes, n), rs)
    requires child == 0 ==> nodes' == SetRecs(nodes, n, rs) && live' == live
    requires child != 0 ==>
      && child !in live && live' == live + {child} && n in base && 2 <= |rs|
      && Carried(nodes, base, live)
      && nodes' == SplitImg(SetRecs(base, n, rs), n, child, |rs| / 2)
    ensures Holds(nodes', live', leaf, r)
  {
    var m: nat :| m in live && IndexNode(nodes, m) && r in Recs(nodes, m);
    if m == n && child != 0 {
      assert rs == rs[..|rs| / 2] + rs[|rs| / 2..];
      assert r in rs[..|rs| / 2] || r in rs[|rs| / 2..];
      var at := if r in rs[..|rs| / 2] then n else child;
      assert IndexNode(nodes', at) && r in Recs(nodes', at);
    } else {
      assert IndexNode(nodes', m) && r in Recs(nodes', m);
    }
  }

  /** So does the first key of any node but the one inserted into, and of that one when `rs` keeps it. */
  lemma HeadAfter(nodes: Img, base: Img, nodes': Img, live: set<nat>, n: nat, rs: seq<Rec>, child: nat, leaf: nat)
    requires leaf in live && n in live && n in nodes && leaf in nodes
    requires child == 0 ==> nodes' == SetRecs(nodes, n, rs)
    requires child != 0 ==>
      && child !in live && n in base && 2 <= |rs|
      && Carried(nodes, base, live)
      && nodes' == SplitImg(SetRecs(base, n, rs), n, child, |rs| / 2)
    ensures leaf != n ==> Recs(nodes', leaf) == Recs(nodes, leaf)
    ensures leaf == n && rs != [] ==> Recs(nodes', leaf) != [] && Recs(nodes', leaf)[0] == rs[0]
  {
  }

  /** A split above the leaf keeps it undercut. */
  lemma UndercutAfter(nodes: Img, base: Img, nodes': Img, live: set<nat>, live': set<nat>, h: TreeHeader,
      h': TreeHeader, n: nat, rs: seq<Rec>, child: nat, leaf: nat, r: Rec)
    requires Undercut(nodes, live, leaf, r) && n != leaf
    requires AllIn(Recs(nodes, n), rs)
    requires Changed(nodes, base, nodes', live, live', h, h', n, rs, child)
    ensures Undercut(nodes', live', leaf, r)
  {
    hide Holds, SplitImg, SetRecs;
    HoldsAfter(nodes, base, nodes', live, live', n, rs, child, leaf, r);
    HeadAfter(nodes, base, nodes', live, n, rs, child, leaf);
  }

  /** A record below all keys of the leaf undercuts it. */
  lemma FallsBelow(nodes: Img, base: Img, nodes': Img, live: set<nat>, live': set<nat>, h: TreeHeader,
      h': TreeHeader, rs: seq<Rec>, child: nat, leaf: nat, r: Rec, rec: Rec)
    requires FallsTo(nodes, live, leaf, r, rec.key) && rs == InsertSorted(nodes[leaf].recs, rec)
    requires AllIn(Recs(nodes, leaf), rs)
    requires Changed(nodes, base, nodes', live, live', h, h', leaf, rs, child)
    ensures Undercut(nodes', live', leaf, r)
  {
    hide Holds, SplitImg, SetRecs, InsertSorted;
    InsertFirst(nodes[leaf].recs, rec);
    HoldsAfter(nodes, base, nodes', live, live', leaf, rs, child, leaf, r);
    HeadAfter(nodes, base, nodes', live, leaf, rs, child, leaf);
  }

  lemma FallsUnder(nodes: Img, base: Img, nodes': Img, live: set<nat>, live': set<nat>, h: TreeHeader,
      h': TreeHeader, rs: seq<Rec>, child: nat, leaf: nat, r: Rec, rec: Rec)
    requires FallsTo(nodes, live, leaf, r, rec.key)
    requires Asc(Recs(nodes, leaf)) ==> rs == InsertSorted(Recs(nodes, leaf), rec)
    requires AllIn(Recs(nodes, leaf), rs) && Changed(nodes, base, nodes', live, live', h, h', leaf, rs, child)
    ensures Undercut(nodes', live', leaf, r)
  {
    hide Changed, FallsTo, Undercut, InsertSorted, AllIn;
    FallsAsc(nodes, live, leaf, r, rec.key);
    FallsBelow(nodes, base, nodes', live, live', h, h', rs, child, leaf, r, rec);
  }

  lemma FallsAsc(nodes: Img, live: set<nat>, leaf: nat, r: Rec, p: int)
    requires FallsTo(nodes, live, leaf, r, p)
    ensures leaf in nodes && Asc(Recs(nodes, leaf)) && leaf in live
  {
  }

  /** Writing a new node keeps the leaf undercut. */
  lemma UndercutFrame(nodes: Img, base: Img, live: set<nat>, n: nat, root: Node, leaf: nat, r: Rec)
    requires Undercut(nodes, live, leaf, r) && n !in live
    requires Carried(nodes, base, live)
    ensures Undercut(base[n := root], live + {n}, leaf, r)
  {
    var m: nat :| m in live && IndexNode(nodes, m) && r in Recs(nodes, m);
    assert IndexNode(base[n := root], m) && r in Recs(base[n := root], m);
  }

  // ---- from a fallback somewhere on the descent to the leaf ----

  /** Once the descent falls back, it takes first children from there on. */
  lemma {:induction false} FallbackDown(nodes: Img, rows: seq<seq<nat>>, path: seq<nat>, ci: seq<nat>,
      pos: seq<nat>, p: int, d: nat)
    requires WholeFull(nodes, rows, 0) && PathOk(nodes, rows, path, ci, pos) && |ci| == |path| - 1 && |path| == |rows|
    requires Followed(nodes, path, ci, p)
    requires d < |ci| && Recs(nodes, path[d]) != [] && p < Recs(nodes, path[d])[0].key
    ensures var k := |ci| - 1; ci[k] < |Recs(nodes, path[k])| && p < Recs(nodes, path[k])[ci[k]].key
    ensures Recs(nodes, path[|path| - 1]) != [] && p < Recs(nodes, path[|path| - 1])[0].key
    decreases |ci| - d
  {
    hide Flat, WF, Off, AllFull, TurnOk, PathOk, LowerBound;
    PathLengths(nodes, rows, path, ci, pos);
    var rs := Recs(nodes, path[d]);
    FirstPicked(rs, p);
    NextOnPath(nodes, rows, path, ci, pos, d);
    if d + 1 < |ci| {
      FallbackDown(nodes, rows, path, ci, pos, p, d + 1);
    }
  }

  lemma FirstPicked(rs: seq<Rec>, p: int)
    requires rs != [] && p < rs[0].key
    ensures Pick(rs, p) == 0
  {
    LowerBoundAt(rs, p + 1, 0);
  }

  lemma PathLengths(nodes: Img, rows: seq<seq<nat>>, path: seq<nat>, ci: seq<nat>, pos: seq<nat>)
    requires PathOk(nodes, rows, path, ci, pos)
    ensures |ci| == |path| - 1 && |pos| == |path| <= |rows|
    ensures forall d :: 0 <= d < |path| ==> pos[d] < |rows[d]| && path[d] == rows[d][pos[d]]
  {
    hide TurnOk;
  }

  lemma PathTurn(nodes: Img, rows: seq<seq<nat>>, path: seq<nat>, ci: seq<nat>, pos: seq<nat>, d: nat)
    requires PathOk(nodes, rows, path, ci, pos) && d < |ci|
    ensures ci[d] < |Recs(nodes, path[d])| && pos[d + 1] == Off(nodes, rows[d], pos[d]) + ci[d]
  {
    hide Off;
    assert TurnOk(nodes, rows, ci, pos, d);
  }

  lemma NextOnPath(nodes: Img, rows: seq<seq<nat>>, path: seq<nat>, ci: seq<nat>, pos: seq<nat>, d: nat)
    requires WholeFull(nodes, rows, 0) && PathOk(nodes, rows, path, ci, pos) && |ci| == |path| - 1 && |path| == |rows|
    requires d < |ci|
    ensures d + 1 < |path|
    ensures ci[d] < |Recs(nodes, path[d])| && Kid(Recs(nodes, path[d])[ci[d]]) == path[d + 1]
    ensures Recs(nodes, path[d + 1]) != [] && Recs(nodes, path[d])[ci[d]].key <= Recs(nodes, path[d + 1])[0].key
    ensures path[d] in nodes && nodes[path[d]].height == |rows| - d && Recs(nodes, path[d])[ci[d]].data.Child?
  {
    hide Flat, WF, Off, AllFull, PathOk;
    PathLengths(nodes, rows, path, ci, pos);
    PathTurn(nodes, rows, path, ci, pos, d);
    NextNode(nodes, rows, 0, d, pos[d], ci[d]);
    KeyBelowHead(nodes, rows, d, pos[d], ci[d]);
    LevelOf(nodes, rows, 0, d);
    hide Level;
    LevelNode(nodes, rows[d], |rows| - d, pos[d]);
  }

  /** An index key is not above the first key of the node it names. */
  lemma KeyBelowHead(nodes: Img, rows: seq<seq<nat>>, d: nat, i: nat, j: nat)
    requires WholeFull(nodes, rows, 0) && d < |rows| - 1 && i < |rows[d]| && j < |Recs(nodes, rows[d][i])|
    ensures var r := Recs(nodes, rows[d][i])[j];
      Recs(nodes, Kid(r)) != [] && r.key <= Recs(nodes, Kid(r))[0].key
  {
    hide Flat, Level, AllFull, Off;
    NextNode(nodes, rows, 0, d, i, j);
    LeafRecord(nodes, rows[d], i, j);
    assert IndexRow(nodes, Contents(nodes, rows), rows[d], rows[d + 1], 0);
    FullRow(nodes, rows, d + 1, Off(nodes, rows[d], i) + j);
  }

  lemma FullRow(nodes: Img, rows: seq<seq<nat>>, d: nat, i: nat)
    requires WholeFull(nodes, rows, 0) && d < |rows| && i < |rows[d]|
    ensures Recs(nodes, rows[d][i]) != []
  {
    hide Flat, WF;
    RowSpread(nodes, rows, 0, d);
  }

  lemma LevelNode(nodes: Img, s: seq<nat>, h: nat, i: nat)
    requires Level(nodes, s, h) && i < |s|
    ensures NodeAt(nodes, s[i], h)
  {
  }

  /** A descent that falls back somewhere ends at a leaf the new key would undercut. */
  lemma FallbackReaches(nodes: Img, rows: seq<seq<nat>>, live: set<nat>, path: seq<nat>, ci: seq<nat>,
      pos: seq<nat>, p: int)
    requires WholeFull(nodes, rows, 0) && LiveIs(rows, live) && PathOk(nodes, rows, path, ci, pos) && |ci| == |path| - 1
    requires |path| == |rows| && Followed(nodes, path, ci, p)
    requires !NoFallback(nodes, path, ci, p)
    ensures var k := |path| - 1;
      && k > 0 && ci[k - 1] < |Recs(nodes, path[k - 1])|
      && FallsTo(nodes, live, path[k], Recs(nodes, path[k - 1])[ci[k - 1]], p)
  {
    hide Flat, WF, AllFull, Off, Asc, PathOk, NoFallback, Followed, Holds;
    PathLengths(nodes, rows, path, ci, pos);
    var k := |path| - 1;
    var d := FallbackAt(nodes, path, ci, p);
    NextOnPath(nodes, rows, path, ci, pos, d);
    FallbackDown(nodes, rows, path, ci, pos, p, d);
    NextOnPath(nodes, rows, path, ci, pos, k - 1);
    LeafOnPath(nodes, rows, live, path, ci, pos);
    AboveAll(Recs(nodes, path[k]), p);
    assert path[k - 1] in rows[k - 1];
    RowsLive(rows, live, k - 1, path[k - 1]);
    HoldsHere(nodes, live, path[k - 1], ci[k - 1], path[k]);
  }

  lemma FallbackAt(nodes: Img, path: seq<nat>, ci: seq<nat>, p: int) returns (d: nat)
    requires |ci| <= |path| && Followed(nodes, path, ci, p) && !NoFallback(nodes, path, ci, p)
    ensures d < |ci| && (Recs(nodes, path[d]) == [] || p < Recs(nodes, path[d])[0].key)
  {
    hide Pick;
    d :| 0 <= d < |ci| && !(Recs(nodes, path[d]) != [] && Recs(nodes, path[d])[0].key <= p &&
      ci[d] == Pick(Recs(nodes, path[d]), p));
  }

  lemma HoldsHere(nodes: Img, live: set<nat>, m: nat, j: nat, leaf: nat)
    requires m in live && IndexNode(nodes, m) && j < |Recs(nodes, m)|
    requires Recs(nodes, m)[j].data.Child? && Kid(Recs(nodes, m)[j]) == leaf
    ensures Holds(nodes, live, leaf, Recs(nodes, m)[j])
  {
    assert Recs(nodes, m)[j] in Recs(nodes, m);
  }

  lemma LeafOnPath(nodes: Img, rows: seq<seq<nat>>, live: set<nat>, path: seq<nat>, ci: seq<nat>, pos: seq<nat>)
    requires WholeFull(nodes, rows, 0) && LiveIs(rows, live) && PathOk(nodes, rows, path, ci, pos) && |path| == |rows|
    ensures var leaf := path[|path| - 1];
      leaf in live && leaf in nodes && nodes[leaf].height <= 1 && Asc(nodes[leaf].recs)
  {
    hide Flat, WF, AllFull, Off, Asc, PathOk;
    PathLengths(nodes, rows, path, ci, pos);
    var k := |path| - 1;
    assert path[k] in rows[k];
    RowsLive(rows, live, k, path[k]);
    LevelOf(nodes, rows, 0, k);
    hide Level;
    LevelNode(nodes, rows[k], |rows| - k, pos[k]);
    LeafAsc(nodes, rows, pos[k]);
  }

  lemma LeafAsc(nodes: Img, rows: seq<seq<nat>>, i: nat)
    requires rows != [] && WholeFull(nodes, rows, 0) && i < |rows[|rows| - 1]|
    ensures Asc(Recs(nodes, rows[|rows| - 1][i]))
  {
    hide Flat, WF, AllFull, Asc;
    var s := rows[|rows| - 1];
    RowSpread(nodes, rows, 0, |rows| - 1);
    FlatAt(nodes, s, i);
    AscCat(Flat(nodes, s[..i]), Recs(nodes, s[i]), Flat(nodes, s[i + 1..]));
  }

  /** The leaf is none of the nodes above it. */
  lemma LeafApart(nodes: Img, rows: seq<seq<nat>>, path: seq<nat>, ci: seq<nat>, pos: seq<nat>)
    requires WholeFull(nodes, rows, 0) && PathOk(nodes, rows, path, ci, pos) && |path| == |rows|
    ensures forall d :: 0 <= d < |path| - 1 ==> path[d] != path[|path| - 1]
  {
    hide Flat, WF, AllFull, PathOk;
    PathLengths(nodes, rows, path, ci, pos);
    LevelsAre(nodes, rows, 0);
    var k := |path| - 1;
    assert path[k] in rows[k];
    forall d | 0 <= d < k ensures path[d] != path[k] {
      assert path[d] in rows[d];
      RowsApart(nodes, rows, d, k);
    }
  }

  lemma AboveAll(rs: seq<Rec>, p: int)
    requires Asc(rs) && rs != [] && p < rs[0].key
    ensures forall x :: 0 <= x < |rs| ==> p < rs[x].key
  {
    forall x | 0 <= x < |rs| ensures p < rs[x].key {
      assert x > 0 ==> rs[0].key < rs[x].key;
    }
  }
}
