/** Rebalancing after a deletion: which repair is chosen, and why it finds what it needs. */
module Repairs {
  import opened Nodes
  import opened Rows
  import opened Edits
  import opened Steps
  import opened Search
  import opened LeafEdits
  import opened Trees
  import opened Deletes
  import opened FixedSizes
  import opened ExactKeys
  import opened Fallback
  import opened Chains
  import opened Descents

  // ---- the states of a deletion ----

  /** A whole tree under deletion of key `e`. */
  ghost predicate KeptAt(nodes: Img, rows: seq<seq<nat>>, h: TreeHeader, live: set<nat>, e: int) {
    rows != [] && LiveIs(rows, live) && Whole(nodes, rows, e) && HeaderOk(rows, h)
  }

  /** The tree while a deletion of key `e` stands at `path[k]`. */
  ghost predicate Deleting(nodes: Img, rows: seq<seq<nat>>, h: TreeHeader, live: set<nat>,
                           path: seq<nat>, ci: seq<nat>, pos: seq<nat>, k: nat, e: int)
  {
    LiveIs(rows, live) && PathTo(nodes, rows, path, ci, pos, k) && Lowered(nodes, rows, h, e, k, pos[k])
  }

  function LeavesOf(rows: seq<seq<nat>>): nat {
    if rows == [] then 0 else |rows[|rows| - 1]|
  }

  predicate OnlyKey(rs: seq<Rec>, p: int) {
    |rs| == 1 && rs[0].key == p
  }

  ghost predicate SomeAlone(nodes: Img, s: seq<nat>, p: int) {
    exists i :: 0 <= i < |s| && OnlyKey(Recs(nodes, s[i]), p)
  }

  /** Node `n`, record `x` of `p`, underflows and is merged with a sibling. */
  ghost predicate MergesAt(nodes: Img, nodeSize: nat, p: nat, x: nat, n: nat) {
    && x < |Recs(nodes, p)| && UsedBytes(Recs(nodes, n)) < nodeSize / 2
    && RepairFor(nodes, nodeSize, Recs(nodes, n), Recs(nodes, p), x) in {MergeLeft, MergeRight}
  }

  /** Two leaves under a root, all their records but `p`'s fit one node, and the leaf of `p` underflows without it. */
  ghost predicate FoldsWithout(nodes: Img, rows: seq<seq<nat>>, nodeSize: nat, p: int) {
    && |rows| == 2 && |rows[1]| == 2 && Fits(nodeSize, Without(Contents(nodes, rows), p))
    && (ShortWithout(Recs(nodes, rows[1][0]), nodeSize, p) || ShortWithout(Recs(nodes, rows[1][1]), nodeSize, p))
  }

  predicate ShortWithout(rs: seq<Rec>, nodeSize: nat, p: int) {
    HasKey(rs, p) && UsedBytes(Without(rs, p)) < nodeSize / 2
  }

  lemma DeletingIsKept(nodes: Img, rows: seq<seq<nat>>, h: TreeHeader, e: int, live: set<nat>, path: seq<nat>,
      ci: seq<nat>, pos: seq<nat>, k: nat)
    requires Deleting(nodes, rows, h, live, path, ci, pos, k, e)
    ensures KeptAt(nodes, rows, h, live, e) && k < |rows| && |ci| == |path| - 1 && |pos| == |path| && k < |path|
    ensures path[0] == h.root && 0 !in live
    ensures path[k] == rows[k][pos[k]] && path[k] in nodes && path[k] in live
    ensures k < |rows| - 1 ==> Recs(nodes, path[k]) != []
  {
    hide Flat, WF, HeaderOk, GapOk, FullBut, PathTo, LiveIs;
    PathToPrefix(nodes, rows, path, ci, pos, k, 0);
    RootStands(nodes, rows, h, path, ci, pos);
    PathToLast(nodes, rows, path, ci, pos, k);
    LevelsAre(nodes, rows, e);
    ZeroNotLive(nodes, rows, live);
    LevelOf(nodes, rows, e, k);
    assert path[k] in rows[k];
    RowsLive(rows, live, k, path[k]);
    hide Levels;
    assert NodeAt(nodes, rows[k][pos[k]], |rows| - k);
  }

  lemma KeptParts(nodes: Img, rows: seq<seq<nat>>, h: TreeHeader, live: set<nat>, e: int)
    requires KeptAt(nodes, rows, h, live, e)
    ensures rows != [] && LiveIs(rows, live) && Whole(nodes, rows, e) && HeaderOk(rows, h)
  {
  }

  /** Every row of a tree with an index root has two nodes or more. */
  lemma {:induction false} RowsWide(nodes: Img, rows: seq<seq<nat>>, e: int, d: nat)
    requires rows != [] && Whole(nodes, rows, e) && RootOk(nodes, rows) && d < |rows|
    ensures |rows[0]| == 1 && (d > 0 ==> |rows[d]| >= 2)
    decreases d
  {
    hide Flat, WF;
    SingleRoot(nodes, rows, e);
    if d > 0 {
      RowsWide(nodes, rows, e, d - 1);
      var s := rows[d - 1];
      LevelOf(nodes, rows, e, d - 1);
      forall i | 0 <= i < |s| ensures |Recs(nodes, s[i])| >= 1 {
        LevelNode(nodes, s, |rows| - (d - 1), i);
      }
      hide Level;
      FlatAtLeastEach(nodes, s, 1);
      RowAsLong(nodes, rows, e, d - 1);
      if d == 1 {
        assert s == [s[0]];
        FlatOne(nodes, s[0]);
      }
    }
  }

  lemma RowAsLong(nodes: Img, rows: seq<seq<nat>>, e: int, d: nat)
    requires Whole(nodes, rows, e) && d < |rows| - 1
    ensures |Flat(nodes, rows[d])| == |rows[d + 1]|
  {
    hide Flat, Level;
    assert IndexRow(nodes, Contents(nodes, rows), rows[d], rows[d + 1], e);
  }

  lemma LeavesAre(nodes: Img, rows: seq<seq<nat>>)
    requires rows != [] && WholeFull(nodes, rows, 0) && RootOk(nodes, rows)
    ensures if |rows| == 1 then LeavesOf(rows) == 1 else LeavesOf(rows) >= 2
  {
    hide WF, AllFull, RootOk;
    RowsWide(nodes, rows, 0, |rows| - 1);
  }

  /** The records of a tree that is one leaf fit a node. */
  lemma OneLeafFits(nodes: Img, rows: seq<seq<nat>>, h: TreeHeader, live: set<nat>, nodeSize: nat)
    requires |rows| <= 1 && TreeOk(nodes, rows, h) && LiveIs(rows, live) && nodeSize >= 512
    requires forall n: nat :: n in live ==> n in nodes && Fits(nodeSize, nodes[n].recs)
    ensures Fits(nodeSize, Contents(nodes, rows))
  {
    hide Flat, WF, HeaderOk, AllFull;
    if rows == [] {
      NoRecords(nodes);
    } else {
      SingleRoot(nodes, rows, 0);
      assert rows[0] == [rows[0][0]];
      FlatOne(nodes, rows[0][0]);
      RowsLive(rows, live, 0, rows[0][0]);
    }
  }

  lemma {:induction false} WithoutFits(nodeSize: nat, rs: seq<Rec>, p: int)
    ensures UsedBytes(Without(rs, p)) <= UsedBytes(rs)
    ensures Fits(nodeSize, rs) ==> Fits(nodeSize, Without(rs, p))
  {
    if rs != [] {
      WithoutFits(nodeSize, rs[1..], p);
      SumLenCat(if rs[0].key == p then [] else [rs[0]], Without(rs[1..], p));
      assert [rs[0]][1..] == [];
    }
  }

  // ---- what a deletion does to the other nodes ----

  /** No node is taken; nodes not in use stay as they were; those given up are erased, and counted as free. */
  ghost predicate Swept(nodes: Img, live: set<nat>, free: nat, nodes': Img, live': set<nat>, free': nat) {
    && nodes'.Keys == nodes.Keys && live' <= live && free' == free + (|live| - |live'|)
    && forall n: nat :: n in nodes && n !in live' ==> nodes'[n] == if n in live then Erased else nodes[n]
  }

  lemma SweptTwice(nodes: Img, live: set<nat>, free: nat, nodes1: Img, live1: set<nat>, free1: nat, nodes2: Img,
      live2: set<nat>, free2: nat)
    requires Swept(nodes, live, free, nodes1, live1, free1) && Swept(nodes1, live1, free1, nodes2, live2, free2)
    ensures Swept(nodes, live, free, nodes2, live2, free2)
  {
    forall n: nat | n in nodes && n !in live2 ensures nodes2[n] == if n in live then Erased else nodes[n] {
      assert n in nodes1;
    }
  }

  lemma {:induction false} NoLarger(a: set<nat>, b: set<nat>)
    requires a <= b
    ensures |a| <= |b|
  {
    if x :| x in a {
      NoLarger(a - {x}, b - {x});
    }
  }

  lemma SweptStore(nodes: Img, live: set<nat>, free: nat, n: nat, nd: Node)
    requires n in live && n in nodes
    ensures Swept(nodes, live, free, nodes[n := nd], live, free)
  {
  }

  lemma SweptFree(nodes: Img, live: set<nat>, free: nat, n: nat)
    requires n in live && n in nodes
    ensures Swept(nodes, live, free, nodes[n := Erased], live - {n}, free + 1)
  {
  }

  lemma SweptRotate(nodes: Img, live: set<nat>, free: nat, p: nat, l: nat, r: nat, j: nat, ls: seq<Rec>, rs: seq<Rec>)
    requires p in nodes && l in nodes && r in nodes && j + 1 < |nodes[p].recs| && rs != []
    requires p in live && l in live && r in live
    ensures Swept(nodes, live, free, RotateImg(nodes, p, l, r, j, ls, rs), live, free)
  {
    assert RotateImg(nodes, p, l, r, j, ls, rs).Keys == nodes.Keys;
  }

  lemma SweptMerge(nodes: Img, live: set<nat>, free: nat, p: nat, l: nat, r: nat, sep: nat)
    requires p in nodes && l in nodes && r in nodes && l != p && r != p && l != r && p in live && l in live && r in live
    requires sep + 1 < |Recs(nodes, p)| && Recs(nodes, l) + Recs(nodes, r) != []
    requires nodes[r].flink == 0 || nodes[r].flink in live
    ensures Swept(nodes, live, free, MergeImg(nodes, p, l, r, sep), live - {r}, free + 1)
  {
    hide MergedParent;
    assert MergeImg(nodes, p, l, r, sep).Keys == nodes.Keys;
  }

  // ---- which repair ----

  lemma NoneWithout(p: int)
    ensures Without([], p) == [] && !HasKey([], p)
    ensures forall nodes: Img :: Contents(nodes, []) == []
  {
  }

  datatype Repair = MergeLeft | MergeRight | TakeLeft | TakeRight | NoRepair

  /** Merging is preferred to rotating, and the left sibling to the right one. */
  ghost function RepairFor(nodes: Img, nodeSize: nat, en: seq<Rec>, parent: seq<Rec>, myIdx: nat): Repair
    requires myIdx < |parent|
  {
    var left := if myIdx > 0 then Recs(nodes, Kid(parent[myIdx - 1])) else [];
    var right := if myIdx < |parent| - 1 then Recs(nodes, Kid(parent[myIdx + 1])) else [];
    if myIdx > 0 && Fits(nodeSize, left + en) then MergeLeft
    else if myIdx < |parent| - 1 && Fits(nodeSize, en + right) then MergeRight
    else if myIdx > 0 && Spares(nodeSize, left, en) then TakeLeft
    else if myIdx < |parent| - 1 && Spares(nodeSize, right, en) then TakeRight
    else NoRepair
  }

  lemma NoSibling(nodes: Img, nodeSize: nat, en: seq<Rec>, parent: seq<Rec>)
    requires |parent| == 1
    ensures RepairFor(nodes, nodeSize, en, parent, 0) == NoRepair
  {
  }

  lemma DelFits(nodeSize: nat, rs: seq<Rec>, x: nat)
    requires x < |rs|
    ensures Fits(nodeSize, rs) ==> Fits(nodeSize, Del(rs, x))
  {
    assert rs == rs[..x] + ([rs[x]] + rs[x + 1..]);
    SumLenCat(rs[..x], [rs[x]] + rs[x + 1..]);
    SumLenCat([rs[x]], rs[x + 1..]);
    SumLenCat(rs[..x], rs[x + 1..]);
  }

  /** Whether `recv` has room for `donor`'s last record. */
  ghost predicate Spares(nodeSize: nat, donor: seq<Rec>, recv: seq<Rec>) {
    |donor| > 1 && UsedBytes(recv) + 2 + RecLen(donor[|donor| - 1]) <= nodeSize
  }

  /** A sibling alone always fits its node. */
  lemma SiblingFits(nodes: Img, rows: seq<seq<nat>>, nodeSize: nat, h: TreeHeader, e: int, live: set<nat>,
      path: seq<nat>, ci: seq<nat>, pos: seq<nat>, k: nat, m: nat)
    requires Deleting(nodes, rows, h, live, path, ci, pos, k, e) && k > 0
    requires forall n: nat :: n in live ==> n in nodes && Fits(nodeSize, nodes[n].recs)
    requires m < |Recs(nodes, path[k - 1])|
    ensures Fits(nodeSize, Recs(nodes, Kid(Recs(nodes, path[k - 1])[m])))
  {
    hide Flat, WF, Off, HeaderOk, GapOk, FullBut, PathTo, UsedBytes;
    StandsAt(nodes, rows, h, e, path, ci, pos, k);
    NextNode(nodes, rows, e, k - 1, pos[k - 1], m);
    var n := Kid(Recs(nodes, path[k - 1])[m]);
    assert n in rows[k];
    RowsLive(rows, live, k, n);
  }

  /** Each repair finds what it needs; an emptied node is always merged when it has a sibling. */
  ghost predicate RepairSound(nodes: Img, repair: Repair, en: seq<Rec>, parent: seq<Rec>, myIdx: nat)
    requires myIdx < |parent|
  {
    && (repair == MergeLeft ==> myIdx > 0)
    && (repair == MergeRight ==> myIdx + 1 < |parent|)
    && (repair == TakeLeft ==> myIdx > 0 && |Recs(nodes, Kid(parent[myIdx - 1]))| > 1)
    && (repair == TakeRight ==> myIdx + 1 < |parent| && |Recs(nodes, Kid(parent[myIdx + 1]))| > 1)
    && (en == [] && |parent| > 1 ==> repair == MergeLeft || repair == MergeRight)
    && (en == [] && |parent| == 1 ==> repair == NoRepair)
  }

  lemma RepairIsSound(nodes: Img, nodeSize: nat, en: seq<Rec>, parent: seq<Rec>, myIdx: nat)
    requires myIdx < |parent|
    requires forall m :: 0 <= m < |parent| ==> Fits(nodeSize, Recs(nodes, Kid(parent[m])))
    ensures RepairSound(nodes, RepairFor(nodes, nodeSize, en, parent, myIdx), en, parent, myIdx)
  {
    hide Fits;
    assert en == [] ==> forall s: seq<Rec> :: s + en == s && en + s == s;
  }

  lemma RepairFacts(nodes: Img, rows: seq<seq<nat>>, nodeSize: nat, h: TreeHeader, e: int, live: set<nat>,
      path: seq<nat>, ci: seq<nat>, pos: seq<nat>, k: nat)
    requires Deleting(nodes, rows, h, live, path, ci, pos, k, e) && k > 0
    requires forall n: nat :: n in live ==> n in nodes && Fits(nodeSize, nodes[n].recs)
    ensures |ci| == |path| - 1 && k < |path| && path[k - 1] in nodes && ci[k - 1] < |nodes[path[k - 1]].recs|
    ensures var en, parent, myIdx := Recs(nodes, path[k]), Recs(nodes, path[k - 1]), ci[k - 1];
      RepairSound(nodes, RepairFor(nodes, nodeSize, en, parent, myIdx), en, parent, myIdx)
  {
    hide Fits, PathTo, Lowered, RepairFor, RepairSound;
    PathToPrefix(nodes, rows, path, ci, pos, k, k);
    StandsAt(nodes, rows, h, e, path, ci, pos, k);
    var parent := Recs(nodes, path[k - 1]);
    forall m | 0 <= m < |parent| ensures Fits(nodeSize, Recs(nodes, Kid(parent[m]))) {
      SiblingFits(nodes, rows, nodeSize, h, e, live, path, ci, pos, k, m);
    }
    RepairIsSound(nodes, nodeSize, Recs(nodes, path[k]), parent, ci[k - 1]);
  }

  /** What each repair needs of the sibling it works with. */
  ghost predicate RepairFits(nodes: Img, nodeSize: nat, n: nat, parent: seq<Rec>, x: nat)
    requires nodeSize >= 512 && x < |parent|
  {
    match RepairFor(nodes, nodeSize, Recs(nodes, n), parent, x)
    case MergeLeft => x > 0 && Fits(nodeSize, Recs(nodes, Kid(parent[x - 1])) + Recs(nodes, n))
    case MergeRight => x + 1 < |parent| && Fits(nodeSize, Recs(nodes, n) + Recs(nodes, Kid(parent[x + 1])))
    case TakeLeft => x > 0 && CanRotate(nodes, nodeSize, n, Kid(parent[x - 1]))
    case TakeRight => x + 1 < |parent| && CanRotate(nodes, nodeSize, n, Kid(parent[x + 1]))
    case NoRepair => false
  }

  ghost predicate SiblingHelps(nodes: Img, nodeSize: nat, n: nat, sib: nat, joined: seq<Rec>)
    requires nodeSize >= 512
  {
    Fits(nodeSize, joined) || (CanRotate(nodes, nodeSize, n, sib) && Spares(nodeSize, Recs(nodes, sib), Recs(nodes, n)))
  }

  lemma RepairFitsHere(nodes: Img, nodeSize: nat, n: nat, parent: seq<Rec>, x: nat)
    requires nodeSize >= 512 && x < |parent| && |parent| >= 2
    requires x > 0 ==>
      SiblingHelps(nodes, nodeSize, n, Kid(parent[x - 1]), Recs(nodes, Kid(parent[x - 1])) + Recs(nodes, n))
    requires x + 1 < |parent| ==>
      SiblingHelps(nodes, nodeSize, n, Kid(parent[x + 1]), Recs(nodes, n) + Recs(nodes, Kid(parent[x + 1])))
    ensures RepairFits(nodes, nodeSize, n, parent, x)
  {
    hide Fits, UsedBytes, CanRotate;
  }

  lemma ParentHasTwo(nodes: Img, rows: seq<seq<nat>>, nodeSize: nat, h: TreeHeader, e: int, live: set<nat>,
      path: seq<nat>, ci: seq<nat>, pos: seq<nat>, k: nat)
    requires nodeSize >= 512 && Filled(nodes, live, nodeSize, h.root, if k < |path| then path[k] else 0)
    requires Deleting(nodes, rows, h, live, path, ci, pos, k, e) && k > 0
    requires RootOk(nodes, rows)
    ensures |path| > k && |Recs(nodes, path[k - 1])| >= 2
  {
    hide PathTo, WF, Flat, Off, GapOk, FullBut, Cap;
    StandsAt(nodes, rows, h, e, path, ci, pos, k);
    LevelsAre(nodes, rows, e);
    LinksLive(nodes, rows, live, k - 1, pos[k - 1]);
    RowsLive(rows, live, k - 1, path[k - 1]);
    RowsApart(nodes, rows, k - 1, k);
    assert FilledNode(nodes, nodeSize, path[k - 1], h.root, path[k]);
    CapBounds(nodeSize, nodes[path[k - 1]].height);
    if k - 1 > 0 {
      RootAbove(nodes, rows, h, e, k - 1, pos[k - 1]);
    } else {
      PathToLast(nodes, rows, path, ci, pos, 0);
    }
  }

  /** In a tree of fixed sizes there is always a repair, and it keeps the minimum record counts. */
  lemma RepairSized(nodes: Img, rows: seq<seq<nat>>, nodeSize: nat, h: TreeHeader, e: int, live: set<nat>,
      path: seq<nat>, ci: seq<nat>, pos: seq<nat>, k: nat)
    requires nodeSize >= 512 && Filled(nodes, live, nodeSize, h.root, if k < |path| then path[k] else 0)
    requires Deleting(nodes, rows, h, live, path, ci, pos, k, e) && k > 0
    requires RootOk(nodes, rows) && UsedBytes(Recs(nodes, path[k])) < nodeSize / 2
    requires forall n: nat :: n in live ==> n in nodes && Fits(nodeSize, nodes[n].recs)
    ensures |ci| == |path| - 1 && k < |path| && path[k - 1] in nodes && ci[k - 1] < |nodes[path[k - 1]].recs|
    ensures RepairFits(nodes, nodeSize, path[k], Recs(nodes, path[k - 1]), ci[k - 1])
  {
    hide Fits, PathTo, Lowered, RepairFor, Filled, UsedBytes, RootOk;
    StandsAt(nodes, rows, h, e, path, ci, pos, k);
    var parent, x := Recs(nodes, path[k - 1]), ci[k - 1];
    ParentHasTwo(nodes, rows, nodeSize, h, e, live, path, ci, pos, k);
    if x > 0 {
      PairAt(nodes, rows, h, e, live, path, ci, pos, k, x - 1);
      if !Fits(nodeSize, Recs(nodes, Kid(parent[x - 1])) + Recs(nodes, path[k])) {
        SparesOne(nodes, live, nodeSize, h.root, path[k], Kid(parent[x - 1]));
      }
    }
    if x + 1 < |parent| {
      PairAt(nodes, rows, h, e, live, path, ci, pos, k, x);
      if !Fits(nodeSize, Recs(nodes, path[k]) + Recs(nodes, Kid(parent[x + 1]))) {
        SparesOne(nodes, live, nodeSize, h.root, path[k], Kid(parent[x + 1]));
      }
    }
    RepairFitsHere(nodes, nodeSize, path[k], parent, x);
  }

  lemma RootStands(nodes: Img, rows: seq<seq<nat>>, h: TreeHeader, path: seq<nat>, ci: seq<nat>, pos: seq<nat>)
    requires PathTo(nodes, rows, path, ci, pos, 0) && HeaderOk(rows, h)
    ensures |path| > 0 && path[0] == h.root
  {
    PathToLast(nodes, rows, path, ci, pos, 0);
  }

  lemma EmptyUnderflows(nodeSize: nat)
    requires nodeSize >= 512
    ensures UsedBytes([]) < nodeSize / 2
  {
  }

  /** Whether leaves are full does not depend on the rows. */
  lemma LeavesFull(nodes: Img, rows: seq<seq<nat>>, rs: seq<seq<nat>>, h: TreeHeader, live: set<nat>, e: int)
    requires rows != [] && Whole(nodes, rows, e) && LiveIs(rows, live)
    requires TreeOk(nodes, rs, h) && LiveIs(rs, live)
    ensures AllFull(nodes, rows[|rows| - 1])
  {
    hide Flat, WF, HeaderOk, RootOk, LiveIs;
    var s := rows[|rows| - 1];
    forall i | 0 <= i < |s| ensures Recs(nodes, s[i]) != [] {
      assert s[i] in s;
      RowsLive(rows, live, |rows| - 1, s[i]);
      LevelOf(nodes, rows, e, |rows| - 1);
      LevelNode(nodes, s, 1, i);
      LiveInRows(rs, live, s[i]);
      var d, x := RowOf(nodes, rs, 0, live, s[i]);
    }
  }

  lemma LiveInRows(rs: seq<seq<nat>>, live: set<nat>, n: nat)
    requires LiveIs(rs, live) && n in live
    ensures rs != []
  {
    assert InRows(rs, n);
  }

  lemma LiveSized(nodes: Img, live: set<nat>, nodeSize: nat, exempt: nat, dip: nat, n: nat)
    requires nodeSize >= 512 && Filled(nodes, live, nodeSize, exempt, dip) && n in live
    ensures n in nodes && Sized(nodes[n].recs, nodes[n].height)
    ensures (nodes[n].recs != [] ==> nodes[n].recs[0].klen == KEY_SIZE)
    ensures n != exempt ==> nodes[n].recs != []
  {
    CapBounds(nodeSize, if n in nodes then nodes[n].height else 0);
    assert FilledNode(nodes, nodeSize, n, exempt, dip);
  }

  /** What rebalancing `path[k]` starts from. */
  lemma RebalanceFacts(nodes: Img, rows: seq<seq<nat>>, h: TreeHeader, e: int, live: set<nat>, path: seq<nat>,
      ci: seq<nat>, pos: seq<nat>, k: nat)
    requires Deleting(nodes, rows, h, live, path, ci, pos, k, e)
    ensures KeptAt(nodes, rows, h, live, e) && |ci| == |path| - 1 && |pos| == |path| && rows != [] && k < |rows|
    ensures k < |path|
    ensures path[0] == h.root && path[k] in nodes
    ensures Recs(nodes, path[k]) != [] <==> AllFull(nodes, rows[|rows| - 1])
    ensures Recs(nodes, path[k]) == [] ==> k == |rows| - 1
    ensures k > 0 ==>
      && path[k - 1] in nodes && ci[k - 1] < |Recs(nodes, path[k - 1])|
      && Kid(Recs(nodes, path[k - 1])[ci[k - 1]]) == path[k]
  {
    hide Flat, WF, GapOk, HeaderOk, PathTo, LiveIs;
    DeletingIsKept(nodes, rows, h, e, live, path, ci, pos, k);
    LevelOf(nodes, rows, e, k);
    if k > 0 {
      StandsAt(nodes, rows, h, e, path, ci, pos, k);
    }
  }

  // ---- the root ----

  lemma ShrinkReady(nodes: Img, rows: seq<seq<nat>>, h: TreeHeader, e: int, live: set<nat>)
    requires KeptAt(nodes, rows, h, live, e)
    ensures rows != [] && h.root in nodes && h.root in live && 0 !in live && h.treeDepth == |rows|
    ensures RootOk(nodes, rows) <==> !(nodes[h.root].kind == Index && |nodes[h.root].recs| == 1)
    ensures nodes[h.root].kind == Index && |nodes[h.root].recs| == 1 ==> |rows| > 1 && nodes[h.root].recs[0].data.Child?
  {
    hide Flat, WF, LiveIs;
    LevelsAre(nodes, rows, e);
    ZeroNotLive(nodes, rows, live);
    LevelOf(nodes, rows, e, 0);
    assert NodeAt(nodes, rows[0][0], |rows|);
    RowsLive(rows, live, 0, rows[0][0]);
  }

  /** What dropping a root with one child leaves. */
  lemma ShrinkResult(nodes: Img, rows: seq<seq<nat>>, h: TreeHeader, live: set<nat>, e: int)
    requires KeptAt(nodes, rows, h, live, e) && |rows| > 1 && h.root in nodes && |nodes[h.root].recs| == 1
    ensures var nodes', rows', h' := nodes[h.root := Erased], rows[1..],
      h.(root := Kid(nodes[h.root].recs[0]), treeDepth := h.treeDepth - 1);
      && KeptAt(nodes', rows', h', live - {h.root}, e)
      && Contents(nodes', rows') == Contents(nodes, rows) && LeavesOf(rows') == LeavesOf(rows)
      && (AllFull(nodes, rows[|rows| - 1]) ==> AllFull(nodes', rows'[|rows'| - 1]))
      && (Exact(nodes, live, 0) ==> Exact(nodes', live - {h.root}, 0))
  {
    hide Flat, WF, AllFull, Exact, Contents, InRows;
    RootFirst(rows, h);
    ShrinkGives(nodes, nodes[h.root := Erased], rows, h, e);
    if Exact(nodes, live, 0) {
      ExactShrink(nodes, nodes[h.root := Erased], rows, e, live, h);
    }
  }

  // ---- refreshing ----

  lemma RefreshReady(nodes: Img, rows: seq<seq<nat>>, h: TreeHeader, e: int, live: set<nat>, path: seq<nat>,
      ci: seq<nat>, pos: seq<nat>, level: nat)
    requires |path| > 0 && Deleting(nodes, rows, h, live, path, ci, pos, |path| - 1, e) && 0 < level < |path|
    ensures |ci| == |path| - 1 && path[level] in nodes && path[level - 1] in nodes && path[level] in live
    ensures path[level - 1] in live
    ensures ci[level - 1] < |Recs(nodes, path[level - 1])| && nodes[path[level - 1]].height > 1
  {
    hide Lowered, PathTo;
    RefreshPlace(nodes, rows, h, e, path, ci, pos, level);
    RefreshSite(nodes, rows, h, e, live, path, ci, pos, level);
  }

  /** What refreshing the index key that names `path[level]` leaves. */
  lemma RefreshResult(nodes: Img, rows: seq<seq<nat>>, h: TreeHeader, e: int, live: set<nat>, path: seq<nat>,
      ci: seq<nat>, pos: seq<nat>, level: nat)
    requires |path| > 0 && Deleting(nodes, rows, h, live, path, ci, pos, |path| - 1, e) && 0 < level < |path|
    requires RootOk(nodes, rows) && Recs(nodes, path[level]) != []
    ensures path[level - 1] in nodes && level <= |ci| && ci[level - 1] < |nodes[path[level - 1]].recs|
    ensures var p, nodes' := path[level - 1], RefreshImg(nodes, path[level - 1], ci[level - 1], path[level]);
      && Deleting(nodes', rows, h, live, path, ci, pos, |path| - 1, e) && RootOk(nodes', rows)
      && Contents(nodes', rows) == Contents(nodes, rows)
      && (forall n: nat :: |Recs(nodes', n)| == |Recs(nodes, n)|)
      && Recs(nodes', path[|path| - 1]) == Recs(nodes, path[|path| - 1])
      && (Exact(nodes, live, path[level]) ==> Exact(nodes', live, if ci[level - 1] == 0 then p else 0))
  {
    hide Flat, Lowered, PathTo, RootOk, Contents, Exact, LiveIs, WF, RefreshImg;
    var last := |path| - 1;
    DeletingIsKept(nodes, rows, h, e, live, path, ci, pos, last);
    RefreshPlace(nodes, rows, h, e, path, ci, pos, level);
    RefreshSite(nodes, rows, h, e, live, path, ci, pos, level);
    RefreshLowers(nodes, rows, h, e, level - 1, pos[level - 1], ci[level - 1], last, pos[last]);
    var nodes' := RefreshImg(nodes, path[level - 1], ci[level - 1], path[level]);
    PathToCounts(nodes, nodes', rows, path, ci, pos, last);
    LeafBelow(nodes, rows, h, e, live, path, ci, pos, level - 1);
    RefreshElsewhere(nodes, path[level - 1], ci[level - 1], path[level], path[last]);
    if Exact(nodes, live, path[level]) {
      ExactRefresh(nodes, rows, e, live, level - 1, pos[level - 1], ci[level - 1], path[level]);
    }
  }

  /** The leaf of a path is none of the nodes above it. */
  lemma LeafBelow(nodes: Img, rows: seq<seq<nat>>, h: TreeHeader, e: int, live: set<nat>, path: seq<nat>,
      ci: seq<nat>, pos: seq<nat>, k: nat)
    requires |path| > 0 && Deleting(nodes, rows, h, live, path, ci, pos, |path| - 1, e) && k < |path| - 1
    ensures path[k] != path[|path| - 1]
  {
    hide Flat, WF, HeaderOk, GapOk, FullBut, PathTo, LiveIs;
    var last := |path| - 1;
    PathToPrefix(nodes, rows, path, ci, pos, last, k);
    PathToLast(nodes, rows, path, ci, pos, k);
    PathToLast(nodes, rows, path, ci, pos, last);
    LevelsAre(nodes, rows, e);
    RowsApart(nodes, rows, k, last);
    assert path[last] in rows[last];
  }

  lemma RefreshElsewhere(nodes: Img, p: nat, j: nat, k: nat, n: nat)
    requires p in nodes && j < |nodes[p].recs| && Recs(nodes, k) != [] && n != p
    ensures Recs(RefreshImg(nodes, p, j, k), n) == Recs(nodes, n)
  {
  }

  lemma RefreshIs(nodes: Img, p: nat, j: nat, k: nat)
    requires p in nodes && j < |nodes[p].recs| && Recs(nodes, k) != []
    ensures RefreshImg(nodes, p, j, k) ==
      nodes[p := nodes[p].(recs := nodes[p].recs[j := IndexRec(Recs(nodes, k)[0], k)])]
    ensures Recs(RefreshImg(nodes, p, j, k), p) != []
  {
  }

  // ---- two siblings ----

  /** The children at records `sep` and `sep + 1` of `path[k - 1]`, one of them `path[k]`. */
  ghost predicate AtPair(nodes: Img, path: seq<nat>, ci: seq<nat>, k: nat, sep: nat) {
    && 0 < k < |path| && |ci| == |path| - 1 && (sep == ci[k - 1] || sep + 1 == ci[k - 1])
    && sep + 1 < |Recs(nodes, path[k - 1])|
  }

  ghost function LeftKid(nodes: Img, path: seq<nat>, ci: seq<nat>, k: nat, sep: nat): nat
    requires AtPair(nodes, path, ci, k, sep)
  {
    Kid(Recs(nodes, path[k - 1])[sep])
  }

  ghost function RightKid(nodes: Img, path: seq<nat>, ci: seq<nat>, k: nat, sep: nat): nat
    requires AtPair(nodes, path, ci, k, sep)
  {
    Kid(Recs(nodes, path[k - 1])[sep + 1])
  }

  lemma PairReady(nodes: Img, rows: seq<seq<nat>>, h: TreeHeader, e: int, live: set<nat>, path: seq<nat>,
      ci: seq<nat>, pos: seq<nat>, k: nat, sep: nat)
    requires Deleting(nodes, rows, h, live, path, ci, pos, k, e) && AtPair(nodes, path, ci, k, sep)
    ensures var p, l, r := path[k - 1], LeftKid(nodes, path, ci, k, sep), RightKid(nodes, path, ci, k, sep);
      && p in live && l in live && r in live && p in nodes && l in nodes && r in nodes && l != p && r != p && l != r
      && nodes[r].flink != p && nodes[r].flink != l && (nodes[r].flink == 0 || nodes[r].flink in live)
      && sep + 1 < |nodes[p].recs| && path[k] == (if sep == ci[k - 1] then l else r)
  {
    hide Lowered, PathTo, Siblings, LiveIs;
    MergeReady(nodes, rows, h, e, live, path, ci, pos, k, sep, LeftKid(nodes, path, ci, k, sep),
      RightKid(nodes, path, ci, k, sep));
    DeletingLevels(nodes, rows, h, e, live, path, ci, pos, k);
    LiveLinks(nodes, rows, live, RightKid(nodes, path, ci, k, sep));
  }

  lemma DeletingLevels(nodes: Img, rows: seq<seq<nat>>, h: TreeHeader, e: int, live: set<nat>, path: seq<nat>,
      ci: seq<nat>, pos: seq<nat>, k: nat)
    requires Deleting(nodes, rows, h, live, path, ci, pos, k, e)
    ensures Levels(nodes, rows) && LiveIs(rows, live)
  {
    hide Flat, LiveIs, PathTo, HeaderOk, GapOk, FullBut;
    LevelsAre(nodes, rows, e);
  }

  /** A sibling of the node a deletion stands at holds records. */
  lemma SiblingFull(nodes: Img, rows: seq<seq<nat>>, h: TreeHeader, e: int, live: set<nat>, path: seq<nat>,
      ci: seq<nat>, pos: seq<nat>, k: nat, sep: nat)
    requires Deleting(nodes, rows, h, live, path, ci, pos, k, e) && AtPair(nodes, path, ci, k, sep) && sep != ci[k - 1]
    ensures Recs(nodes, LeftKid(nodes, path, ci, k, sep)) != []
  {
    hide Flat, WF, HeaderOk, GapOk, PathTo, Off, LiveIs;
    var l := LeftKid(nodes, path, ci, k, sep);
    StandsAt(nodes, rows, h, e, path, ci, pos, k);
    NextNode(nodes, rows, e, k - 1, pos[k - 1], sep);
    var q := Off(nodes, rows[k - 1], pos[k - 1]) + sep;
    LevelOf(nodes, rows, e, k);
    LevelNode(nodes, rows[k], |rows| - k, q);
  }

  // ---- rotation ----

  /** What a rotation leaves. */
  lemma RotateResult(nodes: Img, rows: seq<seq<nat>>, h: TreeHeader, e: int, live: set<nat>, path: seq<nat>,
      ci: seq<nat>, pos: seq<nat>, k: nat, sep: nat, ls: seq<Rec>, rs: seq<Rec>)
    requires Deleting(nodes, rows, h, live, path, ci, pos, k, e) && RootOk(nodes, rows)
    requires AtPair(nodes, path, ci, k, sep)
    requires var l, r := LeftKid(nodes, path, ci, k, sep), RightKid(nodes, path, ci, k, sep);
      Recs(nodes, l) != [] && ls != [] && rs != [] && ls + rs == Recs(nodes, l) + Recs(nodes, r)
    ensures var p, l, r := path[k - 1], LeftKid(nodes, path, ci, k, sep), RightKid(nodes, path, ci, k, sep);
      && p in nodes && l in nodes && r in nodes && sep + 1 < |nodes[p].recs|
      && var nodes' := RotateImg(nodes, p, l, r, sep, ls, rs);
         && KeptAt(nodes', rows, h, live, e) && RootOk(nodes', rows) && AllFull(nodes', rows[|rows| - 1])
         && Contents(nodes', rows) == Contents(nodes, rows)
         && (Exact(nodes, live, 0) ==> Exact(nodes', live, 0))
  {
    hide Flat, Lowered, PathTo, LiveIs, WF, HeaderOk, RootOk, AllFull, Contents, Exact, RotateImg, Siblings;
    var p, l, r := path[k - 1], LeftKid(nodes, path, ci, k, sep), RightKid(nodes, path, ci, k, sep);
    MergeReady(nodes, rows, h, e, live, path, ci, pos, k, sep, l, r);
    DeletingIsKept(nodes, rows, h, e, live, path, ci, pos, k);
    RotateStands(nodes, rows, h, e, k - 1, pos[k - 1], sep, p, l, r, ls, rs, pos[k]);
    if Exact(nodes, live, 0) {
      PairAt(nodes, rows, h, e, live, path, ci, pos, k, sep);
      ExactRotate(nodes, rows, e, live, k - 1, pos[k - 1], p, l, r, sep, ls, rs);
    }
  }

  /** A rotation in a fixed-size tree: every store fits, and every node but the root holds the minimum again. */
  lemma RotatedFilled(nodes: Img, rows: seq<seq<nat>>, nodeSize: nat, h: TreeHeader, e: int, live: set<nat>,
      path: seq<nat>, ci: seq<nat>, pos: seq<nat>, k: nat, sep: nat, sib: nat, ls: seq<Rec>, rs: seq<Rec>)
    requires Deleting(nodes, rows, h, live, path, ci, pos, k, e) && AtPair(nodes, path, ci, k, sep)
    requires nodeSize >= 512 && Filled(nodes, live, nodeSize, h.root, path[k])
    requires CanRotate(nodes, nodeSize, path[k], sib)
    requires forall n: nat :: n in live ==> n in nodes && Fits(nodeSize, nodes[n].recs)
    requires var l, r := LeftKid(nodes, path, ci, k, sep), RightKid(nodes, path, ci, k, sep);
      && sib == (if sep == ci[k - 1] then r else l) && rs != [] && ls + rs == Recs(nodes, l) + Recs(nodes, r)
      && |ls| == |Recs(nodes, l)| + (if sep == ci[k - 1] then 1 else -1)
    ensures var p, l, r := path[k - 1], LeftKid(nodes, path, ci, k, sep), RightKid(nodes, path, ci, k, sep);
      && p in nodes && l in nodes && r in nodes && sep + 1 < |nodes[p].recs|
      && Fits(nodeSize, ls) && Fits(nodeSize, rs) && Fits(nodeSize, nodes[p].recs[sep + 1 := IndexRec(rs[0], r)])
      && Filled(RotateImg(nodes, p, l, r, sep, ls, rs), live, nodeSize, h.root, 0)
  {
    hide Flat, Lowered, PathTo, LiveIs, RotateImg, Siblings, Cap, MinRecs, Fits, Filled;
    var p, l, r := path[k - 1], LeftKid(nodes, path, ci, k, sep), RightKid(nodes, path, ci, k, sep);
    PairAt(nodes, rows, h, e, live, path, ci, pos, k, sep);
    assert |ls| + |rs| == |nodes[l].recs| + |nodes[r].recs|;
    FilledRotate(nodes, live, nodeSize, h.root, path[k], p, l, r, sep, ls, rs);
  }

  // ---- merging ----

  /** A merge in a fixed-size tree: the parent's store fits, and the parent alone may lack a record. */
  lemma MergedFilled(nodes: Img, rows: seq<seq<nat>>, nodeSize: nat, h: TreeHeader, e: int, live: set<nat>,
      path: seq<nat>, ci: seq<nat>, pos: seq<nat>, k: nat, sep: nat)
    requires Deleting(nodes, rows, h, live, path, ci, pos, k, e) && AtPair(nodes, path, ci, k, sep)
    requires nodeSize >= 512 && Filled(nodes, live, nodeSize, h.root, path[k])
    requires forall n: nat :: n in live ==> n in nodes && Fits(nodeSize, nodes[n].recs)
    ensures var p, l, r := path[k - 1], LeftKid(nodes, path, ci, k, sep), RightKid(nodes, path, ci, k, sep);
      && p in nodes && l in nodes && r in nodes && Recs(nodes, l) + Recs(nodes, r) != []
      && Fits(nodeSize, MergedParent(nodes, p, l, r, sep)) && (nodes[r].flink == 0 || nodes[r].flink in live)
      && Filled(MergeImg(nodes, p, l, r, sep), live - {r}, nodeSize, h.root, p)
      && (k == 1 ==> h.root == p)
  {
    hide Flat, Lowered, PathTo, LiveIs, MergeImg, MergedParent, Siblings, Fits, Filled;
    PairAt(nodes, rows, h, e, live, path, ci, pos, k, sep);
    FilledMerge(nodes, live, nodeSize, h.root, path[k], path[k - 1], LeftKid(nodes, path, ci, k, sep),
      RightKid(nodes, path, ci, k, sep), sep);
  }

  /** What a merge leaves: the deletion stands at the parent, and a leaf is gone if leaves were merged. */
  lemma MergeResult(nodes: Img, rows: seq<seq<nat>>, h: TreeHeader, e: int, live: set<nat>, path: seq<nat>,
      ci: seq<nat>, pos: seq<nat>, k: nat, sep: nat)
    requires Deleting(nodes, rows, h, live, path, ci, pos, k, e) && RootOk(nodes, rows)
    requires AtPair(nodes, path, ci, k, sep)
    requires Recs(nodes, LeftKid(nodes, path, ci, k, sep)) + Recs(nodes, RightKid(nodes, path, ci, k, sep)) != []
    ensures |pos| == |path| && k < |rows| && pos[k - 1] < |rows[k - 1]|
    ensures Off(nodes, rows[k - 1], pos[k - 1]) + sep + 1 < |rows[k]|
    ensures var p, l, r := path[k - 1], LeftKid(nodes, path, ci, k, sep), RightKid(nodes, path, ci, k, sep);
      && p in nodes && l in nodes && r in nodes
      && var nodes', rows', h', live' := MergeImg(nodes, p, l, r, sep),
        WithoutNode(rows, k, Off(nodes, rows[k - 1], pos[k - 1]) + sep + 1), MergeHeader(nodes, h, l, r), live - {r};
         && Deleting(nodes', rows', h', live', path, ci, pos, k - 1, e)
         && Contents(nodes', rows') == Contents(nodes, rows)
         && |rows'| == |rows| && AllFull(nodes', rows'[|rows'| - 1]) && h'.root == h.root
         && LeavesOf(rows') == LeavesOf(rows) - (if k == |rows| - 1 then 1 else 0)
         && (k > 1 ==> RootOk(nodes', rows') && p in nodes' && Recs(nodes', p) != [])
         && (Exact(nodes, live, 0) && Recs(nodes, path[k]) != [] ==> Exact(nodes', live', 0))
  {
    hide Flat, Lowered, PathTo, LiveIs, WF, HeaderOk, RootOk, AllFull, Contents, Exact, MergeImg, Siblings, Off,
      MergedParent;
    var p, l, r := path[k - 1], LeftKid(nodes, path, ci, k, sep), RightKid(nodes, path, ci, k, sep);
    MergeReady(nodes, rows, h, e, live, path, ci, pos, k, sep, l, r);
    MergeStands(nodes, rows, h, e, live, path, ci, pos, k, sep, l, r);
    if Exact(nodes, live, 0) && Recs(nodes, path[k]) != [] {
      if sep != ci[k - 1] {
        SiblingFull(nodes, rows, h, e, live, path, ci, pos, k, sep);
      }
      DeletingIsKept(nodes, rows, h, e, live, path, ci, pos, k);
      PairAt(nodes, rows, h, e, live, path, ci, pos, k, sep);
      ExactMerge(nodes, rows, e, live, k - 1, pos[k - 1], sep, p, l, r);
    }
  }

  // ---- taking the record out ----

  lemma EndIsLive(nodes: Img, rows: seq<seq<nat>>, live: set<nat>, path: seq<nat>, ci: seq<nat>, pos: seq<nat>)
    requires rows != [] && |path| == |rows| && PathTo(nodes, rows, path, ci, pos, |path| - 1) && LiveIs(rows, live)
    ensures path[|path| - 1] in live
  {
    hide Flat, LiveIs;
    var d := |path| - 1;
    PathToLast(nodes, rows, path, ci, pos, d);
    assert path[d] in rows[d];
    RowsLive(rows, live, d, path[d]);
  }

  /** What taking record `x` out of the leaf leaves. */
  lemma RemoveResult(nodes: Img, rows: seq<seq<nat>>, h: TreeHeader, live: set<nat>, path: seq<nat>, ci: seq<nat>,
      pos: seq<nat>, x: nat)
    requires rows != [] && TreeOk(nodes, rows, h) && LiveIs(rows, live)
    requires |path| == |rows| && PathTo(nodes, rows, path, ci, pos, |path| - 1)
    requires path[|path| - 1] in nodes && x < |nodes[path[|path| - 1]].recs|
    ensures var leaf := path[|path| - 1];
      var rs, p := nodes[leaf].recs, nodes[leaf].recs[x].key;
      var nodes' := SetRecs(nodes, leaf, Del(rs, x));
      && Deleting(nodes', rows, h, live, path, ci, pos, |path| - 1, p) && RootOk(nodes', rows)
      && Contents(nodes', rows) == Without(Contents(nodes, rows), p)
      && |Contents(nodes', rows)| == |Contents(nodes, rows)| - 1
      && (AllFull(nodes', rows[|rows| - 1]) <==> |rs| > 1)
      && (|rows| > 1 ==> Recs(nodes', path[|path| - 2]) == Recs(nodes, path[|path| - 2]))
      && (|rows| > 1 ==> (Stranding(nodes, rows, p) <==> |rs| == 1 && |Recs(nodes, path[|path| - 2])| == 1))
      && (|rows| == 1 && |rs| == 1 ==> Contents(nodes', rows) == [] && rows[0] == [leaf])
  {
    hide Flat, Lowered, PathTo, LiveIs, WF, HeaderOk, RootOk, AllFull, Contents, SetRecs, Stranding, Without;
    DeleteReady(nodes, rows, h, path, ci, pos, x);
  }

  /** The record count wraps at 2^32. */
  lemma CountDown(n: nat, m: nat)
    requires n > 0 && m == n % U32
    ensures (if m == 0 then U32 - 1 else m - 1) == (n - 1) % U32
  {
  }

  lemma RemoveKeyed(nodes: Img, rows: seq<seq<nat>>, h: TreeHeader, live: set<nat>, path: seq<nat>, ci: seq<nat>,
      pos: seq<nat>, x: nat)
    requires rows != [] && TreeOk(nodes, rows, h) && LiveIs(rows, live) && Exact(nodes, live, 0)
    requires |path| == |rows| && PathTo(nodes, rows, path, ci, pos, |path| - 1)
    requires path[|path| - 1] in nodes && x < |nodes[path[|path| - 1]].recs|
    ensures var leaf := path[|path| - 1];
      Exact(SetRecs(nodes, leaf, Del(nodes[leaf].recs, x)), live, if x == 0 then leaf else 0)
  {
    hide Flat, WF, PathTo, LiveIs, Exact, AllFull;
    var last := |path| - 1;
    PathToLast(nodes, rows, path, ci, pos, last);
    LevelsAre(nodes, rows, 0);
    ZeroNotLive(nodes, rows, live);
    LevelOf(nodes, rows, 0, last);
    LevelNode(nodes, rows[last], 1, pos[last]);
    assert path[last] in rows[last];
    RowsLive(rows, live, last, path[last]);
    ExactRemove(nodes, live, path[last], x);
  }

  lemma RemoveFilled(nodes: Img, rows: seq<seq<nat>>, h: TreeHeader, live: set<nat>, nodeSize: nat, path: seq<nat>,
      ci: seq<nat>, pos: seq<nat>, x: nat)
    requires nodeSize >= 512 && Filled(nodes, live, nodeSize, h.root, 0) && LiveIs(rows, live)
    requires rows != [] && TreeOk(nodes, rows, h)
    requires |path| == |rows| && PathTo(nodes, rows, path, ci, pos, |path| - 1)
    requires path[|path| - 1] in nodes && x < |nodes[path[|path| - 1]].recs|
    requires forall n: nat :: n in live ==> n in nodes && Fits(nodeSize, nodes[n].recs)
    ensures var leaf := path[|path| - 1];
      var left := Del(nodes[leaf].recs, x);
      Fits(nodeSize, left) && Filled(SetRecs(nodes, leaf, left), live, nodeSize, h.root, leaf) &&
        (|path| > 1 ==> left != [])
  {
    hide WF, Flat, PathTo, Sized, Cap, HeaderOk, Levels, LiveIs;
    CapBounds(nodeSize, 1);
    var leaf := path[|path| - 1];
    LevelsAre(nodes, rows, 0);
    NodeOnPath(nodes, rows, h, live, nodeSize, h.root, 0, path, ci, pos, |path| - 1);
    SizedParts(nodes[leaf].recs, nodes[leaf].height, x);
    FitsIsCap(nodeSize, nodes[leaf].recs, nodes[leaf].height);
    FitsIsCap(nodeSize, Del(nodes[leaf].recs, x), nodes[leaf].height);
    assert FilledNode(nodes, nodeSize, leaf, h.root, 0);
    FilledRemove(nodes, live, nodeSize, h.root, leaf, x);
  }

  /** The leaf of a deletion holds nothing else only if some leaf does. */
  lemma AloneHere(nodes: Img, rows: seq<seq<nat>>, path: seq<nat>, ci: seq<nat>, pos: seq<nat>, p: int, x: nat)
    requires |path| == |rows| > 0 && PathTo(nodes, rows, path, ci, pos, |path| - 1)
    requires x < |Recs(nodes, path[|path| - 1])| && Recs(nodes, path[|path| - 1])[x].key == p
    ensures |Recs(nodes, path[|path| - 1])| == 1 ==> SomeAlone(nodes, rows[|rows| - 1], p)
  {
    hide PathTo;
    PathToLast(nodes, rows, path, ci, pos, |path| - 1);
    assert |Recs(nodes, path[|path| - 1])| == 1 ==> OnlyKey(Recs(nodes, rows[|rows| - 1][pos[|path| - 1]]), p);
  }

  /** A leaf of a fixed-size tree of several levels holds two records or more. */
  lemma LeafLong(nodes: Img, rows: seq<seq<nat>>, live: set<nat>, nodeSize: nat, h: TreeHeader, i: nat)
    requires nodeSize >= 512 && |rows| > 1 && WholeFull(nodes, rows, 0) && HeaderOk(rows, h) && LiveIs(rows, live)
    requires Filled(nodes, live, nodeSize, h.root, 0) && i < |rows[|rows| - 1]|
    ensures |Recs(nodes, rows[|rows| - 1][i])| >= 2
  {
    hide Flat, WF, Sized, Cap, LiveIs, HeaderOk, AllFull;
    var d := |rows| - 1;
    var n := rows[d][i];
    assert n in rows[d];
    RowsLive(rows, live, d, n);
    RootAbove(nodes, rows, h, 0, d, i);
    assert FilledNode(nodes, nodeSize, n, h.root, 0);
    CapBounds(nodeSize, nodes[n].height);
  }

  // ---- what the rebalanced tree is ----

  lemma RebalancedTree(nodes: Img, rows: seq<seq<nat>>, h: TreeHeader, live: set<nat>, e: int)
    requires KeptAt(nodes, rows, h, live, e) && RootOk(nodes, rows)
    ensures rows != [] && LiveIs(rows, live) && (TreeOk(nodes, rows, h) <==> AllFull(nodes, rows[|rows| - 1]))
  {
    hide Flat, WF, LiveIs, HeaderOk, RootOk, AllFull, TreeOk;
    RebalancedOk(nodes, rows, h, e);
  }

  /** A deletion in a tree that is one leaf. */
  lemma SettledRoot(nodes: Img, rows: seq<seq<nat>>, h: TreeHeader, e: int, live: set<nat>, path: seq<nat>,
      ci: seq<nat>, pos: seq<nat>)
    requires |rows| == 1 && Deleting(nodes, rows, h, live, path, ci, pos, 0, e) && RootOk(nodes, rows)
    ensures path != [] && path[0] == h.root && LiveIs(rows, live) && LeavesOf(rows) == 1 && Exact(nodes, live, 0)
    ensures TreeOk(nodes, rows, h) <==> AllFull(nodes, rows[0])
  {
    hide Flat, Lowered, PathTo, LiveIs, WF, HeaderOk, RootOk, AllFull, TreeOk;
    DeletingIsKept(nodes, rows, h, e, live, path, ci, pos, 0);
    RebalancedTree(nodes, rows, h, live, e);
    SingleRoot(nodes, rows, e);
    forall m: nat | m in live ensures m in nodes && nodes[m].height <= 1 {
      var d, i := RowOf(nodes, rows, e, live, m);
    }
    ExactLeaf(nodes, live);
  }

  // ---- when one leaf is left ----

  /** Of two nodes of a row of index nodes over two children, each names one. */
  lemma OneEach(nodes: Img, s: seq<nat>, i: nat)
    requires i < |s| && |s| >= 2 && |Flat(nodes, s)| == 2
    requires forall j :: 0 <= j < |s| ==> |Recs(nodes, s[j])| >= 1
    ensures |Recs(nodes, s[i])| == 1
  {
    hide Flat;
    FlatAt(nodes, s, i);
    FlatAtLeastEach(nodes, s[..i], 1);
    FlatAtLeastEach(nodes, s[i + 1..], 1);
  }

  /** Over two leaves, a merge happens under a two-level root when both leaves' records fit one node. */
  lemma MergesTwo(nodes: Img, rows: seq<seq<nat>>, nodeSize: nat, h: TreeHeader, e: int, live: set<nat>,
      path: seq<nat>, ci: seq<nat>, pos: seq<nat>)
    requires |path| == |rows| > 1 && Deleting(nodes, rows, h, live, path, ci, pos, |path| - 1, e) && RootOk(nodes, rows)
    requires |rows[|rows| - 1]| == 2
    ensures |ci| == |path| - 1
    ensures var k := |path| - 1; var n := path[k];
      MergesAt(nodes, nodeSize, path[k - 1], ci[k - 1], n) <==>
        |rows| == 2 && UsedBytes(Recs(nodes, n)) < nodeSize / 2 && Fits(nodeSize, Contents(nodes, rows))
  {
    hide Flat, WF, Lowered, PathTo, MergesAt, Fits, UsedBytes, LiveIs, RootOk, Contents;
    StandsAt(nodes, rows, h, e, path, ci, pos, |path| - 1);
    if |rows| == 2 {
      MergesUnderRoot(nodes, rows, nodeSize, h, e, path, ci, pos);
    } else {
      LoneChild(nodes, rows, h, e, path, ci, pos);
      NoMerge(nodes, nodeSize, path[|path| - 2], ci[|path| - 2], path[|path| - 1]);
    }
  }

  lemma MergesUnderRoot(nodes: Img, rows: seq<seq<nat>>, nodeSize: nat, h: TreeHeader, e: int, path: seq<nat>,
      ci: seq<nat>, pos: seq<nat>)
    requires |path| == |rows| == 2 && PathTo(nodes, rows, path, ci, pos, 1) && Lowered(nodes, rows, h, e, 1, pos[1])
    requires |rows[1]| == 2
    ensures |ci| == 1
    ensures MergesAt(nodes, nodeSize, path[0], ci[0], path[1]) <==>
      UsedBytes(Recs(nodes, path[1])) < nodeSize / 2 && Fits(nodeSize, Contents(nodes, rows))
  {
    hide Flat, WF, HeaderOk, GapOk, FullBut, PathTo, Off, Fits, UsedBytes, Contents;
    StandsAt(nodes, rows, h, e, path, ci, pos, 1);
    TwoUnderRoot(nodes, rows, e, path[0], path[1], ci[0]) by { PathToLast(nodes, rows, path, ci, pos, 0); }
  }

  /** Two leaves deeper down have a parent each. */
  lemma LoneChild(nodes: Img, rows: seq<seq<nat>>, h: TreeHeader, e: int, path: seq<nat>, ci: seq<nat>, pos: seq<nat>)
    requires |path| == |rows| > 2 && PathTo(nodes, rows, path, ci, pos, |path| - 1)
    requires Lowered(nodes, rows, h, e, |path| - 1, pos[|path| - 1]) && RootOk(nodes, rows)
    requires |rows[|rows| - 1]| == 2
    ensures |Recs(nodes, path[|path| - 2])| == 1
  {
    hide Flat, WF, HeaderOk, GapOk, FullBut, PathTo, Off, RootOk;
    var k := |path| - 1;
    StandsAt(nodes, rows, h, e, path, ci, pos, k);
    RowAsLong(nodes, rows, e, k - 1);
    RowsWide(nodes, rows, e, k - 1);
    LevelOf(nodes, rows, e, k - 1);
    var up := rows[k - 1];
    forall j | 0 <= j < |up| ensures |Recs(nodes, up[j])| >= 1 {
      LevelNode(nodes, up, |rows| - (k - 1), j);
    }
    OneEach(nodes, up, pos[k - 1]);
  }

  lemma NoMerge(nodes: Img, nodeSize: nat, p: nat, x: nat, n: nat)
    requires |Recs(nodes, p)| == 1
    ensures !MergesAt(nodes, nodeSize, p, x, n)
  {
    hide Fits, UsedBytes;
  }

  /** A root over two leaves names both, in order, and its tree holds their records. */
  lemma TwoUnderRoot(nodes: Img, rows: seq<seq<nat>>, e: int, root: nat, n: nat, x: nat)
    requires |rows| == 2 && Whole(nodes, rows, e) && |rows[1]| == 2 && rows[0] != [] && root == rows[0][0]
    requires x < |Recs(nodes, root)| && n == Kid(Recs(nodes, root)[x])
    ensures |Recs(nodes, root)| == 2
    ensures Contents(nodes, rows) == Recs(nodes, Kid(Recs(nodes, root)[0])) + Recs(nodes, Kid(Recs(nodes, root)[1]))
  {
    hide Flat, WF, Off;
    SingleRoot(nodes, rows, e);
    RowAsLong(nodes, rows, e, 0);
    assert rows[0] == [root];
    FlatOne(nodes, root);
    OffStart(nodes, rows[0]);
    NextNode(nodes, rows, e, 0, 0, 0);
    NextNode(nodes, rows, e, 0, 0, 1);
    FlatPair(nodes, rows[1]);
  }

  lemma FlatPair(nodes: Img, s: seq<nat>)
    requires |s| == 2
    ensures Flat(nodes, s) == Recs(nodes, s[0]) + Recs(nodes, s[1])
  {
    hide Flat;
    assert s == [s[0], s[1]];
    FlatTwo(nodes, s[0], s[1]);
  }

  lemma OffStart(nodes: Img, s: seq<nat>)
    ensures Off(nodes, s, 0) == 0
  {
    FlatEnds(nodes, s);
  }

  /** Whether the deletion of `p` leaves one leaf can be told from the tree it starts from. */
  lemma FoldsHere(was: Img, nodes: Img, rows: seq<seq<nat>>, nodeSize: nat, h: TreeHeader, live: set<nat>,
      path: seq<nat>, ci: seq<nat>, pos: seq<nat>, p: int, x: nat)
    requires |path| == |rows| > 1 && WholeFull(was, rows, 0) && PathTo(was, rows, path, ci, pos, |path| - 1)
    requires x < |Recs(was, path[|path| - 1])| && Recs(was, path[|path| - 1])[x].key == p
    requires Deleting(nodes, rows, h, live, path, ci, pos, |path| - 1, p) && RootOk(nodes, rows)
    requires Contents(nodes, rows) == Without(Contents(was, rows), p)
    requires Recs(nodes, path[|path| - 1]) == Del(Recs(was, path[|path| - 1]), x)
    ensures |ci| == |path| - 1 && LeavesOf(rows) >= 2
    ensures FoldsWithout(was, rows, nodeSize, p) <==>
      LeavesOf(rows) == 2 && MergesAt(nodes, nodeSize, path[|path| - 2], ci[|path| - 2], path[|path| - 1])
  {
    hide Flat, WF, PathTo, Off, Fits, UsedBytes, Lowered, AllFull, MergesAt, Without, HasKey, Contents, RootOk;
    var last := |path| - 1;
    DeletingIsKept(nodes, rows, h, p, live, path, ci, pos, last);
    RowsWide(nodes, rows, p, last);
    PathToLast(was, rows, path, ci, pos, last);
    ShortHere(was, rows, nodeSize, pos[last], p, x);
    if |rows[last]| == 2 {
      MergesTwo(nodes, rows, nodeSize, h, p, live, path, ci, pos);
    }
  }

  /** Leaf `i` holds `p`, so no other does. */
  lemma ShortHere(nodes: Img, rows: seq<seq<nat>>, nodeSize: nat, i: nat, p: int, x: nat)
    requires rows != [] && WholeFull(nodes, rows, 0) && i < |rows[|rows| - 1]|
    requires x < |Recs(nodes, rows[|rows| - 1][i])| && Recs(nodes, rows[|rows| - 1][i])[x].key == p
    ensures var s := rows[|rows| - 1];
      && (ShortWithout(Recs(nodes, s[i]), nodeSize, p) <==> UsedBytes(Del(Recs(nodes, s[i]), x)) < nodeSize / 2)
      && forall k :: 0 <= k < |s| && k != i ==> !ShortWithout(Recs(nodes, s[k]), nodeSize, p)
  {
    hide Flat, WF, UsedBytes, AllFull;
    var s := rows[|rows| - 1];
    LeafAsc(nodes, rows, i);
    WithoutAt(Recs(nodes, s[i]), x);
    forall k | 0 <= k < |s| && k != i ensures !HasKey(Recs(nodes, s[k]), p) {
      var rs := Recs(nodes, s[k]);
      forall y | 0 <= y < |rs| ensures rs[y].key != p {
        if rs[y].key == p {
          SameLeaf(nodes, rows, 0, i, x, k, y);
        }
      }
    }
  }

  lemma NothingFolds(nodes: Img, rows: seq<seq<nat>>, nodeSize: nat, p: int)
    requires rows != [] && !HasKey(Contents(nodes, rows), p)
    ensures !FoldsWithout(nodes, rows, nodeSize, p)
  {
    hide Flat, UsedBytes;
    if |rows| == 2 && |rows[1]| == 2 {
      forall i | 0 <= i < 2 ensures !HasKey(Recs(nodes, rows[1][i]), p) {
        var rs := Recs(nodes, rows[1][i]);
        forall y | 0 <= y < |rs| ensures rs[y].key != p {
          LeafRecord(nodes, rows[1], i, y);
        }
      }
    }
  }
}
