/** Exact index keys: every index record carries the first key of the child it names. An insertion that
    does not fall back, and a deletion that empties no leaf, keep them exact. */
module ExactKeys {
  import opened Nodes
  import opened Rows
  import opened Edits
  import opened Steps
  import opened Search
  import opened LeafEdits
  import opened Trees
  import opened Deletes
  import opened FixedSizes

  /** The record names a live node and carries its first key; a record naming `loose` need not. */
  ghost predicate ExactRec(nodes: Img, live: set<nat>, r: Rec, loose: nat) {
    && Kid(r) in live
    && (Kid(r) == loose || (Recs(nodes, Kid(r)) != [] && Recs(nodes, Kid(r))[0].key == r.key))
  }

  ghost predicate ExactNode(nodes: Img, live: set<nat>, m: nat, loose: nat) {
    forall j :: 0 <= j < |Recs(nodes, m)| ==> ExactRec(nodes, live, Recs(nodes, m)[j], loose)
  }

  predicate IndexNode(nodes: Img, m: nat) {
    m in nodes && nodes[m].height > 1
  }

  ghost predicate Exact(nodes: Img, live: set<nat>, loose: nat) {
    forall m: nat :: m in live && IndexNode(nodes, m) ==> ExactNode(nodes, live, m, loose)
  }

  /** `k` keeps its first key. */
  ghost predicate SameHead(nodes: Img, nodes': Img, k: nat) {
    Recs(nodes, k) != [] ==> Recs(nodes', k) != [] && Recs(nodes', k)[0].key == Recs(nodes, k)[0].key
  }

  /** Exact again after the nodes of `changed` changed: `gone` is named by none of the others. */
  lemma ExactStep(nodes: Img, nodes': Img, live: set<nat>, live': set<nat>, loose: nat, loose': nat,
      changed: set<nat>, gone: nat)
    requires Exact(nodes, live, loose) && live' <= live + changed && live - {gone} <= live'
    requires forall m: nat :: m in live' && m !in changed ==>
      (IndexNode(nodes', m) ==> IndexNode(nodes, m)) && Recs(nodes', m) == Recs(nodes, m)
    requires forall k: nat :: k in live && k != gone && k != loose' ==> SameHead(nodes, nodes', k)
    requires loose in live ==> loose == loose' || loose == gone
    requires forall m: nat, j :: m in live && m !in changed && IndexNode(nodes, m) && 0 <= j < |Recs(nodes, m)| ==>
      Kid(Recs(nodes, m)[j]) != gone
    requires forall m: nat :: m in changed && m in live' && IndexNode(nodes', m) ==> ExactNode(nodes', live', m, loose')
    ensures Exact(nodes', live', loose')
  {
    forall m: nat | m in live' && IndexNode(nodes', m) ensures ExactNode(nodes', live', m, loose') {
      if m !in changed {
        var rs := Recs(nodes, m);
        forall j | 0 <= j < |rs| ensures ExactRec(nodes', live', rs[j], loose') {
          assert ExactNode(nodes, live, m, loose);
          assert ExactRec(nodes, live, rs[j], loose);
          assert Kid(rs[j]) != gone;
          assert Kid(rs[j]) != loose' ==> SameHead(nodes, nodes', Kid(rs[j]));
        }
      }
    }
  }

  // ---- a child is named once ----

  lemma RowOf(nodes: Img, rows: seq<seq<nat>>, e: int, live: set<nat>, m: nat) returns (d: nat, i: nat)
    requires Whole(nodes, rows, e) && LiveIs(rows, live) && m in live
    ensures d < |rows| && i < |rows[d]| && rows[d][i] == m
    ensures m in nodes && nodes[m].height == |rows| - d
  {
    hide Flat, WF;
    assert InRows(rows, m);
    d :| 0 <= d < |rows| && m in rows[d];
    i :| 0 <= i < |rows[d]| && rows[d][i] == m;
    LevelOf(nodes, rows, e, d);
    assert NodeAt(nodes, rows[d][i], |rows| - d);
  }

  /** Two index records that name the same child are the same record. */
  lemma NamedOnce(nodes: Img, rows: seq<seq<nat>>, e: int, live: set<nat>, d: nat, i: nat, j: nat, m: nat, x: nat)
    requires Whole(nodes, rows, e) && LiveIs(rows, live) && d < |rows| - 1 && i < |rows[d]|
    requires j < |Recs(nodes, rows[d][i])|
    requires m in live && IndexNode(nodes, m) && x < |Recs(nodes, m)|
    requires Kid(Recs(nodes, m)[x]) == Kid(Recs(nodes, rows[d][i])[j])
    ensures m == rows[d][i] && x == j
  {
    hide Flat, WF, Off, Level;
    var d2, i2 := RowOf(nodes, rows, e, live, m);
    NextNode(nodes, rows, e, d, i, j);
    NextNode(nodes, rows, e, d2, i2, x);
    LevelsAre(nodes, rows, e);
    var kid := Kid(Recs(nodes, m)[x]);
    assert kid in rows[d + 1] && kid in rows[d2 + 1];
    if d2 != d {
      RowsApart(nodes, rows, d + 1, d2 + 1);
      assert false;
    }
    LevelOf(nodes, rows, e, d + 1);
    LevelNoDup(nodes, rows[d + 1], |rows| - (d + 1));
    SameNode(nodes, rows[d], i, j, i2, x);
  }

  /** No index record names the root. */
  lemma RootNotNamed(nodes: Img, rows: seq<seq<nat>>, e: int, live: set<nat>, h: TreeHeader, m: nat, x: nat)
    requires Whole(nodes, rows, e) && LiveIs(rows, live) && HeaderOk(rows, h)
    requires m in live && IndexNode(nodes, m) && x < |Recs(nodes, m)|
    ensures Kid(Recs(nodes, m)[x]) != h.root && Kid(Recs(nodes, m)[x]) in live
  {
    hide Flat, WF, Off, Level;
    var d, i := RowOf(nodes, rows, e, live, m);
    NextNode(nodes, rows, e, d, i, x);
    var kid := Kid(Recs(nodes, m)[x]);
    assert kid in rows[d + 1];
    RowsLive(rows, live, d + 1, kid);
    RootAbove(nodes, rows, h, e, d + 1, Off(nodes, rows[d], i) + x);
  }

  // ---- insertion ----

  /** New records for node `n` that keep its first key. */
  lemma ExactSet(nodes: Img, live: set<nat>, n: nat, rs: seq<Rec>)
    requires Exact(nodes, live, 0) && 0 !in live && n in live && n in nodes
    requires rs != [] && (nodes[n].recs != [] ==> rs[0].key == nodes[n].recs[0].key)
    requires nodes[n].height > 1 ==> forall j :: 0 <= j < |rs| ==> ExactRec(nodes, live, rs[j], 0) && Kid(rs[j]) != n
    ensures Exact(SetRecs(nodes, n, rs), live, 0)
  {
    var nodes' := SetRecs(nodes, n, rs);
    forall j | 0 <= j < |rs| && nodes[n].height > 1 ensures ExactRec(nodes', live, rs[j], 0) {
      assert ExactRec(nodes, live, rs[j], 0);
    }
    ExactStep(nodes, nodes', live, live, 0, 0, {n}, 0);
  }

  /** A tree that is one leaf has no index records. */
  lemma ExactLeaf(nodes: Img, live: set<nat>)
    requires forall m: nat :: m in live ==> m in nodes && nodes[m].height <= 1
    ensures Exact(nodes, live, 0)
  {
  }

  /** Node `n` takes `rs`, keeping its first key, and the upper half goes to `child`. */
  lemma ExactSplit(nodes: Img, base: Img, live: set<nat>, n: nat, rs: seq<Rec>, child: nat)
    requires n in live && n in nodes && |rs| >= 2 && 0 !in live && Exact(SetRecs(nodes, n, rs), live, 0)
    requires Carried(nodes, base, live)
    requires child != 0 && child !in live
    ensures n in base
    ensures Exact(SplitImg(SetRecs(base, n, rs), n, child, |rs| / 2), live + {child}, 0)
  {
    var was := SetRecs(nodes, n, rs);
    var nodes' := SplitImg(SetRecs(base, n, rs), n, child, |rs| / 2);
    forall k: nat | k in live ensures SameHead(was, nodes', k) {
    }
    forall m: nat | m in {n, child} && IndexNode(nodes', m) ensures ExactNode(nodes', live + {child}, m, 0) {
      assert ExactNode(was, live, n, 0);
      var part := Recs(nodes', m);
      forall j | 0 <= j < |part| ensures ExactRec(nodes', live + {child}, part[j], 0) {
        assert ExactRec(was, live, rs[if m == n then j else |rs| / 2 + j], 0);
      }
    }
    ExactStep(was, nodes', live, live + {child}, 0, 0, {n, child}, 0);
  }

  /** The same for the node's records changed and the split that may follow. */
  lemma ExactAfter(nodes: Img, base: Img, nodes': Img, live: set<nat>, live': set<nat>, h: TreeHeader,
      h': TreeHeader, n: nat, rs: seq<Rec>, child: nat)
    requires 0 !in live && Changed(nodes, base, nodes', live, live', h, h', n, rs, child)
    requires Exact(SetRecs(nodes, n, rs), live, 0)
    ensures Exact(nodes', live', 0)
  {
    hide Exact, SplitImg, SetRecs, Carried;
    if child != 0 {
      ExactSplit(nodes, base, live, n, rs, child);
    }
  }

  lemma ExactRoot(nodes: Img, base: Img, live: set<nat>, n: nat, root: Node)
    requires Exact(nodes, live, 0) && 0 !in live && n !in live && n != 0
    requires Carried(nodes, base, live)
    requires forall j :: 0 <= j < |root.recs| ==> ExactRec(nodes, live, root.recs[j], 0)
    ensures Exact(base[n := root], live + {n}, 0)
  {
    var nodes' := base[n := root];
    forall j | 0 <= j < |root.recs| ensures ExactRec(nodes', live + {n}, root.recs[j], 0) {
      assert ExactRec(nodes, live, root.recs[j], 0);
    }
    ExactStep(nodes, nodes', live, live + {n}, 0, 0, {n}, 0);
  }

  // ---- deletion ----

  lemma ExactRemove(nodes: Img, live: set<nat>, leaf: nat, x: nat)
    requires Exact(nodes, live, 0) && 0 !in live && leaf in live && leaf in nodes && nodes[leaf].height <= 1
    requires x < |nodes[leaf].recs|
    ensures Exact(SetRecs(nodes, leaf, Del(nodes[leaf].recs, x)), live, if x == 0 then leaf else 0)
  {
    ExactStep(nodes, SetRecs(nodes, leaf, Del(nodes[leaf].recs, x)), live, live, 0, if x == 0 then leaf else 0,
      {leaf}, 0);
  }

  /** The refreshed record is exact again; if it is its node's first, the node's own first key changed. */
  lemma ExactRefresh(nodes: Img, rows: seq<seq<nat>>, e: int, live: set<nat>, d: nat, i: nat, j: nat, child: nat)
    requires Whole(nodes, rows, e) && LiveIs(rows, live) && d < |rows| - 1 && i < |rows[d]|
    requires j < |Recs(nodes, rows[d][i])|
    requires child == Kid(Recs(nodes, rows[d][i])[j]) && Recs(nodes, child) != [] && rows[d][i] in nodes
    requires child != rows[d][i]
    requires Exact(nodes, live, child) && child in live && 0 !in live
    ensures Exact(RefreshImg(nodes, rows[d][i], j, child), live, if j == 0 then rows[d][i] else 0)
  {
    hide Flat, WF, LiveIs;
    var p := rows[d][i];
    var nodes' := RefreshImg(nodes, p, j, child);
    var loose := if j == 0 then p else 0;
    var rs, rs' := Recs(nodes, p), Recs(nodes', p);
    forall m: nat, x | m in live && m != p && IndexNode(nodes, m) && 0 <= x < |Recs(nodes, m)|
      ensures Kid(Recs(nodes, m)[x]) != child
    {
      NotNamedElsewhere(nodes, rows, e, live, d, i, j, m, x);
    }
    forall x | 0 <= x < |rs| && IndexNode(nodes, p) ensures ExactRec(nodes', live, rs'[x], loose) {
      assert rs'[x] == if x == j then IndexRec(Recs(nodes, child)[0], child) else rs[x];
      if x != j {
        assert p in rows[d];
        RowsLive(rows, live, d, p) by { assert LiveIs(rows, live); }
        assert ExactNode(nodes, live, p, child);
        assert ExactRec(nodes, live, rs[x], child);
        NotNamedElsewhere(nodes, rows, e, live, d, i, j, p, x);
      }
    }
    ExactStep(nodes, nodes', live, live, child, loose, {p}, child);
  }

  lemma NotNamedElsewhere(nodes: Img, rows: seq<seq<nat>>, e: int, live: set<nat>, d: nat, i: nat, j: nat, m: nat,
      x: nat)
    requires Whole(nodes, rows, e) && LiveIs(rows, live) && d < |rows| - 1 && i < |rows[d]|
    requires j < |Recs(nodes, rows[d][i])|
    requires m in live && IndexNode(nodes, m) && x < |Recs(nodes, m)| && (m != rows[d][i] || x != j)
    ensures Kid(Recs(nodes, m)[x]) != Kid(Recs(nodes, rows[d][i])[j])
  {
    hide Flat, WF, LiveIs;
    if Kid(Recs(nodes, m)[x]) == Kid(Recs(nodes, rows[d][i])[j]) {
      NamedOnce(nodes, rows, e, live, d, i, j, m, x);
    }
  }

  /** No record names the root, so a change of its first key leaves every key exact. */
  lemma ExactAtRoot(nodes: Img, rows: seq<seq<nat>>, e: int, live: set<nat>, h: TreeHeader)
    requires Whole(nodes, rows, e) && LiveIs(rows, live) && HeaderOk(rows, h)
    requires Exact(nodes, live, h.root)
    ensures Exact(nodes, live, 0)
  {
    hide Flat, WF, LiveIs, HeaderOk;
    forall m: nat | m in live && IndexNode(nodes, m) ensures ExactNode(nodes, live, m, 0) {
      assert ExactNode(nodes, live, m, h.root);
      forall x | 0 <= x < |Recs(nodes, m)| ensures ExactRec(nodes, live, Recs(nodes, m)[x], 0) {
        assert ExactRec(nodes, live, Recs(nodes, m)[x], h.root);
        RootNotNamed(nodes, rows, e, live, h, m, x);
      }
    }
  }

  lemma ExactShrink(nodes: Img, nodes': Img, rows: seq<seq<nat>>, e: int, live: set<nat>, h: TreeHeader)
    requires Whole(nodes, rows, e) && LiveIs(rows, live) && HeaderOk(rows, h)
    requires Exact(nodes, live, 0) && nodes' == nodes[h.root := Erased]
    ensures Exact(nodes', live - {h.root}, 0)
  {
    hide Flat, WF, LiveIs, HeaderOk;
    forall m: nat | m in live - {h.root} && IndexNode(nodes', m) ensures ExactNode(nodes', live - {h.root}, m, 0) {
      assert ExactNode(nodes, live, m, 0);
      forall x | 0 <= x < |Recs(nodes', m)| ensures ExactRec(nodes', live - {h.root}, Recs(nodes', m)[x], 0) {
        assert ExactRec(nodes, live, Recs(nodes, m)[x], 0);
        RootNotNamed(nodes, rows, e, live, h, m, x);
      }
    }
  }

  /** A merge of two nonempty siblings; `q` is the place of the left one in its row. */
  lemma ExactMerge(nodes: Img, rows: seq<seq<nat>>, e: int, live: set<nat>, d: nat, i: nat, j: nat, p: nat, l: nat,
      r: nat)
    requires Whole(nodes, rows, e) && LiveIs(rows, live) && Siblings(nodes, rows, d, i, j, p, l, r)
    requires l == Kid(Recs(nodes, p)[j]) && r == Kid(Recs(nodes, p)[j + 1]) && p in live && l in live && r in live
    requires 0 !in live
    requires p != l && p != r && l != r && nodes[p].height > 1 && nodes[l].height == nodes[r].height
    requires Recs(nodes, l) != [] && Exact(nodes, live, 0)
    ensures Exact(MergeImg(nodes, p, l, r, j), live - {r}, 0)
  {
    hide Flat, WF, LiveIs, Off;
    var nodes' := MergeImg(nodes, p, l, r, j);
    var live' := live - {r};
    forall m: nat, x | m in live && IndexNode(nodes, m) && 0 <= x < |Recs(nodes, m)| && (m != p || x != j + 1)
      ensures Kid(Recs(nodes, m)[x]) != r
    {
      NotNamedElsewhere(nodes, rows, e, live, d, i, j + 1, m, x);
    }
    assert ExactNode(nodes, live, p, 0);
    MergedHeads(nodes, live, p, l, r, j);
    forall m: nat | m in {p, l} && IndexNode(nodes', m) ensures ExactNode(nodes', live', m, 0) {
      ExactMerged(nodes, live, p, l, r, j, m);
    }
    hide MergeImg;
    ExactStep(nodes, nodes', live, live', 0, 0, {p, l, r}, r);
  }

  lemma MergedHeads(nodes: Img, live: set<nat>, p: nat, l: nat, r: nat, j: nat)
    requires p in nodes && l in nodes && r in nodes && p != l && p != r && l != r && p in live
    requires j + 1 < |nodes[p].recs| && l == Kid(nodes[p].recs[j]) && Recs(nodes, l) != []
    requires ExactNode(nodes, live, p, 0) && 0 !in live
    ensures forall k: nat :: k in live && k != r ==> SameHead(nodes, MergeImg(nodes, p, l, r, j), k)
    ensures forall m: nat :: m in nodes && m !in {p, l, r} ==>
      Recs(MergeImg(nodes, p, l, r, j), m) == Recs(nodes, m) && m in MergeImg(nodes, p, l, r, j) &&
        MergeImg(nodes, p, l, r, j)[m].height == nodes[m].height
  {
    assert ExactRec(nodes, live, Recs(nodes, p)[j], 0);
  }

  /** The records of the parent and of the merged node are exact. */
  lemma ExactMerged(nodes: Img, live: set<nat>, p: nat, l: nat, r: nat, j: nat, m: nat)
    requires p in nodes && l in nodes && r in nodes && p != l && p != r && l != r && p in live && l in live && r in live
    requires 0 !in live
    requires j + 1 < |nodes[p].recs| && l == Kid(nodes[p].recs[j]) && r == Kid(nodes[p].recs[j + 1])
    requires Recs(nodes, l) != []
    requires Exact(nodes, live, 0) && (m == p || m == l) && nodes[p].height > 1 && nodes[l].height == nodes[r].height
    requires forall m: nat, x ::
      m in live && IndexNode(nodes, m) && 0 <= x < |Recs(nodes, m)| && (m != p || x != j + 1) ==>
        Kid(Recs(nodes, m)[x]) != r
    requires IndexNode(MergeImg(nodes, p, l, r, j), m)
    ensures ExactNode(MergeImg(nodes, p, l, r, j), live - {r}, m, 0)
  {
    assert ExactNode(nodes, live, p, 0);
    if m == p {
      hide Exact, ExactNode;
      MergedIntoParent(nodes, live, p, l, r, j);
    } else {
      assert IndexNode(nodes, l) && IndexNode(nodes, r);
      assert ExactNode(nodes, live, l, 0) && ExactNode(nodes, live, r, 0);
      hide Exact, ExactNode;
      MergedIntoLeft(nodes, live, p, l, r, j);
    }
  }

  lemma MergedIntoParent(nodes: Img, live: set<nat>, p: nat, l: nat, r: nat, j: nat)
    requires p in nodes && l in nodes && r in nodes && p != l && p != r && l != r && p in live && 0 !in live
    requires j + 1 < |nodes[p].recs| && l == Kid(nodes[p].recs[j]) && Recs(nodes, l) != []
    requires ExactNode(nodes, live, p, 0) && IndexNode(nodes, p)
    requires forall x :: 0 <= x < |nodes[p].recs| && x != j + 1 ==> Kid(nodes[p].recs[x]) != r
    ensures ExactNode(MergeImg(nodes, p, l, r, j), live - {r}, p, 0)
  {
    var nodes' := MergeImg(nodes, p, l, r, j);
    MergedHeads(nodes, live, p, l, r, j);
    var prs, rs := nodes[p].recs, MergedParent(nodes, p, l, r, j);
    forall x | 0 <= x < |rs| ensures ExactRec(nodes', live - {r}, rs[x], 0) {
      var y := if x <= j then x else x + 1;
      assert ExactRec(nodes, live, prs[y], 0);
      assert Kid(prs[y]) != r;
      assert rs[x] == if x == j then IndexRec((Recs(nodes, l) + Recs(nodes, r))[0], l) else prs[y];
      assert SameHead(nodes, nodes', Kid(prs[y]));
    }
  }

  lemma MergedIntoLeft(nodes: Img, live: set<nat>, p: nat, l: nat, r: nat, j: nat)
    requires p in nodes && l in nodes && r in nodes && p != l && p != r && l != r && p in live && 0 !in live
    requires j + 1 < |nodes[p].recs| && l == Kid(nodes[p].recs[j]) && Recs(nodes, l) != []
    requires ExactNode(nodes, live, p, 0) && ExactNode(nodes, live, l, 0) && ExactNode(nodes, live, r, 0)
    requires IndexNode(nodes, l) && IndexNode(nodes, r)
    requires forall x :: 0 <= x < |Recs(nodes, l)| ==> Kid(Recs(nodes, l)[x]) != r
    requires forall x :: 0 <= x < |Recs(nodes, r)| ==> Kid(Recs(nodes, r)[x]) != r
    ensures ExactNode(MergeImg(nodes, p, l, r, j), live - {r}, l, 0)
  {
    var nodes' := MergeImg(nodes, p, l, r, j);
    MergedHeads(nodes, live, p, l, r, j);
    var a, b := Recs(nodes, l), Recs(nodes, r);
    forall x | 0 <= x < |a + b| ensures ExactRec(nodes', live - {r}, (a + b)[x], 0) {
      var from := if x < |a| then l else r;
      var y := if x < |a| then x else x - |a|;
      assert (a + b)[x] == Recs(nodes, from)[y];
      assert ExactRec(nodes, live, Recs(nodes, from)[y], 0);
      assert SameHead(nodes, nodes', Kid((a + b)[x]));
    }
  }

  /** A rotation refreshes the right node's record; the left node keeps its first key. */
  lemma ExactRotate(nodes: Img, rows: seq<seq<nat>>, e: int, live: set<nat>, d: nat, i: nat, p: nat, l: nat, r: nat,
      j: nat, ls: seq<Rec>, rs: seq<Rec>)
    requires Whole(nodes, rows, e) && LiveIs(rows, live) && Siblings(nodes, rows, d, i, j, p, l, r)
    requires l == Kid(Recs(nodes, p)[j]) && r == Kid(Recs(nodes, p)[j + 1]) && p in live && l in live && r in live
    requires 0 !in live
    requires p != l && p != r && l != r && nodes[p].height > 1 && nodes[l].height == nodes[r].height
    requires Recs(nodes, l) != [] && ls != [] && rs != [] && ls + rs == Recs(nodes, l) + Recs(nodes, r)
    requires Exact(nodes, live, 0)
    ensures Exact(RotateImg(nodes, p, l, r, j, ls, rs), live, 0)
  {
    hide Flat, WF, LiveIs, Off;
    var nodes' := RotateImg(nodes, p, l, r, j, ls, rs);
    var a, b := Recs(nodes, l), Recs(nodes, r);
    assert ls[0] == (ls + rs)[0] == a[0];
    forall m: nat, x | m in live && IndexNode(nodes, m) && 0 <= x < |Recs(nodes, m)| && (m != p || x != j + 1)
      ensures Kid(Recs(nodes, m)[x]) != r
    {
      NotNamedElsewhere(nodes, rows, e, live, d, i, j + 1, m, x);
    }
    assert ExactNode(nodes, live, p, 0);
    forall k: nat | k in live && k != r ensures SameHead(nodes, nodes', k) {
    }
    forall m: nat | m in {p, l, r} && IndexNode(nodes', m) ensures ExactNode(nodes', live, m, 0) {
      ExactRotated(nodes, live, p, l, r, j, ls, rs, m);
    }
    hide RotateImg;
    ExactStep(nodes, nodes', live, live, 0, 0, {p, l, r}, r);
  }

  /** Records of the two siblings stay exact wherever the rotation puts them. */
  lemma ExactShared(nodes: Img, live: set<nat>, p: nat, l: nat, r: nat, j: nat, ls: seq<Rec>, rs: seq<Rec>, x: nat)
    requires p in nodes && l in nodes && r in nodes && p != l && p != r && l != r && l in live && r in live
    requires 0 !in live
    requires j + 1 < |nodes[p].recs| && Recs(nodes, l) != []
    requires Exact(nodes, live, 0) && IndexNode(nodes, l) && IndexNode(nodes, r)
    requires forall m: nat, x ::
      m in live && IndexNode(nodes, m) && 0 <= x < |Recs(nodes, m)| && (m != p || x != j + 1) ==>
        Kid(Recs(nodes, m)[x]) != r
    requires ls != [] && rs != [] && ls + rs == Recs(nodes, l) + Recs(nodes, r) && ls[0] == Recs(nodes, l)[0]
    requires x < |ls + rs|
    ensures ExactRec(RotateImg(nodes, p, l, r, j, ls, rs), live, (ls + rs)[x], 0)
  {
    var a, all := Recs(nodes, l), ls + rs;
    var from := if x < |a| then l else r;
    var y := if x < |a| then x else x - |a|;
    assert all[x] == Recs(nodes, from)[y];
    assert ExactNode(nodes, live, from, 0) && ExactRec(nodes, live, Recs(nodes, from)[y], 0);
    assert Kid(Recs(nodes, from)[y]) != r;
    RotatedHead(nodes, p, l, r, j, ls, rs, Kid(all[x]));
  }

  lemma RotatedHead(nodes: Img, p: nat, l: nat, r: nat, j: nat, ls: seq<Rec>, rs: seq<Rec>, k: nat)
    requires p in nodes && l in nodes && r in nodes && p != l && p != r && l != r && j + 1 < |nodes[p].recs|
    requires Recs(nodes, l) != [] && ls != [] && rs != [] && ls[0] == Recs(nodes, l)[0]
    ensures k != r ==> SameHead(nodes, RotateImg(nodes, p, l, r, j, ls, rs), k)
  {
  }

  lemma ExactRotated(nodes: Img, live: set<nat>, p: nat, l: nat, r: nat, j: nat, ls: seq<Rec>, rs: seq<Rec>, m: nat)
    requires p in nodes && l in nodes && r in nodes && p != l && p != r && l != r && p in live && l in live && r in live
    requires 0 !in live
    requires j + 1 < |nodes[p].recs| && r == Kid(nodes[p].recs[j + 1]) && Recs(nodes, l) != []
    requires Exact(nodes, live, 0) && m in {p, l, r} && nodes[p].height > 1 && nodes[l].height == nodes[r].height
    requires forall m: nat, x ::
      m in live && IndexNode(nodes, m) && 0 <= x < |Recs(nodes, m)| && (m != p || x != j + 1) ==>
        Kid(Recs(nodes, m)[x]) != r
    requires ls != [] && rs != [] && ls + rs == Recs(nodes, l) + Recs(nodes, r) && ls[0] == Recs(nodes, l)[0]
    requires IndexNode(RotateImg(nodes, p, l, r, j, ls, rs), m)
    ensures ExactNode(RotateImg(nodes, p, l, r, j, ls, rs), live, m, 0)
  {
    var nodes' := RotateImg(nodes, p, l, r, j, ls, rs);
    if m == p {
      var prs := Recs(nodes, p);
      assert ExactNode(nodes, live, p, 0);
      forall x | 0 <= x < |prs| ensures ExactRec(nodes', live, Recs(nodes', p)[x], 0) {
        assert ExactRec(nodes, live, prs[x], 0);
        if x != j + 1 {
          assert Kid(prs[x]) != r;
          RotatedHead(nodes, p, l, r, j, ls, rs, Kid(prs[x]));
        }
      }
    } else {
      var part := Recs(nodes', m);
      forall x | 0 <= x < |part| ensures ExactRec(nodes', live, part[x], 0) {
        var y := if m == l then x else |ls| + x;
        assert part[x] == (ls + rs)[y];
        ExactShared(nodes, live, p, l, r, j, ls, rs, y);
      }
    }
  }
}
