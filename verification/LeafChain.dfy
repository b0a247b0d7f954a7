/** The leaf chain by itself: whatever becomes of the index above it, an insertion leaves the chain from first leaf
    to last holding the old records with the new one at its sorted place. */
module LeafChain {
  import opened Nodes
  import opened Rows
  import opened Edits
  import opened Steps
  import opened Search
  import opened LeafEdits
  import opened Trees
  import opened Deletes
  import opened FixedSizes
  import opened ExactKeys
  import opened Fallback
  import opened Chains

  /** The leaves of the tree, linked from first to last, and no index node linked to any of them. */
  ghost predicate LeafRow(nodes: Img, live: set<nat>, h: TreeHeader, s: seq<nat>) {
    && Level(nodes, s, 1) && (forall i :: 0 <= i < |s| ==> s[i] in live)
    && h.firstLeaf == s[0] && h.lastLeaf == s[|s| - 1]
    && forall m: nat :: m in live && IndexNode(nodes, m) ==> AboveLeaves(nodes, live, m, s)
  }

  ghost predicate AboveLeaves(nodes: Img, live: set<nat>, m: nat, s: seq<nat>)
    requires m in nodes
  {
    nodes[m].kind != Leaf && m !in s && (nodes[m].flink == 0 || (nodes[m].flink in live && nodes[m].flink !in s))
  }

  /** The leaf chain holds the records `c`, in order. */
  ghost predicate ChainHolds(nodes: Img, live: set<nat>, h: TreeHeader, c: seq<Rec>) {
    exists s: seq<nat> :: LeafRow(nodes, live, h, s) && Flat(nodes, s) == c
  }

  /** Node `n` is the leaf of the chain where a record with key `p` belongs. */
  ghost predicate Lands(nodes: Img, live: set<nat>, h: TreeHeader, n: nat, p: int, c: seq<Rec>) {
    exists s: seq<nat>, i: nat :: LandsAt(nodes, live, h, s, i, n, p) && Flat(nodes, s) == c
  }

  ghost predicate LandsAt(nodes: Img, live: set<nat>, h: TreeHeader, s: seq<nat>, i: nat, n: nat, p: int) {
    && i < |s| && s[i] == n && LeafRow(nodes, live, h, s) && Asc(Recs(nodes, n))
    && AllBelow(Flat(nodes, s[..i]), p) && AllAbove(Flat(nodes, s[i + 1..]), p)
  }

  /** Changing and splitting an index node leaves the chain alone. */
  lemma ChainAside(nodes: Img, base: Img, nodes': Img, live: set<nat>, live': set<nat>, h: TreeHeader,
      h': TreeHeader, n: nat, rs: seq<Rec>, child: nat, c: seq<Rec>)
    requires ChainHolds(nodes, live, h, c) && IndexNode(nodes, n)
    requires Changed(nodes, base, nodes', live, live', h, h', n, rs, child)
    ensures ChainHolds(nodes', live', h', c)
    ensures forall m: nat :: m in live && IndexNode(nodes, m) ==> m in live' && IndexNode(nodes', m)
  {
    hide Level, Flat, Asc;
    var s: seq<nat> :| LeafRow(nodes, live, h, s) && Flat(nodes, s) == c;
    assert AboveLeaves(nodes, live, n, s);
    LevelMapped(nodes, s, 1);
    forall i | 0 <= i < |s| ensures s[i] in nodes && s[i] in nodes' && nodes'[s[i]] == nodes[s[i]] {
      assert s[i] in s && s[i] in live;
    }
    LevelFrame(nodes, nodes', s, 1);
    forall m: nat | m in live' && IndexNode(nodes', m) ensures AboveLeaves(nodes', live', m, s) {
      if m in live && m != n {
        assert nodes'[m].flink == nodes[m].flink && nodes'[m].kind == nodes[m].kind;
        assert AboveLeaves(nodes, live, m, s);
      } else if m == child {
        assert child !in s;
      }
    }
    assert LeafRow(nodes', live', h', s);
  }

  /** The nodes of `path` above its last are index nodes of the tree. */
  ghost predicate IndexPath(nodes: Img, live: set<nat>, path: seq<nat>) {
    forall d :: 0 <= d < |path| - 1 ==> path[d] in live && IndexNode(nodes, path[d])
  }

  /** Whatever happens to a node of the path above the leaf leaves the chain as it was. */
  lemma PathAsideChain(nodes: Img, base: Img, nodes': Img, live: set<nat>, live': set<nat>, h: TreeHeader,
      h': TreeHeader, path: seq<nat>, k: nat, rs: seq<Rec>, child: nat, c: seq<Rec>)
    requires IndexPath(nodes, live, path) && ChainHolds(nodes, live, h, c) && k < |path| - 1
    requires Changed(nodes, base, nodes', live, live', h, h', path[k], rs, child)
    ensures IndexPath(nodes', live', path) && ChainHolds(nodes', live', h', c)
  {
    hide ChainHolds, Changed, IndexNode;
    ChainAside(nodes, base, nodes', live, live', h, h', path[k], rs, child, c);
  }

  lemma LevelMapped(nodes: Img, s: seq<nat>, h: nat)
    requires Level(nodes, s, h)
    ensures s != [] && NoDup(s) && 0 !in s && forall i :: 0 <= i < |s| ==>
      s[i] in nodes && nodes[s[i]].height == h && nodes[s[i]].kind == if h == 1 then Leaf else Index
  {
    forall i | 0 <= i < |s|
      ensures s[i] in nodes && s[i] != 0 && nodes[s[i]].height == h &&
        nodes[s[i]].kind == if h == 1 then Leaf else Index {
      assert NodeAt(nodes, s[i], h);
    }
  }

  /** A new root leaves the chain alone. */
  lemma ChainRoot(nodes: Img, base: Img, live: set<nat>, h: TreeHeader, h': TreeHeader, n: nat, root: Node, c: seq<Rec>)
    requires ChainHolds(nodes, live, h, c) && Carried(nodes, base, live) && n !in live && root.kind != Leaf
    requires root.flink == 0
    requires h'.firstLeaf == h.firstLeaf && h'.lastLeaf == h.lastLeaf
    ensures ChainHolds(base[n := root], live + {n}, h', c)
  {
    hide Level, Flat;
    var nodes', live' := base[n := root], live + {n};
    var s: seq<nat> :| LeafRow(nodes, live, h, s) && Flat(nodes, s) == c;
    forall i | 0 <= i < |s| ensures s[i] in nodes && s[i] in nodes' && nodes'[s[i]] == nodes[s[i]] {
      assert s[i] in live;
    }
    LevelFrame(nodes, nodes', s, 1);
    LevelMapped(nodes, s, 1);
    forall m: nat | m in live' && IndexNode(nodes', m) ensures AboveLeaves(nodes', live', m, s) {
      if m != n {
        assert AboveLeaves(nodes, live, m, s);
      } else {
        assert n !in s;
      }
    }
    assert LeafRow(nodes', live', h', s);
  }

  /** The record goes into its leaf, and the leaf may be split: the chain holds it at its sorted place. */
  lemma ChainLands(nodes: Img, base: Img, nodes': Img, live: set<nat>, live': set<nat>, h: TreeHeader,
      h': TreeHeader, n: nat, rec: Rec, child: nat, c: seq<Rec>)
    requires Lands(nodes, live, h, n, rec.key, c) && Carried(nodes, nodes, live)
    requires Changed(nodes, base, nodes', live, live', h, h', n, InsertSorted(Recs(nodes, n), rec), child)
    ensures ChainHolds(nodes', live', h', InsertSorted(c, rec))
    ensures forall m: nat :: m in live && IndexNode(nodes, m) ==> m in live' && IndexNode(nodes', m)
  {
    hide Level, Flat, InsertSorted, SplitImg;
    var s: seq<nat>, i: nat :| LandsAt(nodes, live, h, s, i, n, rec.key) && Flat(nodes, s) == c;
    var rs := InsertSorted(Recs(nodes, n), rec);
    var over := if child == 0 then nodes else base;
    var edited := SetRecs(over, n, rs);
    LeafTakes(nodes, over, live, h, s, i, rec);
    if child == 0 {
      EditedRow(nodes, over, live, h, s, i, rs);
      assert LeafRow(nodes', live', h', s);
    } else {
      EditedRow(nodes, over, live, h, s, i, rs);
      SplitLeafRow(edited, live, h, s, i, child, |rs| / 2);
    }
    IndexKept(nodes, base, nodes', live, live', h, h', n, rs, child);
  }

  /** The same along a path to that leaf. */
  lemma PathLands(nodes: Img, base: Img, nodes': Img, live: set<nat>, live': set<nat>, h: TreeHeader, h': TreeHeader,
      path: seq<nat>, rs: seq<Rec>, rec: Rec, child: nat, c: seq<Rec>)
    requires |path| > 0 && IndexPath(nodes, live, path) && Carried(nodes, nodes, live)
    requires Lands(nodes, live, h, path[|path| - 1], rec.key, c)
    requires var n := path[|path| - 1];
      && (Asc(Recs(nodes, n)) ==> rs == InsertSorted(Recs(nodes, n), rec))
      && Changed(nodes, base, nodes', live, live', h, h', n, rs, child)
    ensures IndexPath(nodes', live', path) && ChainHolds(nodes', live', h', InsertSorted(c, rec))
  {
    hide Changed, Lands, ChainHolds, IndexNode, InsertSorted, Carried;
    LandsAsc(nodes, live, h, path[|path| - 1], rec.key, c);
    ChainLands(nodes, base, nodes', live, live', h, h', path[|path| - 1], rec, child, c);
  }

  lemma LandsAsc(nodes: Img, live: set<nat>, h: TreeHeader, n: nat, p: int, c: seq<Rec>)
    requires Lands(nodes, live, h, n, p, c)
    ensures Asc(Recs(nodes, n))
  {
  }

  /** The chain's records once leaf `i` has taken the new one. */
  lemma LeafTakes(nodes: Img, over: Img, live: set<nat>, h: TreeHeader, s: seq<nat>, i: nat, rec: Rec)
    requires i < |s| && LandsAt(nodes, live, h, s, i, s[i], rec.key) && Carried(nodes, over, live)
    ensures s[i] in over
    ensures Flat(SetRecs(over, s[i], InsertSorted(Recs(nodes, s[i]), rec)), s) == InsertSorted(Flat(nodes, s), rec)
  {
    hide Level, Flat, InsertSorted;
    LevelMapped(nodes, s, 1);
    assert s[i] in live;
    var fa, rs, fb := Flat(nodes, s[..i]), Recs(nodes, s[i]), Flat(nodes, s[i + 1..]);
    FlatAt(nodes, s, i);
    FlatSetRecs(over, s, i, InsertSorted(rs, rec));
    FlatSame(nodes, over, s[..i]);
    FlatSame(nodes, over, s[i + 1..]);
    InsertMiddle(fa, rs, fb, rec);
  }

  /** The chain stays a chain when a leaf's records change. */
  lemma EditedRow(nodes: Img, over: Img, live: set<nat>, h: TreeHeader, s: seq<nat>, i: nat, rs: seq<Rec>)
    requires LeafRow(nodes, live, h, s) && i < |s| && Carried(nodes, over, live)
    ensures s[i] in over && LeafRow(SetRecs(over, s[i], rs), live, h, s)
  {
    hide Level, Flat;
    LevelMapped(nodes, s, 1);
    assert s[i] in live;
    forall j | 0 <= j < |s| ensures s[j] in nodes && s[j] in over && over[s[j]] == nodes[s[j]] {
      assert s[j] in live;
    }
    LevelFrame(nodes, over, s, 1);
    LeafLevel(over, s, i, rs);
    var nodes' := SetRecs(over, s[i], rs);
    forall m: nat | m in live && IndexNode(nodes', m) ensures AboveLeaves(nodes', live, m, s) {
      assert IndexNode(nodes, m);
      assert AboveLeaves(nodes, live, m, s);
    }
  }

  /** Splitting a leaf puts the new leaf behind it. */
  lemma SplitLeafRow(nodes: Img, live: set<nat>, h: TreeHeader, s: seq<nat>, i: nat, child: nat, m: nat)
    requires LeafRow(nodes, live, h, s) && i < |s| && child !in live && child != 0
    requires s[i] in nodes && 0 < m < |nodes[s[i]].recs|
    ensures var nodes' := SplitImg(nodes, s[i], child, m);
      ChainHolds(nodes', live + {child}, SplitHeader(nodes, h, s[i], child), Flat(nodes, s))
  {
    hide Level, Flat, SplitImg, SplitOf, AboveLeaves;
    var n, t := s[i], Ins(s, i + 1, child);
    var nodes', live', h' := SplitImg(nodes, n, child, m), live + {child}, SplitHeader(nodes, h, n, child);
    LevelMapped(nodes, s, 1);
    assert child !in s;
    SplitImgOf(nodes, s, 1, i, child, m);
    SplitLevel(nodes, nodes', s, 1, i, child, m);
    SplitFlat(nodes, nodes', s, 1, i, child, m);
    SplitMembers(live, s, i, child);
    SplitEnds(nodes, h, s, i, child);
    forall k: nat | k in live' && IndexNode(nodes', k) ensures AboveLeaves(nodes', live', k, t) {
      SplitIndexKept(nodes, s, i, child, m, k);
      assert AboveLeaves(nodes, live, k, s);
      StillAbove(nodes, nodes', live, k, s, i, child);
    }
    assert LeafRow(nodes', live', h', t);
  }

  lemma SplitMembers(live: set<nat>, s: seq<nat>, i: nat, child: nat)
    requires i < |s| && forall k :: 0 <= k < |s| ==> s[k] in live
    ensures var t := Ins(s, i + 1, child); forall k :: 0 <= k < |t| ==> t[k] in live + {child}
  {
    var t := Ins(s, i + 1, child);
    forall k | 0 <= k < |t| ensures t[k] in live + {child} {
      assert t[k] == if k <= i then s[k] else if k == i + 1 then child else s[k - 1];
    }
  }

  /** The header names the ends of the longer chain. */
  lemma SplitEnds(nodes: Img, h: TreeHeader, s: seq<nat>, i: nat, child: nat)
    requires Level(nodes, s, 1) && i < |s| && h.firstLeaf == s[0] && h.lastLeaf == s[|s| - 1]
    ensures s[i] in nodes
    ensures var t, h' := Ins(s, i + 1, child), SplitHeader(nodes, h, s[i], child);
      h'.firstLeaf == t[0] && h'.lastLeaf == t[|t| - 1]
  {
    hide Level;
    LeafEnds(nodes, s, i);
    var t := Ins(s, i + 1, child);
    assert t[0] == s[0] && t[|t| - 1] == if i + 1 == |s| then child else s[|s| - 1];
  }

  lemma StillAbove(nodes: Img, nodes': Img, live: set<nat>, k: nat, s: seq<nat>, i: nat, child: nat)
    requires k in nodes && AboveLeaves(nodes, live, k, s) && i < |s| && child !in live && k != child && k in nodes'
    requires nodes'[k] == nodes[k]
    ensures AboveLeaves(nodes', live + {child}, k, Ins(s, i + 1, child))
  {
    InsMembers(s, i + 1, child);
  }

  lemma InsMembers(s: seq<nat>, q: nat, r: nat)
    requires q <= |s|
    ensures forall x: nat :: x in Ins(s, q, r) <==> x in s || x == r
  {
    assert s == s[..q] + s[q..];
  }

  lemma LeafEnds(nodes: Img, s: seq<nat>, i: nat)
    requires Level(nodes, s, 1) && i < |s|
    ensures s[i] in nodes && nodes[s[i]].kind == Leaf && (nodes[s[i]].flink == 0 <==> i + 1 == |s|)
  {
    assert LinksAt(nodes, s, i) && NodeAt(nodes, s[i], 1);
    assert i + 1 < |s| ==> NodeAt(nodes, s[i + 1], 1);
  }

  /** A split of a leaf changes no index node. */
  lemma SplitIndexKept(nodes: Img, s: seq<nat>, i: nat, child: nat, m: nat, k: nat)
    requires Level(nodes, s, 1) && i < |s| && child != 0 && child !in s && s[i] in nodes && 0 < m < |nodes[s[i]].recs|
    requires IndexNode(SplitImg(nodes, s[i], child, m), k)
    ensures k != child && IndexNode(nodes, k) && SplitImg(nodes, s[i], child, m)[k] == nodes[k]
  {
    LevelMapped(nodes, s, 1);
    assert LinksAt(nodes, s, i);
    if i + 1 < |s| {
      assert nodes[s[i]].flink == s[i + 1] && nodes[s[i + 1]].height == 1;
    }
  }

  lemma IndexKept(nodes: Img, base: Img, nodes': Img, live: set<nat>, live': set<nat>, h: TreeHeader,
      h': TreeHeader, n: nat, rs: seq<Rec>, child: nat)
    requires Changed(nodes, base, nodes', live, live', h, h', n, rs, child)
    ensures forall m: nat :: m in live && IndexNode(nodes, m) ==> m in live' && IndexNode(nodes', m)
  {
  }

  // ---- a whole tree's chain ----

  /** The last row of a whole tree is its leaf chain. */
  lemma RowChain(nodes: Img, rows: seq<seq<nat>>, live: set<nat>, h: TreeHeader)
    requires rows != [] && Whole(nodes, rows, 0) && HeaderOk(rows, h) && LiveIs(rows, live)
    ensures LeafRow(nodes, live, h, rows[|rows| - 1]) && ChainHolds(nodes, live, h, Contents(nodes, rows))
  {
    hide Flat, WF, LiveIs, Level;
    var last := |rows| - 1;
    var s := rows[last];
    LevelOf(nodes, rows, 0, last);
    LevelsAre(nodes, rows, 0);
    forall i | 0 <= i < |s| ensures s[i] in live {
      assert s[i] in s;
      RowsLive(rows, live, last, s[i]);
    }
    forall m: nat | m in live && IndexNode(nodes, m) ensures AboveLeaves(nodes, live, m, s) {
      var d, i := RowOf(nodes, rows, 0, live, m);
      LinksLive(nodes, rows, live, d, i);
      LevelOf(nodes, rows, 0, d);
      AboveRow(nodes, rows, d, i);
    }
  }

  lemma AboveRow(nodes: Img, rows: seq<seq<nat>>, d: nat, i: nat)
    requires Levels(nodes, rows) && d < |rows| - 1 && i < |rows[d]|
    ensures var m, s := rows[d][i], rows[|rows| - 1];
      m in nodes && nodes[m].kind != Leaf && m !in s && (nodes[m].flink == 0 || nodes[m].flink !in s)
  {
    var r := rows[d];
    assert Level(nodes, r, |rows| - d);
    assert NodeAt(nodes, r[i], |rows| - d) && LinksAt(nodes, r, i);
    RowsApart(nodes, rows, d, |rows| - 1);
    assert r[i] in r;
    assert i + 1 < |r| ==> r[i + 1] in r;
  }

  /** A followed descent for an absent key ends at the leaf where the key belongs, fallback or not. */
  lemma DescentLands(nodes: Img, rows: seq<seq<nat>>, live: set<nat>, h: TreeHeader, path: seq<nat>, ci: seq<nat>,
      pos: seq<nat>, p: int)
    requires rows != [] && WholeFull(nodes, rows, 0) && HeaderOk(rows, h) && LiveIs(rows, live)
    requires PathOk(nodes, rows, path, ci, pos) && |ci| == |path| - 1 && |path| == |rows|
    requires Followed(nodes, path, ci, p)
    requires !HasKey(Contents(nodes, rows), p)
    ensures Lands(nodes, live, h, path[|path| - 1], p, Contents(nodes, rows))
    ensures forall d :: 0 <= d < |path| - 1 ==> path[d] in live && IndexNode(nodes, path[d])
  {
    hide Flat, WF, LiveIs, PathOk, Followed, HeaderOk, AllFull, HasKey, Asc;
    PathLengths(nodes, rows, path, ci, pos);
    var last := |path| - 1;
    var s, i := rows[last], pos[last];
    RowChain(nodes, rows, live, h);
    LeftOfLeaf(nodes, rows, path, ci, pos, p);
    RightOfLeaf(nodes, rows, path, ci, pos, p);
    LeafAsc(nodes, rows, i);
    assert LeafRow(nodes, live, h, s);
    assert i < |s| && s[i] == path[last] && Asc(Recs(nodes, path[last]));
    assert AllBelow(Flat(nodes, s[..i]), p) && AllAbove(Flat(nodes, s[i + 1..]), p);
    assert LandsAt(nodes, live, h, s, i, path[last], p);
    forall d | 0 <= d < last ensures path[d] in live && IndexNode(nodes, path[d]) {
      NextOnPath(nodes, rows, path, ci, pos, d);
      assert path[d] in rows[d];
      RowsLive(rows, live, d, path[d]);
    }
  }

  lemma RightOfLeaf(nodes: Img, rows: seq<seq<nat>>, path: seq<nat>, ci: seq<nat>, pos: seq<nat>, p: int)
    requires rows != [] && WholeFull(nodes, rows, 0) && PathOk(nodes, rows, path, ci, pos) && |ci| == |path| - 1
    requires |path| == |rows| && Followed(nodes, path, ci, p)
    ensures |pos| == |path| && pos[|path| - 1] < |rows[|rows| - 1]|
    ensures AllAbove(Flat(nodes, rows[|rows| - 1][pos[|path| - 1] + 1..]), p)
  {
    hide Flat, WF, PathOk, Followed, AllFull, NoFallback, Pick;
    PathLengths(nodes, rows, path, ci, pos);
    var k := |path| - 1;
    if NoFallback(nodes, path, ci, p) {
      if k > 0 {
        DescentAround(nodes, rows, 0, path, ci, pos, p, k - 1);
      }
      LeafAround(nodes, rows, 0, pos[k], p);
    } else {
      var d := FallbackAt(nodes, path, ci, p);
      NextOnPath(nodes, rows, path, ci, pos, d);
      FullRow(nodes, rows, d, pos[d]);
      FallbackDown(nodes, rows, path, ci, pos, p, d);
      FlatAt(nodes, rows[k], pos[k]);
      ContentsAsc(nodes, rows);
      AfterHead(Flat(nodes, rows[k][..pos[k]]), Recs(nodes, path[k]), Flat(nodes, rows[k][pos[k] + 1..]), p);
    }
  }

  lemma AfterHead(fa: seq<Rec>, rs: seq<Rec>, fb: seq<Rec>, p: int)
    requires Asc(fa + rs + fb) && rs != [] && p < rs[0].key
    ensures AllAbove(fb, p)
  {
    var c := fa + rs + fb;
    assert c[|fa|] == rs[0];
    assert forall j :: 0 <= j < |fb| ==> fb[j] == c[|fa| + |rs| + j];
  }
}
