/** A B-tree at rest, and between a split and the insertion of its index record. */
module Trees {
  import opened Nodes
  import opened Rows
  import opened Edits
  import opened Steps
  import opened Search
  import opened LeafEdits

  /** The header-record fields that describe the tree. */
  datatype TreeHeader = TreeHeader(root: nat, firstLeaf: nat, lastLeaf: nat, treeDepth: nat)

  const EmptyHeader := TreeHeader(0, 0, 0, 0)

  /** The header names the root, both ends of the leaf chain, and the depth. */
  ghost predicate HeaderOk(rows: seq<seq<nat>>, h: TreeHeader) {
    && rows != []
    && (forall d :: 0 <= d < |rows| ==> rows[d] != [])
    && h.root == rows[0][0] && h.treeDepth == |rows|
    && h.firstLeaf == rows[|rows| - 1][0]
    && h.lastLeaf == rows[|rows| - 1][|rows[|rows| - 1]| - 1]
  }

  /** An index root has at least two children. */
  ghost predicate RootOk(nodes: Img, rows: seq<seq<nat>>) {
    |rows| > 1 && rows[0] != [] ==> |Recs(nodes, rows[0][0])| >= 2
  }

  /** A well-formed tree: the empty tree, or a whole tree without empty leaves that the header describes. */
  ghost predicate TreeOk(nodes: Img, rows: seq<seq<nat>>, h: TreeHeader) {
    if rows == [] then h == EmptyHeader
    else
      && WholeFull(nodes, rows, 0)
      && HeaderOk(rows, h) && RootOk(nodes, rows)
  }

  ghost predicate LiveIs(rows: seq<seq<nat>>, live: set<nat>) {
    forall n: nat :: n in live <==> InRows(rows, n)
  }

  /** Between a split of row `d` and the insertion of the index record for the new node. */
  ghost predicate SplitState(nodes: Img, rows: seq<seq<nat>>, h: TreeHeader, d: nat, q: nat, key: Rec, child: nat) {
    && Pending(nodes, rows, 0, d, q) && AllFull(nodes, rows[|rows| - 1])
    && HeaderOk(rows, h) && (d > 0 ==> RootOk(nodes, rows))
    && child == rows[d][q + 1]
    && Recs(nodes, child) != [] && SameKey(Recs(nodes, child)[0], key)
    && Recs(nodes, rows[d][q]) != []
  }

  predicate SameKey(a: Rec, b: Rec) {
    a.key == b.key && a.klen == b.klen
  }

  /** An image that agrees on the nodes of every row holds the same tree. */
  lemma WholeFrame(nodes: Img, nodes': Img, rows: seq<seq<nat>>, below: seq<seq<nat>>, e: int)
    requires WF(nodes, rows, below, e)
    requires forall n: nat :: InRows(rows, n) ==> n in nodes && n in nodes' && nodes'[n] == nodes[n]
    requires forall d :: 0 <= d < |rows| ==> Within(below[d], rows[d])
    ensures WF(nodes', rows, below, e) && Contents(nodes', rows) == Contents(nodes, rows)
  {
    hide Flat, Level;
    forall d | 0 <= d < |rows|
      ensures Level(nodes', rows[d], |rows| - d) && Flat(nodes', rows[d]) == Flat(nodes, rows[d])
      ensures Agree(nodes, nodes', rows[d])
    {
      assert Level(nodes, rows[d], |rows| - d);
      forall i | 0 <= i < |rows[d]|
        ensures rows[d][i] in nodes && rows[d][i] in nodes' && nodes'[rows[d][i]] == nodes[rows[d][i]] {
        assert rows[d][i] in rows[d];
        assert InRows(rows, rows[d][i]);
      }
      LevelFrame(nodes, nodes', rows[d], |rows| - d);
    }
    var c := Contents(nodes, rows);
    forall d | 0 <= d < |rows| - 1 ensures IndexRow(nodes', c, rows[d], below[d + 1], e) {
      assert IndexRow(nodes, c, rows[d], below[d + 1], e);
      var b := below[d + 1];
      forall j | 0 <= j < |b| ensures Tight(c, Head(nodes, b[j], e), Head(nodes', b[j], e)) {
        assert Within(b, rows[d + 1]);
        assert b[j] in rows[d + 1];
        assert InRows(rows, b[j]);
      }
      IndexRowKept(nodes, nodes', c, rows[d], rows[d], b, e);
    }
  }

  /** The stand-in key matters only while some leaf is empty. */
  lemma AnyStandIn(nodes: Img, rows: seq<seq<nat>>, e: int, e': int)
    requires WholeFull(nodes, rows, e)
    ensures WholeFull(nodes, rows, e')
  {
    hide Flat;
    var c := Contents(nodes, rows);
    forall d | 0 <= d < |rows| - 1 ensures IndexRow(nodes, c, rows[d], rows[d + 1], e') {
      assert IndexRow(nodes, c, rows[d], rows[d + 1], e);
      RowSpread(nodes, rows, e, d + 1);
    }
  }

  lemma InRowsIns(rows: seq<seq<nat>>, d: nat, q: nat, r: nat, n: nat)
    requires d < |rows| && q <= |rows[d]|
    ensures InRows(rows[d := Ins(rows[d], q, r)], n) <==> InRows(rows, n) || n == r
  {
    var s := rows[d];
    var t := Ins(s, q, r);
    var rows' := rows[d := t];
    assert t[q] == r && s == s[..q] + s[q..];
    forall k | 0 <= k < |rows| ensures n in rows'[k] <==> n in rows[k] || (k == d && n == r) {
    }
    assert r in rows'[d];
  }

  lemma InRowsCons(rows: seq<seq<nat>>, r: nat, n: nat)
    ensures InRows([[r]] + rows, n) <==> InRows(rows, n) || n == r
  {
    var rows' := [[r]] + rows;
    assert r in rows'[0];
    forall k | 0 <= k < |rows| ensures n in rows'[k + 1] <==> n in rows[k] {
    }
    forall k | 0 < k < |rows'| ensures n in rows'[k] <==> n in rows[k - 1] {
    }
  }

  // ---- the steps of an insertion ----

  /** The header after a split: a new last leaf becomes the end of the chain. */
  function SplitHeader(nodes: Img, h: TreeHeader, n: nat, r: nat): TreeHeader
    requires n in nodes
  {
    if nodes[n].flink == 0 && nodes[n].kind == Leaf then h.(lastLeaf := r) else h
  }

  /** A node's records changed to `rs` over `base`, and the node split off it when `child` is not 0. */
  ghost predicate Changed(nodes: Img, base: Img, nodes': Img, live: set<nat>, live': set<nat>, h: TreeHeader,
      h': TreeHeader, n: nat, rs: seq<Rec>, child: nat) {
    && n in live && n in nodes
    && (child == 0 ==> nodes' == SetRecs(nodes, n, rs) && live' == live && h' == h)
    && (child != 0 ==>
         && child !in live && live' == live + {child} && n in base && 2 <= |rs| && Carried(nodes, base, live)
         && nodes' == SplitImg(SetRecs(base, n, rs), n, child, |rs| / 2)
         && h' == SplitHeader(SetRecs(base, n, rs), h, n, child))
  }

  /** The two halves in their row, and the node before them. */
  lemma SplitPlace(nodes: Img, rows: seq<seq<nat>>, d: nat, q: nat, r: nat, m: nat)
    requires Whole(nodes, rows, 0) && d < |rows| && q < |rows[d]|
    requires r != 0 && !InRows(rows, r) && 0 < m < |Recs(nodes, rows[d][q])|
    ensures rows[d][q] in nodes && NodeAt(nodes, rows[d][q], |rows| - d) && LinksAt(nodes, rows[d], q) && 0 !in rows[d]
    ensures SplitOf(nodes, SplitImg(nodes, rows[d][q], r, m), rows[d], q, r, m)
    ensures var nodes' := SplitImg(nodes, rows[d][q], r, m);
      forall n: nat :: n in nodes && n !in rows[d] && n != r ==> n in nodes' && nodes'[n] == nodes[n]
  {
    hide Flat, WF, SplitImg, SplitOf;
    LevelOf(nodes, rows, 0, d);
    NotInRow(rows, d, r);
    hide InRows;
    LevelPlace(nodes, rows[d], |rows| - d, q);
    SplitImgOf(nodes, rows[d], |rows| - d, q, r, m);
  }

  lemma NotInRow(rows: seq<seq<nat>>, d: nat, r: nat)
    requires d < |rows| && !InRows(rows, r)
    ensures r !in rows[d]
  {
  }

  lemma LevelPlace(nodes: Img, s: seq<nat>, h: nat, q: nat)
    requires Level(nodes, s, h) && q < |s|
    ensures NodeAt(nodes, s[q], h) && LinksAt(nodes, s, q) && 0 !in s
  {
  }

  lemma SplitGives(nodes: Img, rows: seq<seq<nat>>, h: TreeHeader, d: nat, q: nat, r: nat, m: nat)
    requires rows != [] && WholeFull(nodes, rows, 0) && HeaderOk(rows, h) && RootOk(nodes, rows)
    requires d < |rows| && q < |rows[d]| && r != 0 && !InRows(rows, r) && 0 < m < |Recs(nodes, rows[d][q])|
    ensures rows[d][q] in nodes
    ensures var nodes', rows' := SplitImg(nodes, rows[d][q], r, m), rows[d := Ins(rows[d], q + 1, r)];
      && SplitState(nodes', rows', SplitHeader(nodes, h, rows[d][q], r), d, q, Recs(nodes, rows[d][q])[m], r)
      && Contents(nodes', rows') == Contents(nodes, rows)
  {
    hide Flat, WF, Contents, SplitImg, InRows, LinksAt, HeaderOk, SplitHeader, AllFull, RootOk, Pending;
    SplitPlace(nodes, rows, d, q, r, m);
    SplitStep(nodes, rows, 0, d, q, r, m);
    var nodes' := SplitImg(nodes, rows[d][q], r, m);
    SplitFull(nodes, nodes', rows, d, q, r, m);
    SplitRoot(nodes, nodes', rows, d, q, r, m);
    SplitHeaderOk(nodes, rows, h, d, q, r);
  }

  lemma SplitHeaderOk(nodes: Img, rows: seq<seq<nat>>, h: TreeHeader, d: nat, q: nat, r: nat)
    requires HeaderOk(rows, h) && d < |rows| && q < |rows[d]|
    requires NodeAt(nodes, rows[d][q], |rows| - d) && LinksAt(nodes, rows[d], q) && 0 !in rows[d]
    ensures HeaderOk(rows[d := Ins(rows[d], q + 1, r)], SplitHeader(nodes, h, rows[d][q], r))
  {
    var s, t := rows[d], Ins(rows[d], q + 1, r);
    assert t[0] == s[0];
    assert q + 1 < |s| ==> t[|t| - 1] == s[|s| - 1] && s[q + 1] != 0;
    assert q + 1 == |s| ==> t[|t| - 1] == r;
  }

  lemma SplitFull(nodes: Img, nodes': Img, rows: seq<seq<nat>>, d: nat, q: nat, r: nat, m: nat)
    requires rows != [] && WholeFull(nodes, rows, 0) && d < |rows| && q < |rows[d]| && rows[d][q] in nodes
    requires r != 0 && !InRows(rows, r) && 0 < m < |nodes[rows[d][q]].recs|
    requires SplitOf(nodes, nodes', rows[d], q, r, m)
    requires forall n: nat :: n in nodes && n !in rows[d] && n != r ==> n in nodes' && nodes'[n] == nodes[n]
    ensures AllFull(nodes', rows[d := Ins(rows[d], q + 1, r)][|rows| - 1])
  {
    hide Flat, Indexed, Asc;
    if d == |rows| - 1 {
      hide WF;
      SplitHalves(nodes, nodes', rows[d], q, r, m);
    } else {
      OtherRowsAgree(nodes, nodes', rows, d, r);
    }
  }

  lemma SplitHalves(nodes: Img, nodes': Img, s: seq<nat>, q: nat, r: nat, m: nat)
    requires AllFull(nodes, s) && q < |s| && s[q] in nodes && 0 < m < |nodes[s[q]].recs|
    requires SplitOf(nodes, nodes', s, q, r, m)
    ensures AllFull(nodes', Ins(s, q + 1, r))
  {
    var t := Ins(s, q + 1, r);
    forall k | 0 <= k < |t| ensures Recs(nodes', t[k]) != [] {
      assert t[k] == if k <= q then s[k] else if k == q + 1 then r else s[k - 1];
    }
  }

  lemma SplitRoot(nodes: Img, nodes': Img, rows: seq<seq<nat>>, d: nat, q: nat, r: nat, m: nat)
    requires rows != [] && WholeFull(nodes, rows, 0) && RootOk(nodes, rows)
    requires d < |rows| && !InRows(rows, r)
    requires forall n: nat :: n in nodes && n !in rows[d] && n != r ==> n in nodes' && nodes'[n] == nodes[n]
    requires q < |rows[d]|
    ensures d > 0 ==> RootOk(nodes', rows[d := Ins(rows[d], q + 1, r)])
  {
    hide Flat;
    OtherRowsAgree(nodes, nodes', rows, d, r);
  }

  /** Sorted insertion of the pending node's index record puts it right after its left neighbour's. */
  lemma LinkGives(nodes: Img, rows: seq<seq<nat>>, h: TreeHeader, d: nat, i: nat, j: nat, key: Rec, child: nat)
    requires d < |rows| - 1 && i < |rows[d]| && j < |Recs(nodes, rows[d][i])|
    requires SplitState(nodes, rows, h, d + 1, Off(nodes, rows[d], i) + j, key, child)
    ensures rows[d][i] in nodes
    ensures var rs := InsertSorted(Recs(nodes, rows[d][i]), IndexRec(key, child));
      var nodes' := SetRecs(nodes, rows[d][i], rs);
      && rs == Ins(Recs(nodes, rows[d][i]), j + 1, IndexRec(key, child))
      && WholeFull(nodes', rows, 0) && HeaderOk(rows, h) && RootOk(nodes', rows)
      && Contents(nodes', rows) == Contents(nodes, rows)
  {
    hide Flat, WF;
    var was := Recs(nodes, rows[d][i]);
    var x := IndexRec(key, child);
    var rs := Ins(was, j + 1, x);
    LinkStep(nodes, rows, 0, d, i, j);
    assert IndexRec(Recs(nodes, child)[0], child) == x;
    var nodes' := SetRecs(nodes, rows[d][i], rs);
    RowsApart1(nodes', rows, d, i);
    assert AllFull(nodes', rows[|rows| - 1]);
    RowSpread(nodes', rows, 0, d);
    FlatAt(nodes', rows[d], i);
    AscCat(Flat(nodes', rows[d][..i]), rs, Flat(nodes', rows[d][i + 1..]));
    PlaceOf(was, j + 1, x);
    assert rows[0] != [];
  }

  lemma RowsApart1(nodes: Img, rows: seq<seq<nat>>, d: nat, i: nat)
    requires Whole(nodes, rows, 0) && d < |rows| - 1 && i < |rows[d]|
    ensures rows[d][i] !in rows[|rows| - 1]
  {
    RowsApart(nodes, rows, d, |rows| - 1);
  }

  /** Where the result is ascending, sorted insertion agrees. */
  lemma PlaceOf(rs: seq<Rec>, n: nat, x: Rec)
    requires n <= |rs| && Asc(Ins(rs, n, x))
    ensures InsertSorted(rs, x) == Ins(rs, n, x)
  {
    var t := Ins(rs, n, x);
    assert t[n] == x;
    assert forall i :: 0 <= i < n ==> t[i] == rs[i];
    assert n < |rs| ==> t[n + 1] == rs[n];
    LowerBoundAt(rs, x.key, n);
  }

  /** The leaves stay full and the header's ends stay put under a new root. */
  lemma GrowFull(nodes: Img, rows: seq<seq<nat>>, n: nat, root: Node)
    requires rows != [] && AllFull(nodes, rows[|rows| - 1]) && !InRows(rows, n)
    ensures var rows' := [[n]] + rows; AllFull(nodes[n := root], rows'[|rows'| - 1])
  {
    var s := rows[|rows| - 1];
    assert ([[n]] + rows)[|rows|] == s;
    forall k | 0 <= k < |s| ensures s[k] != n {
      assert s[k] in s;
    }
  }

  lemma GrowHeader(rows: seq<seq<nat>>, h: TreeHeader, n: nat)
    requires HeaderOk(rows, h)
    ensures HeaderOk([[n]] + rows, h.(root := n, treeDepth := |rows| + 1))
  {
    var rows' := [[n]] + rows;
    assert forall d :: 0 < d < |rows'| ==> rows'[d] == rows[d - 1];
  }

  /** A new root completes a split of the old one. */
  lemma GrowGives(nodes: Img, rows: seq<seq<nat>>, h: TreeHeader, key: Rec, child: nat, n: nat)
    requires SplitState(nodes, rows, h, 0, 0, key, child) && n != 0 && !InRows(rows, n)
    ensures |rows[0]| == 2
    ensures var root := Node(Index, |rows| + 1, 0, 0,
      [IndexRec(Recs(nodes, rows[0][0])[0], rows[0][0]), IndexRec(key, child)]);
      var nodes', rows' := nodes[n := root], [[n]] + rows;
      && WholeFull(nodes', rows', 0) && HeaderOk(rows', h.(root := n, treeDepth := |rows| + 1)) && RootOk(nodes', rows')
      && Contents(nodes', rows') == Contents(nodes, rows)
  {
    hide Flat, Contents, Levels, Indexed, Asc, AllFull, HeaderOk, InRows;
    assert |Del(rows[0], 1)| == 1;
    GrowStep(nodes, rows, 0, n);
    hide WF;
    var root := GrownRoot(nodes, rows);
    assert root == Node(Index, |rows| + 1, 0, 0,
      [IndexRec(Recs(nodes, rows[0][0])[0], rows[0][0]), IndexRec(key, child)]);
    GrowFull(nodes, rows, n, root);
    GrowHeader(rows, h, n);
  }

  /** A descent survives changes below the nodes it turned at. */
  lemma PathKept(nodes: Img, nodes': Img, rows: seq<seq<nat>>, rows': seq<seq<nat>>, path: seq<nat>, ci: seq<nat>,
      pos: seq<nat>)
    requires PathOk(nodes, rows, path, ci, pos)
    requires |path| <= |rows'|
    requires forall d :: 0 <= d < |ci| ==>
      rows'[d] == rows[d] && forall i :: 0 <= i < |rows[d]| ==> Recs(nodes', rows[d][i]) == Recs(nodes, rows[d][i])
    requires var last := |path| - 1; pos[last] < |rows'[last]| && rows'[last][pos[last]] == path[last]
    ensures PathOk(nodes', rows', path, ci, pos)
  {
    hide Flat;
    forall d | 0 <= d < |ci| ensures TurnOk(nodes', rows', ci, pos, d) {
      assert TurnOk(nodes, rows, ci, pos, d);
      FlatSame(nodes, nodes', rows[d][..pos[d]]);
    }
  }

  /** `base` holds every node of `rows` as `nodes` does. */
  ghost predicate SameTree(nodes: Img, base: Img, rows: seq<seq<nat>>) {
    forall n: nat :: InRows(rows, n) ==> n in nodes && n in base && base[n] == nodes[n]
  }

  /** Records inserted into node `path[d]`, whose node then had to be split over `base`. */
  lemma SplitAfterEdit(nodes: Img, base: Img, rows: seq<seq<nat>>, h: TreeHeader, d: nat, i: nat, rs: seq<Rec>,
      r: nat, m: nat)
    requires rows != [] && d < |rows| && i < |rows[d]| && rows[d][i] in nodes
    requires SameTree(nodes, base, rows)
    requires WholeFull(SetRecs(nodes, rows[d][i], rs), rows, 0) && HeaderOk(rows, h)
    requires RootOk(SetRecs(nodes, rows[d][i], rs), rows)
    requires r != 0 && !InRows(rows, r) && 0 < m < |rs|
    ensures rows[d][i] in base
    ensures var n := rows[d][i];
      var edited := SetRecs(base, n, rs);
      var nodes', rows' := SplitImg(edited, n, r, m), rows[d := Ins(rows[d], i + 1, r)];
      && SplitState(nodes', rows', SplitHeader(edited, h, n, r), d, i, rs[m], r)
      && Contents(nodes', rows') == Contents(SetRecs(nodes, n, rs), rows)
  {
    hide Flat, WF;
    var n := rows[d][i];
    assert n in rows[d];
    assert InRows(rows, n);
    var was, edited := SetRecs(nodes, n, rs), SetRecs(base, n, rs);
    forall k | 0 <= k < |rows| ensures Within(rows[k], rows[k]) {
    }
    WholeFrame(was, edited, rows, rows, 0);
    FullFrame(was, edited, rows);
    SplitGives(edited, rows, h, d, i, r, m);
  }

  lemma FullFrame(nodes: Img, base: Img, rows: seq<seq<nat>>)
    requires rows != [] && SameTree(nodes, base, rows)
    ensures AllFull(nodes, rows[|rows| - 1]) ==> AllFull(base, rows[|rows| - 1])
    ensures RootOk(nodes, rows) ==> RootOk(base, rows)
  {
    var s := rows[|rows| - 1];
    forall i | 0 <= i < |s| ensures Recs(base, s[i]) == Recs(nodes, s[i]) {
      assert s[i] in s;
      assert InRows(rows, s[i]);
    }
    if rows[0] != [] {
      assert rows[0][0] in rows[0];
      assert InRows(rows, rows[0][0]);
    }
  }

  /** The descent as far as node `path[k]`. */
  ghost predicate PathTo(nodes: Img, rows: seq<seq<nat>>, path: seq<nat>, ci: seq<nat>, pos: seq<nat>, k: nat) {
    && k < |path| && |ci| == |path| - 1 && |pos| == |path|
    && PathOk(nodes, rows, path[..k + 1], ci[..k], pos[..k + 1])
  }

  /** What `PathTo` says of the last node and of the turn before it. */
  lemma PathToLast(nodes: Img, rows: seq<seq<nat>>, path: seq<nat>, ci: seq<nat>, pos: seq<nat>, k: nat)
    requires PathTo(nodes, rows, path, ci, pos, k)
    ensures k < |path| && k < |pos| && k < |rows| && pos[k] < |rows[k]| && path[k] == rows[k][pos[k]]
    ensures k > 0 ==>
      && PathTo(nodes, rows, path, ci, pos, k - 1)
      && k - 1 < |ci| && pos[k - 1] < |rows[k - 1]| && path[k - 1] == rows[k - 1][pos[k - 1]]
      && ci[k - 1] < |Recs(nodes, path[k - 1])|
      && pos[k] == Off(nodes, rows[k - 1], pos[k - 1]) + ci[k - 1]
    ensures k == 0 ==> pos[0] == 0
  {
    hide Off;
    var path', ci', pos' := path[..k + 1], ci[..k], pos[..k + 1];
    assert path'[k] == path[k] && pos'[k] == pos[k];
    if k > 0 {
      assert TurnOk(nodes, rows, ci', pos', k - 1);
      PathPrefix(nodes, rows, path', ci', pos', k);
      assert path'[..k] == path[..k] && ci'[..k - 1] == ci[..k - 1] && pos'[..k] == pos[..k];
    }
  }
}
