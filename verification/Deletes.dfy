/** The steps of a deletion: merging two siblings, rotating a record between them, refreshing index keys
    and dropping a root with one child. Each keeps the tree whole; the leaf a deletion starts from may be
    empty until it is merged away. */
module Deletes {
  import opened Nodes
  import opened Rows
  import opened Edits
  import opened Steps
  import opened Search
  import opened LeafEdits
  import opened Trees

  /** Only leaf `i` may be empty, and only when the deletion stands at the leaf row `d`. */
  ghost predicate FullBut(nodes: Img, rows: seq<seq<nat>>, d: nat, i: nat)
    requires rows != []
  {
    var s := rows[|rows| - 1];
    forall k :: 0 <= k < |s| ==> Recs(nodes, s[k]) != [] || (d == |rows| - 1 && k == i)
  }

  /** The tree while a deletion stands at node `i` of row `d`, before rebalancing it. */
  ghost predicate Lowered(nodes: Img, rows: seq<seq<nat>>, h: TreeHeader, e: int, d: nat, i: nat) {
    && rows != [] && d < |rows| && i < |rows[d]|
    && Whole(nodes, rows, e) && HeaderOk(rows, h)
    && GapOk(nodes, rows, e) && FullBut(nodes, rows, d, i)
  }

  // ---- merge ----

  function MergedParent(nodes: Img, p: nat, l: nat, r: nat, sep: nat): seq<Rec>
    requires sep + 1 < |Recs(nodes, p)| && Recs(nodes, l) + Recs(nodes, r) != []
  {
    Del(Recs(nodes, p), sep + 1)[sep := IndexRec((Recs(nodes, l) + Recs(nodes, r))[0], l)]
  }

  /** The image after `r` is merged into `l`; both are children of `p`, `l` at record `sep`. */
  function MergeImg(nodes: Img, p: nat, l: nat, r: nat, sep: nat): Img
    requires p in nodes && l in nodes && r in nodes
    requires sep + 1 < |Recs(nodes, p)| && Recs(nodes, l) + Recs(nodes, r) != []
  {
    var folded := FoldImg(nodes, l, r);
    folded[p := nodes[p].(recs := MergedParent(nodes, p, l, r, sep))]
  }

  function MergeHeader(nodes: Img, h: TreeHeader, l: nat, r: nat): TreeHeader
    requires l in nodes && r in nodes
  {
    if nodes[r].flink == 0 && nodes[l].kind == Leaf then h.(lastLeaf := l) else h
  }

  /** Merging is unlinking, folding, and refreshing the left node's index record. */
  lemma MergeIsSteps(nodes: Img, p: nat, l: nat, r: nat, sep: nat)
    requires p in nodes && l in nodes && r in nodes && p != l && p != r && l != r
    requires p != nodes[r].flink
    requires sep + 1 < |Recs(nodes, p)| && Recs(nodes, l) + Recs(nodes, r) != []
    ensures var unlinked := SetRecs(nodes, p, Del(Recs(nodes, p), sep + 1));
      var folded := FoldImg(unlinked, l, r);
      && p in folded && l in folded
      && Recs(folded, p) == Del(Recs(nodes, p), sep + 1)
      && (l != nodes[r].flink ==> Recs(folded, l) == Recs(nodes, l) + Recs(nodes, r))
      && SetRecs(folded, p, MergedParent(nodes, p, l, r, sep)) == MergeImg(nodes, p, l, r, sep)
  {
    hide MergedParent;
    FoldApart(nodes, p, l, r, nodes[p].(recs := Del(Recs(nodes, p), sep + 1)));
  }

  /** Folding `l` and `r` leaves `p` alone, and does the same whatever `p` holds. */
  lemma FoldApart(nodes: Img, p: nat, l: nat, r: nat, nd: Node)
    requires p in nodes && l in nodes && r in nodes && p != l && p != r && p != nodes[r].flink
    ensures FoldImg(nodes[p := nd], l, r) == FoldImg(nodes, l, r)[p := nd]
  {
  }

  /** Records `j` and `j + 1` of node `p`, the `i`-th of row `d`, name the neighbours `l` and `r`. */
  ghost predicate Siblings(nodes: Img, rows: seq<seq<nat>>, d: nat, i: nat, j: nat, p: nat, l: nat, r: nat) {
    && d < |rows| - 1 && i < |rows[d]| && p == rows[d][i]
    && p in nodes && l in nodes && r in nodes
    && j + 1 < |nodes[p].recs|
    && Off(nodes, rows[d], i) + j + 1 < |rows[d + 1]|
    && l == rows[d + 1][Off(nodes, rows[d], i) + j]
    && r == rows[d + 1][Off(nodes, rows[d], i) + j + 1]
  }

  function WithoutNode(rows: seq<seq<nat>>, d: nat, q: nat): seq<seq<nat>>
    requires d < |rows| && q < |rows[d]|
  {
    rows[d := Del(rows[d], q)]
  }

  lemma MergeGives(nodes: Img, rows: seq<seq<nat>>, e: int, d: nat, i: nat, j: nat, p: nat, l: nat, r: nat)
    requires Whole(nodes, rows, e) && Siblings(nodes, rows, d, i, j, p, l, r)
    requires Recs(nodes, l) + Recs(nodes, r) != []
    requires Recs(nodes, l) == [] ==> Tight(Contents(nodes, rows), e, Head(nodes, r, e))
    ensures var rows' := WithoutNode(rows, d + 1, Off(nodes, rows[d], i) + j + 1);
      && Whole(MergeImg(nodes, p, l, r, j), rows', e)
      && Contents(MergeImg(nodes, p, l, r, j), rows') == Contents(nodes, rows)
  {
    hide Flat, WF, Off, MergeImg, MergedParent, FoldImg;
    var q := Off(nodes, rows[d], i) + j;
    var rows' := WithoutNode(rows, d + 1, q + 1);
    MergeApart(nodes, rows, e, d, i, q);
    UnlinkStep(nodes, rows, e, d, i, j);
    var unlinked := SetRecs(nodes, p, Del(Recs(nodes, p), j + 1));
    FoldStep(unlinked, rows, e, d + 1, q);
    MergeIsSteps(nodes, p, l, r, j);
    var folded := FoldImg(unlinked, l, r);
    NextNode(nodes, rows, e, d, i, j);
    assert Recs(folded, p)[j] == Recs(nodes, p)[j];
    RefreshStep(folded, rows', e, d, i, j);
    MergedParentIs(nodes, p, l, r, j);
  }

  lemma MergedParentIs(nodes: Img, p: nat, l: nat, r: nat, sep: nat)
    requires sep + 1 < |Recs(nodes, p)| && Recs(nodes, l) + Recs(nodes, r) != []
    ensures MergedParent(nodes, p, l, r, sep) ==
      Del(Recs(nodes, p), sep + 1)[sep := IndexRec((Recs(nodes, l) + Recs(nodes, r))[0], l)]
  {
  }

  /** Two neighbours of a row, the node after them, and a node of the row above are all different. */
  lemma MergeApart(nodes: Img, rows: seq<seq<nat>>, e: int, d: nat, i: nat, q: nat)
    requires Whole(nodes, rows, e) && d < |rows| - 1 && i < |rows[d]| && q + 1 < |rows[d + 1]|
    ensures var p, l, r := rows[d][i], rows[d + 1][q], rows[d + 1][q + 1];
      && p in nodes && l in nodes && r in nodes && p != l && p != r && l != r && p != 0
      && p != nodes[r].flink && l != nodes[r].flink
      && (nodes[r].flink == 0 <==> q + 2 == |rows[d + 1]|)
  {
    hide Flat;
    var s := rows[d + 1];
    LevelOf(nodes, rows, e, d);
    LevelOf(nodes, rows, e, d + 1);
    assert NodeAt(nodes, rows[d][i], |rows| - d);
    assert NodeAt(nodes, s[q], |rows| - (d + 1)) && NodeAt(nodes, s[q + 1], |rows| - (d + 1));
    assert LinksAt(nodes, s, q + 1);
    if q + 2 < |s| {
      assert NodeAt(nodes, s[q + 2], |rows| - (d + 1));
    }
  }

  /** What merging changes: the two siblings, the node after them, and the parent. */
  lemma MergeElsewhere(nodes: Img, p: nat, l: nat, r: nat, sep: nat, n: nat)
    requires p in nodes && l in nodes && r in nodes && n in nodes
    requires sep + 1 < |Recs(nodes, p)| && Recs(nodes, l) + Recs(nodes, r) != []
    ensures n in MergeImg(nodes, p, l, r, sep)
    ensures n != p && n != l && n != r ==> Recs(MergeImg(nodes, p, l, r, sep), n) == Recs(nodes, n)
    ensures l != p && l != r ==> Recs(MergeImg(nodes, p, l, r, sep), l) == Recs(nodes, l) + Recs(nodes, r)
  {
  }

  lemma MergeHeaderOk(nodes: Img, rows: seq<seq<nat>>, h: TreeHeader, e: int, d: nat, q: nat)
    requires Whole(nodes, rows, e) && HeaderOk(rows, h) && 0 < d < |rows| && q + 1 < |rows[d]|
    requires rows[d][q] in nodes && rows[d][q + 1] in nodes
    ensures HeaderOk(WithoutNode(rows, d, q + 1), MergeHeader(nodes, h, rows[d][q], rows[d][q + 1]))
  {
    hide Flat, WF;
    var s := rows[d];
    LevelOf(nodes, rows, e, d);
    assert NodeAt(nodes, s[q], |rows| - d) && LinksAt(nodes, s, q + 1);
    assert q + 2 < |s| ==> NodeAt(nodes, s[q + 2], |rows| - d);
    hide Level, NodeAt;
    DelEnds(s, q + 1);
  }

  lemma DelEnds(s: seq<nat>, q: nat)
    requires 0 < q < |s|
    ensures Del(s, q) != [] && Del(s, q)[0] == s[0]
    ensures Del(s, q)[|s| - 2] == if q + 1 == |s| then s[q - 1] else s[|s| - 1]
  {
  }

  /** Leaf `k` of the old leaf row, if it stays, holds records after the merge. */
  lemma MergeFullAt(nodes: Img, rows: seq<seq<nat>>, h: TreeHeader, e: int, d: nat, i: nat, j: nat, p: nat, l: nat,
      r: nat, x: nat, k: nat)
    requires Lowered(nodes, rows, h, e, d + 1, x) && Siblings(nodes, rows, d, i, j, p, l, r)
    requires x == Off(nodes, rows[d], i) + j || x == Off(nodes, rows[d], i) + j + 1
    requires Recs(nodes, l) + Recs(nodes, r) != []
    requires k < |rows[|rows| - 1]| && (d + 1 == |rows| - 1 ==> k != Off(nodes, rows[d], i) + j + 1)
    ensures Recs(MergeImg(nodes, p, l, r, j), rows[|rows| - 1][k]) != []
  {
    hide Flat, Off, MergeImg, WF, HeaderOk, GapOk;
    var last := |rows| - 1;
    var n := rows[last][k];
    MergeApart(nodes, rows, e, d, i, Off(nodes, rows[d], i) + j);
    LevelOf(nodes, rows, e, last);
    assert NodeAt(nodes, n, 1);
    LevelsAre(nodes, rows, e);
    RowsApart(nodes, rows, last, d);
    if d + 1 < last {
      RowsApart(nodes, rows, last, d + 1);
    }
    assert p in rows[d] && l in rows[d + 1] && r in rows[d + 1];
    assert d + 1 == last ==> NoDup(rows[last]);
    hide Level, Levels;
    MergeElsewhere(nodes, p, l, r, j, n);
    MergeElsewhere(nodes, p, l, r, j, l);
  }

  lemma MergeFull(nodes: Img, rows: seq<seq<nat>>, h: TreeHeader, e: int, d: nat, i: nat, j: nat, p: nat, l: nat,
      r: nat, x: nat)
    requires Lowered(nodes, rows, h, e, d + 1, x) && Siblings(nodes, rows, d, i, j, p, l, r)
    requires x == Off(nodes, rows[d], i) + j || x == Off(nodes, rows[d], i) + j + 1
    requires Recs(nodes, l) + Recs(nodes, r) != []
    ensures FullBut(MergeImg(nodes, p, l, r, j), WithoutNode(rows, d + 1, Off(nodes, rows[d], i) + j + 1), d, i)
  {
    hide Flat, Off, MergeImg, WF, Lowered;
    var q := Off(nodes, rows[d], i) + j;
    var last := |rows| - 1;
    var t := WithoutNode(rows, d + 1, q + 1)[last];
    forall k | 0 <= k < |t| ensures Recs(MergeImg(nodes, p, l, r, j), t[k]) != [] {
      var k' := if d + 1 < last || k <= q then k else k + 1;
      assert t[k] == rows[last][k'];
      MergeFullAt(nodes, rows, h, e, d, i, j, p, l, r, x, k');
    }
  }

  lemma LevelsAre(nodes: Img, rows: seq<seq<nat>>, e: int)
    requires Whole(nodes, rows, e)
    ensures Levels(nodes, rows)
  {
  }

  lemma MergeLowers(nodes: Img, rows: seq<seq<nat>>, h: TreeHeader, e: int, d: nat, i: nat, j: nat, p: nat, l: nat,
      r: nat, x: nat)
    requires Lowered(nodes, rows, h, e, d + 1, x) && Siblings(nodes, rows, d, i, j, p, l, r)
    requires x == Off(nodes, rows[d], i) + j || x == Off(nodes, rows[d], i) + j + 1
    requires Recs(nodes, l) + Recs(nodes, r) != []
    ensures var nodes', rows' := MergeImg(nodes, p, l, r, j), WithoutNode(rows, d + 1, Off(nodes, rows[d], i) + j + 1);
      && Lowered(nodes', rows', MergeHeader(nodes, h, l, r), e, d, i)
      && AllFull(nodes', rows'[|rows'| - 1])
      && Contents(nodes', rows') == Contents(nodes, rows)
  {
    hide Flat, WF, Off, MergeImg, HeaderOk, MergeHeader;
    var q := Off(nodes, rows[d], i) + j;
    LevelOf(nodes, rows, e, d + 1);
    assert NodeAt(nodes, l, |rows| - (d + 1));
    MergeGives(nodes, rows, e, d, i, j, p, l, r);
    MergeHeaderOk(nodes, rows, h, e, d + 1, q);
    MergeFull(nodes, rows, h, e, d, i, j, p, l, r, x);
    AllFullHere(MergeImg(nodes, p, l, r, j), WithoutNode(rows, d + 1, q + 1), e, d, i);
  }

  /** Above the leaf row no leaf is empty. */
  lemma AllFullHere(nodes: Img, rows: seq<seq<nat>>, e: int, d: nat, i: nat)
    requires rows != [] && FullBut(nodes, rows, d, i) && d < |rows| - 1
    ensures AllFull(nodes, rows[|rows| - 1]) && GapOk(nodes, rows, e)
  {
  }

  /** Rows above the parent hold the records they held. */
  lemma MergeRowsAbove(nodes: Img, rows: seq<seq<nat>>, e: int, d: nat, i: nat, j: nat, p: nat, l: nat, r: nat, k: nat)
    requires Whole(nodes, rows, e) && Siblings(nodes, rows, d, i, j, p, l, r) && k < d
    requires Recs(nodes, l) + Recs(nodes, r) != []
    ensures forall m :: 0 <= m < |rows[k]| ==> Recs(MergeImg(nodes, p, l, r, j), rows[k][m]) == Recs(nodes, rows[k][m])
  {
    hide Flat, WF, Off, MergeImg;
    LevelsAre(nodes, rows, e);
    RowsApart(nodes, rows, k, d);
    RowsApart(nodes, rows, k, d + 1);
    LevelOf(nodes, rows, e, k);
    forall m | 0 <= m < |rows[k]| ensures Recs(MergeImg(nodes, p, l, r, j), rows[k][m]) == Recs(nodes, rows[k][m]) {
      assert NodeAt(nodes, rows[k][m], |rows| - k);
      MergeElsewhere(nodes, p, l, r, j, rows[k][m]);
    }
  }

  /** Below the top, merging leaves the root's records and the descent above the parent as they were. */
  lemma MergeAbove(nodes: Img, rows: seq<seq<nat>>, e: int, d: nat, i: nat, j: nat, p: nat, l: nat, r: nat,
      path: seq<nat>, ci: seq<nat>, pos: seq<nat>)
    requires Whole(nodes, rows, e) && Siblings(nodes, rows, d, i, j, p, l, r)
    requires Recs(nodes, l) + Recs(nodes, r) != []
    requires PathTo(nodes, rows, path, ci, pos, d)
    ensures var nodes', rows' := MergeImg(nodes, p, l, r, j), WithoutNode(rows, d + 1, Off(nodes, rows[d], i) + j + 1);
      && PathTo(nodes', rows', path, ci, pos, d)
      && (d > 0 && RootOk(nodes, rows) ==> RootOk(nodes', rows'))
  {
    hide Flat, WF, Off, MergeImg;
    var nodes', rows' := MergeImg(nodes, p, l, r, j), WithoutNode(rows, d + 1, Off(nodes, rows[d], i) + j + 1);
    forall k | 0 <= k < d
      ensures forall m :: 0 <= m < |rows[k]| ==> Recs(nodes', rows[k][m]) == Recs(nodes, rows[k][m]) {
      MergeRowsAbove(nodes, rows, e, d, i, j, p, l, r, k);
    }
    PathToLast(nodes, rows, path, ci, pos, d);
    PathToKept(nodes, nodes', rows, rows', path, ci, pos, d);
    if d > 0 {
      SingleRoot(nodes, rows, e);
      assert Recs(nodes', rows[0][0]) == Recs(nodes, rows[0][0]);
    }
  }

  /** The descent as far as node `path[k]` survives changes below the rows it turned at. */
  lemma PathToKept(nodes: Img, nodes': Img, rows: seq<seq<nat>>, rows': seq<seq<nat>>, path: seq<nat>, ci: seq<nat>,
      pos: seq<nat>, k: nat)
    requires PathTo(nodes, rows, path, ci, pos, k) && k < |rows'|
    requires forall d :: 0 <= d < k ==>
      rows'[d] == rows[d] && forall i :: 0 <= i < |rows[d]| ==> Recs(nodes', rows[d][i]) == Recs(nodes, rows[d][i])
    requires pos[k] < |rows'[k]| && rows'[k][pos[k]] == path[k]
    ensures PathTo(nodes', rows', path, ci, pos, k)
  {
    hide PathOk;
    PathKept(nodes, nodes', rows, rows', path[..k + 1], ci[..k], pos[..k + 1]);
  }

  lemma MergeLive(nodes: Img, rows: seq<seq<nat>>, e: int, live: set<nat>, d: nat, q: nat)
    requires Whole(nodes, rows, e) && LiveIs(rows, live) && d < |rows| && q < |rows[d]|
    ensures LiveIs(WithoutNode(rows, d, q), live - {rows[d][q]})
  {
    hide Flat, WF;
    var r := rows[d][q];
    LevelOf(nodes, rows, e, d);
    LevelsAre(nodes, rows, e);
    forall k | 0 <= k < |rows| && k != d ensures r !in rows[k] {
      RowsApart(nodes, rows, d, k);
    }
    hide Level, Levels;
    DelRow(rows, d, q);
  }

  lemma DelRow(rows: seq<seq<nat>>, d: nat, q: nat)
    requires d < |rows| && q < |rows[d]| && NoDup(rows[d])
    requires forall k :: 0 <= k < |rows| && k != d ==> rows[d][q] !in rows[k]
    ensures forall n: nat :: InRows(WithoutNode(rows, d, q), n) <==> InRows(rows, n) && n != rows[d][q]
  {
    var r := rows[d][q];
    var s, t := rows[d], Del(rows[d], q);
    var rows' := WithoutNode(rows, d, q);
    assert s == s[..q] + [r] + s[q + 1..];
    forall n: nat ensures n in t <==> n in s && n != r {
      assert n in s[..q] ==> exists m :: 0 <= m < q && s[m] == n;
      assert n in s[q + 1..] ==> exists m :: q + 1 <= m < |s| && s[m] == n;
    }
    forall n: nat ensures InRows(rows', n) <==> InRows(rows, n) && n != r {
      forall k | 0 <= k < |rows| ensures n in rows'[k] <==> n in rows[k] && n != r {
      }
    }
  }

  // ---- rotate ----

  /** The image after `l` and `r`, records `j` and `j + 1` of `p`, share their records out as `ls` and `rs`. */
  function RotateImg(nodes: Img, p: nat, l: nat, r: nat, j: nat, ls: seq<Rec>, rs: seq<Rec>): Img
    requires p in nodes && l in nodes && r in nodes && j + 1 < |nodes[p].recs| && rs != []
  {
    ShiftImg(nodes, l, r, ls, rs)[p := nodes[p].(recs := nodes[p].recs[j + 1 := IndexRec(rs[0], r)])]
  }

  lemma RotateIsSteps(nodes: Img, p: nat, l: nat, r: nat, j: nat, ls: seq<Rec>, rs: seq<Rec>)
    requires p in nodes && l in nodes && r in nodes && p != l && p != r && l != r
    requires j + 1 < |nodes[p].recs| && rs != []
    ensures var unlinked := SetRecs(nodes, p, Del(nodes[p].recs, j + 1));
      var shifted := ShiftImg(unlinked, l, r, ls, rs);
      && (forall n: nat :: n in nodes && n != p && n != l && n != r ==> Recs(shifted, n) == Recs(nodes, n))
      && p in shifted && Recs(shifted, p) == Del(nodes[p].recs, j + 1) && Recs(shifted, r) == rs
      && SetRecs(shifted, p, Ins(Recs(shifted, p), j + 1, IndexRec(rs[0], r))) == RotateImg(nodes, p, l, r, j, ls, rs)
  {
    var prs := nodes[p].recs;
    assert Ins(Del(prs, j + 1), j + 1, IndexRec(rs[0], r)) == prs[j + 1 := IndexRec(rs[0], r)];
  }

  lemma RotateGives(nodes: Img, rows: seq<seq<nat>>, e: int, d: nat, i: nat, j: nat, p: nat, l: nat, r: nat,
      ls: seq<Rec>, rs: seq<Rec>)
    requires Whole(nodes, rows, e) && Siblings(nodes, rows, d, i, j, p, l, r)
    requires Recs(nodes, l) != [] && ls != [] && rs != [] && ls + rs == Recs(nodes, l) + Recs(nodes, r)
    ensures Whole(RotateImg(nodes, p, l, r, j, ls, rs), rows, e)
    ensures Contents(RotateImg(nodes, p, l, r, j, ls, rs), rows) == Contents(nodes, rows)
  {
    hide Flat, WF, Off, RotateImg, ShiftImg;
    var q := Off(nodes, rows[d], i) + j;
    MergeApart(nodes, rows, e, d, i, q);
    UnlinkStep(nodes, rows, e, d, i, j);
    var unlinked := SetRecs(nodes, p, Del(nodes[p].recs, j + 1));
    ShiftStep(unlinked, rows, e, d + 1, q, ls, rs);
    var shifted := ShiftImg(unlinked, l, r, ls, rs);
    RotateIsSteps(nodes, p, l, r, j, ls, rs);
    OffSame(nodes, shifted, rows, e, d, i, p, l, r);
    LinkStep(shifted, rows, e, d, i, j);
  }

  /** The nodes left of `p` in its row are untouched by a change of `p` and of nodes of the next row. */
  lemma OffSame(nodes: Img, nodes': Img, rows: seq<seq<nat>>, e: int, d: nat, i: nat, p: nat, l: nat, r: nat)
    requires Whole(nodes, rows, e) && d < |rows| - 1 && i < |rows[d]| && p == rows[d][i]
    requires l in rows[d + 1] && r in rows[d + 1]
    requires forall n: nat :: n in nodes && n != p && n != l && n != r ==> Recs(nodes', n) == Recs(nodes, n)
    ensures Off(nodes', rows[d], i) == Off(nodes, rows[d], i)
  {
    hide Flat, WF;
    LevelOf(nodes, rows, e, d);
    LevelsAre(nodes, rows, e);
    RowsApart(nodes, rows, d, d + 1);
    var s := rows[d][..i];
    forall k | 0 <= k < |s| ensures Recs(nodes', s[k]) == Recs(nodes, s[k]) {
      assert s[k] == rows[d][k];
      assert NodeAt(nodes, rows[d][k], |rows| - d);
    }
    FlatSame(nodes, nodes', s);
  }

  lemma RotateFullAt(nodes: Img, rows: seq<seq<nat>>, d: nat, i: nat, j: nat, p: nat, l: nat, r: nat, ls: seq<Rec>,
      rs: seq<Rec>, x: nat, k: nat)
    requires Siblings(nodes, rows, d, i, j, p, l, r) && FullBut(nodes, rows, d + 1, x) && k < |rows[|rows| - 1]|
    requires x == Off(nodes, rows[d], i) + j || x == Off(nodes, rows[d], i) + j + 1
    requires ls != [] && rs != [] && l != r && p != l && p != r
    requires rows[|rows| - 1][k] in nodes && rows[|rows| - 1][k] != p
    ensures Recs(RotateImg(nodes, p, l, r, j, ls, rs), rows[|rows| - 1][k]) != []
  {
    hide Off;
    var n := rows[|rows| - 1][k];
    OneOfPair(nodes, rows, d, i, j, p, l, r, x);
    if n != l && n != r {
      assert !(d + 1 == |rows| - 1 && k == x);
      assert Recs(nodes, n) != [];
    }
  }

  /** A rotation leaves no leaf empty. */
  lemma RotateFull(nodes: Img, rows: seq<seq<nat>>, h: TreeHeader, e: int, d: nat, i: nat, j: nat, p: nat, l: nat,
      r: nat, ls: seq<Rec>, rs: seq<Rec>, x: nat)
    requires Lowered(nodes, rows, h, e, d + 1, x) && Siblings(nodes, rows, d, i, j, p, l, r)
    requires x == Off(nodes, rows[d], i) + j || x == Off(nodes, rows[d], i) + j + 1
    requires ls != [] && rs != [] && l != r && p != l && p != r
    ensures AllFull(RotateImg(nodes, p, l, r, j, ls, rs), rows[|rows| - 1])
  {
    hide Flat, WF, Off, GapOk, HeaderOk, FullBut, RotateImg;
    var last := |rows| - 1;
    var s := rows[last];
    LevelsAre(nodes, rows, e);
    RowsApart(nodes, rows, last, d);
    LevelOf(nodes, rows, e, last);
    hide Levels;
    forall k | 0 <= k < |s| ensures Recs(RotateImg(nodes, p, l, r, j, ls, rs), s[k]) != [] {
      assert NodeAt(nodes, s[k], 1);
      assert s[k] != p;
      RotateFullAt(nodes, rows, d, i, j, p, l, r, ls, rs, x, k);
    }
  }

  lemma OneOfPair(nodes: Img, rows: seq<seq<nat>>, d: nat, i: nat, j: nat, p: nat, l: nat, r: nat, x: nat)
    requires Siblings(nodes, rows, d, i, j, p, l, r)
    requires x == Off(nodes, rows[d], i) + j || x == Off(nodes, rows[d], i) + j + 1
    ensures x < |rows[d + 1]| && (rows[d + 1][x] == l || rows[d + 1][x] == r)
  {
    hide Off;
  }

  lemma RotateRoot(nodes: Img, rows: seq<seq<nat>>, e: int, d: nat, i: nat, j: nat, p: nat, l: nat, r: nat,
      ls: seq<Rec>, rs: seq<Rec>)
    requires Whole(nodes, rows, e) && Siblings(nodes, rows, d, i, j, p, l, r) && RootOk(nodes, rows) && rs != []
    requires p != l && p != r
    ensures RootOk(RotateImg(nodes, p, l, r, j, ls, rs), rows)
  {
    hide Flat, WF, Off;
    SingleRoot(nodes, rows, e);
    LevelsAre(nodes, rows, e);
    assert l in rows[d + 1] && r in rows[d + 1] && p in rows[d];
    RowsApart(nodes, rows, 0, d + 1);
  }

  /** Rotating fills both siblings and changes no node's record count above them. */
  lemma RotateStands(nodes: Img, rows: seq<seq<nat>>, h: TreeHeader, e: int, d: nat, i: nat, j: nat, p: nat, l: nat,
      r: nat, ls: seq<Rec>, rs: seq<Rec>, x: nat)
    requires Lowered(nodes, rows, h, e, d + 1, x) && Siblings(nodes, rows, d, i, j, p, l, r) && RootOk(nodes, rows)
    requires x == Off(nodes, rows[d], i) + j || x == Off(nodes, rows[d], i) + j + 1
    requires Recs(nodes, l) != [] && ls != [] && rs != [] && ls + rs == Recs(nodes, l) + Recs(nodes, r)
    ensures var nodes' := RotateImg(nodes, p, l, r, j, ls, rs);
      Whole(nodes', rows, e) && AllFull(nodes', rows[|rows| - 1]) && RootOk(nodes', rows) &&
        Contents(nodes', rows) == Contents(nodes, rows)
  {
    hide Flat, WF, Off, GapOk, FullBut, HeaderOk, AllFull, RootOk, RotateImg, Contents;
    MergeApart(nodes, rows, e, d, i, Off(nodes, rows[d], i) + j);
    RotateGives(nodes, rows, e, d, i, j, p, l, r, ls, rs);
    RotateFull(nodes, rows, h, e, d, i, j, p, l, r, ls, rs, x);
    RotateRoot(nodes, rows, e, d, i, j, p, l, r, ls, rs);
  }

  // ---- refresh ----

  function RefreshImg(nodes: Img, p: nat, j: nat, k: nat): Img
    requires p in nodes && j < |nodes[p].recs| && Recs(nodes, k) != []
  {
    SetRecs(nodes, p, nodes[p].recs[j := IndexRec(Recs(nodes, k)[0], k)])
  }

  lemma {:induction false} FlatCounts(nodes: Img, nodes': Img, s: seq<nat>)
    requires forall k :: 0 <= k < |s| ==> |Recs(nodes, s[k])| == |Recs(nodes', s[k])|
    ensures |Flat(nodes, s)| == |Flat(nodes', s)|
  {
    if s != [] {
      FlatCounts(nodes, nodes', s[1..]);
    }
  }

  /** Refreshing an index key keeps everything a deletion relies on. */
  lemma RefreshLowers(nodes: Img, rows: seq<seq<nat>>, h: TreeHeader, e: int, d: nat, i: nat, j: nat, D: nat, I: nat)
    requires Lowered(nodes, rows, h, e, D, I) && d < |rows| - 1 && i < |rows[d]| && j < |Recs(nodes, rows[d][i])|
    requires Recs(nodes, Kid(Recs(nodes, rows[d][i])[j])) != []
    ensures rows[d][i] in nodes
    ensures var nodes' := RefreshImg(nodes, rows[d][i], j, Kid(Recs(nodes, rows[d][i])[j]));
      && Lowered(nodes', rows, h, e, D, I) && Contents(nodes', rows) == Contents(nodes, rows)
      && (RootOk(nodes, rows) ==> RootOk(nodes', rows))
      && (forall n: nat :: |Recs(nodes', n)| == |Recs(nodes, n)|)
  {
    hide Flat, WF, HeaderOk;
    RefreshStep(nodes, rows, e, d, i, j);
    var p := rows[d][i];
    var nodes' := RefreshImg(nodes, p, j, Kid(Recs(nodes, p)[j]));
    LevelsAre(nodes, rows, e);
    RowsApart(nodes, rows, d, |rows| - 1);
    var s := rows[|rows| - 1];
    assert forall k :: 0 <= k < |s| ==> s[k] in s && s[k] != p && Recs(nodes', s[k]) == Recs(nodes, s[k]);
  }

  /** A descent depends only on how many records each node holds. */
  lemma PathCounts(nodes: Img, nodes': Img, rows: seq<seq<nat>>, path: seq<nat>, ci: seq<nat>, pos: seq<nat>)
    requires PathOk(nodes, rows, path, ci, pos)
    requires forall n: nat :: |Recs(nodes', n)| == |Recs(nodes, n)|
    ensures PathOk(nodes', rows, path, ci, pos)
  {
    hide Flat;
    forall d | 0 <= d < |ci| ensures TurnOk(nodes', rows, ci, pos, d) {
      assert TurnOk(nodes, rows, ci, pos, d);
      FlatCounts(nodes, nodes', rows[d][..pos[d]]);
    }
  }

  lemma PathToCounts(nodes: Img, nodes': Img, rows: seq<seq<nat>>, path: seq<nat>, ci: seq<nat>, pos: seq<nat>, k: nat)
    requires PathTo(nodes, rows, path, ci, pos, k)
    requires forall n: nat :: |Recs(nodes', n)| == |Recs(nodes, n)|
    ensures PathTo(nodes', rows, path, ci, pos, k)
  {
    hide PathOk;
    PathCounts(nodes, nodes', rows, path[..k + 1], ci[..k], pos[..k + 1]);
  }

  // ---- shrink ----

  lemma ShrinkGives(nodes: Img, nodes': Img, rows: seq<seq<nat>>, h: TreeHeader, e: int)
    requires Whole(nodes, rows, e) && HeaderOk(rows, h) && |rows| > 1 && |Recs(nodes, rows[0][0])| == 1
    requires forall m: nat :: m in nodes && m != rows[0][0] ==> m in nodes' && nodes'[m] == nodes[m]
    ensures var only := Kid(Recs(nodes, rows[0][0])[0]);
      && Whole(nodes', rows[1..], e) && HeaderOk(rows[1..], h.(root := only, treeDepth := h.treeDepth - 1))
      && Contents(nodes', rows[1..]) == Contents(nodes, rows)
      && (AllFull(nodes, rows[|rows| - 1]) ==> AllFull(nodes', rows[|rows| - 1]))
    ensures rows[1..][|rows| - 2] == rows[|rows| - 1]
    ensures forall n: nat :: InRows(rows[1..], n) <==> InRows(rows, n) && n != rows[0][0]
  {
    hide Flat, WF;
    ShrinkStep(nodes, nodes', rows, e);
    var t := rows[1..];
    SingleRoot(nodes, rows, e);
    LevelsAre(nodes, rows, e);
    var root := rows[0][0];
    assert rows[0] == [root];
    forall k | 0 < k < |rows| ensures root !in rows[k] {
      RowsApart(nodes, rows, 0, k);
    }
    forall n: nat ensures InRows(t, n) <==> InRows(rows, n) && n != root {
      assert forall k :: 0 <= k < |t| ==> t[k] == rows[k + 1];
      assert forall k :: 0 < k < |rows| ==> rows[k] == t[k - 1];
    }
    LevelOf(nodes, rows, e, |rows| - 1);
    var s := rows[|rows| - 1];
    assert forall k :: 0 <= k < |s| ==> s[k] in s && NodeAt(nodes, s[k], 1);
  }

  // ---- the facts a rebalancing method needs ----

  lemma SiblingsAt(nodes: Img, rows: seq<seq<nat>>, e: int, d: nat, i: nat, j: nat)
    requires Whole(nodes, rows, e) && d < |rows| - 1 && i < |rows[d]| && j + 1 < |Recs(nodes, rows[d][i])|
    ensures var p := rows[d][i];
      Siblings(nodes, rows, d, i, j, p, Kid(Recs(nodes, p)[j]), Kid(Recs(nodes, p)[j + 1]))
  {
    hide Flat, WF, Off;
    LevelOf(nodes, rows, e, d);
    LevelOf(nodes, rows, e, d + 1);
    NextNode(nodes, rows, e, d, i, j);
    NextNode(nodes, rows, e, d, i, j + 1);
    assert NodeAt(nodes, rows[d][i], |rows| - d);
    var q := Off(nodes, rows[d], i) + j;
    assert NodeAt(nodes, rows[d + 1][q], |rows| - (d + 1)) && NodeAt(nodes, rows[d + 1][q + 1], |rows| - (d + 1));
  }

  /** The node a deletion stands at, its parent, and the parent's record for it. */
  lemma StandsAt(nodes: Img, rows: seq<seq<nat>>, h: TreeHeader, e: int, path: seq<nat>, ci: seq<nat>,
      pos: seq<nat>, k: nat)
    requires PathTo(nodes, rows, path, ci, pos, k) && k > 0 && Lowered(nodes, rows, h, e, k, pos[k])
    ensures PathTo(nodes, rows, path, ci, pos, k - 1) && |ci| == |path| - 1 && |pos| == |path| && k < |path|
    ensures k < |rows|
    ensures path[k] in nodes && path[k - 1] in nodes && path[k] == rows[k][pos[k]]
    ensures pos[k - 1] < |rows[k - 1]| && path[k - 1] == rows[k - 1][pos[k - 1]]
    ensures ci[k - 1] < |Recs(nodes, path[k - 1])| && Kid(Recs(nodes, path[k - 1])[ci[k - 1]]) == path[k]
    ensures pos[k] == Off(nodes, rows[k - 1], pos[k - 1]) + ci[k - 1]
    ensures path[k] in rows[k] && path[k - 1] in rows[k - 1]
    ensures k < |rows| - 1 ==> Recs(nodes, path[k]) != []
  {
    hide Flat, WF, Off, HeaderOk, GapOk, FullBut, PathTo;
    PathToPrefix(nodes, rows, path, ci, pos, k, k);
    PathToLast(nodes, rows, path, ci, pos, k);
    LevelOf(nodes, rows, e, k);
    LevelOf(nodes, rows, e, k - 1);
    assert NodeAt(nodes, rows[k][pos[k]], |rows| - k);
    assert NodeAt(nodes, rows[k - 1][pos[k - 1]], |rows| - (k - 1));
    NextNode(nodes, rows, e, k - 1, pos[k - 1], ci[k - 1]);
  }

  lemma RowsLive(rows: seq<seq<nat>>, live: set<nat>, d: nat, n: nat)
    requires LiveIs(rows, live) && d < |rows| && n in rows[d]
    ensures n in live
  {
    assert InRows(rows, n);
  }

  /** Where the index record for `path[level]` stands. */
  lemma RefreshPlace(nodes: Img, rows: seq<seq<nat>>, h: TreeHeader, e: int, path: seq<nat>, ci: seq<nat>,
      pos: seq<nat>, level: nat)
    requires |path| > 0 && 0 < level < |path| && PathTo(nodes, rows, path, ci, pos, |path| - 1)
    requires Lowered(nodes, rows, h, e, |path| - 1, pos[|path| - 1])
    ensures level < |rows| && pos[level - 1] < |rows[level - 1]| && path[level - 1] == rows[level - 1][pos[level - 1]]
    ensures path[level] in nodes && path[level - 1] in nodes && |ci| == |path| - 1
    ensures ci[level - 1] < |Recs(nodes, path[level - 1])|
    ensures Kid(Recs(nodes, path[level - 1])[ci[level - 1]]) == path[level]
    decreases |path| - level
  {
    hide Flat, WF, Off, HeaderOk, GapOk, FullBut, PathTo;
    PathToPrefix(nodes, rows, path, ci, pos, |path| - 1, level);
    PathToLast(nodes, rows, path, ci, pos, level);
    LevelOf(nodes, rows, e, level);
    LevelOf(nodes, rows, e, level - 1);
    assert NodeAt(nodes, rows[level][pos[level]], |rows| - level);
    assert NodeAt(nodes, rows[level - 1][pos[level - 1]], |rows| - (level - 1));
    NextNode(nodes, rows, e, level - 1, pos[level - 1], ci[level - 1]);
  }

  lemma {:induction false} PathToPrefix(nodes: Img, rows: seq<seq<nat>>, path: seq<nat>, ci: seq<nat>,
      pos: seq<nat>, k: nat, d: nat)
    requires PathTo(nodes, rows, path, ci, pos, k) && d <= k
    ensures PathTo(nodes, rows, path, ci, pos, d)
    ensures |ci| == |path| - 1 && |pos| == |path|
    decreases k
  {
    if d < k {
      PathToLast(nodes, rows, path, ci, pos, k);
      PathToPrefix(nodes, rows, path, ci, pos, k - 1, d);
    }
  }

  /** The two children of `path[k - 1]` that a merge at record `sep` joins. */
  ghost predicate MergePair(nodes: Img, path: seq<nat>, ci: seq<nat>, k: nat, sep: nat, l: nat, r: nat) {
    && 0 < k < |path| && |ci| == |path| - 1
    && (sep == ci[k - 1] || sep + 1 == ci[k - 1])
    && sep + 1 < |Recs(nodes, path[k - 1])|
    && l == Kid(Recs(nodes, path[k - 1])[sep]) && r == Kid(Recs(nodes, path[k - 1])[sep + 1])
  }

  lemma MergeReady(nodes: Img, rows: seq<seq<nat>>, h: TreeHeader, e: int, live: set<nat>, path: seq<nat>,
      ci: seq<nat>, pos: seq<nat>, k: nat, sep: nat, l: nat, r: nat)
    requires PathTo(nodes, rows, path, ci, pos, k) && k > 0 && Lowered(nodes, rows, h, e, k, pos[k])
    requires LiveIs(rows, live)
    requires MergePair(nodes, path, ci, k, sep, l, r)
    ensures var p := path[k - 1];
      && p in live && l in live && r in live
      && p in nodes && l in nodes && r in nodes && l != p && r != p && l != r
      && nodes[r].flink != p && nodes[r].flink != l && sep + 1 < |nodes[p].recs|
    ensures pos[k - 1] < |rows[k - 1]| && Siblings(nodes, rows, k - 1, pos[k - 1], sep, path[k - 1], l, r)
    ensures |pos| == |path| && pos[k] == Off(nodes, rows[k - 1], pos[k - 1]) + ci[k - 1]
    ensures path[k] == if sep == ci[k - 1] then l else r
  {
    hide Flat, WF, Off, HeaderOk, GapOk, FullBut, PathTo;
    StandsAt(nodes, rows, h, e, path, ci, pos, k);
    SiblingsAt(nodes, rows, e, k - 1, pos[k - 1], sep);
    MergeApart(nodes, rows, e, k - 1, pos[k - 1], Off(nodes, rows[k - 1], pos[k - 1]) + sep);
    assert l in rows[k] && r in rows[k];
    RowsLive(rows, live, k, l);
    RowsLive(rows, live, k, r);
    RowsLive(rows, live, k - 1, path[k - 1]);
  }

  /** After a merge the deletion stands at the parent. */
  lemma MergeStands(nodes: Img, rows: seq<seq<nat>>, h: TreeHeader, e: int, live: set<nat>, path: seq<nat>,
      ci: seq<nat>, pos: seq<nat>, k: nat, sep: nat, l: nat, r: nat)
    requires PathTo(nodes, rows, path, ci, pos, k) && k > 0 && Lowered(nodes, rows, h, e, k, pos[k])
    requires LiveIs(rows, live)
    requires MergePair(nodes, path, ci, k, sep, l, r) && RootOk(nodes, rows)
    requires Recs(nodes, l) + Recs(nodes, r) != []
    ensures path[k - 1] in nodes && l in nodes && r in nodes
    ensures |pos| == |path| && k < |rows| && pos[k - 1] < |rows[k - 1]|
    ensures Off(nodes, rows[k - 1], pos[k - 1]) + sep + 1 < |rows[k]|
    ensures var nodes', rows' := MergeImg(nodes, path[k - 1], l, r, sep),
      WithoutNode(rows, k, Off(nodes, rows[k - 1], pos[k - 1]) + sep + 1);
      && PathTo(nodes', rows', path, ci, pos, k - 1)
      && Lowered(nodes', rows', MergeHeader(nodes, h, l, r), e, k - 1, pos[k - 1])
      && LiveIs(rows', live - {r})
      && (k > 1 ==> RootOk(nodes', rows') && path[k - 1] in nodes' && Recs(nodes', path[k - 1]) != [])
      && AllFull(nodes', rows'[|rows'| - 1])
      && Contents(nodes', rows') == Contents(nodes, rows)
  {
    hide Flat, WF, Off, HeaderOk, GapOk, FullBut, PathTo, Siblings, MergeImg, MergeHeader, RootOk;
    MergeReady(nodes, rows, h, e, live, path, ci, pos, k, sep, l, r);
    var d := k - 1;
    var p := path[d];
    StandsAt(nodes, rows, h, e, path, ci, pos, k);
    assert r == rows[k][Off(nodes, rows[d], pos[d]) + sep + 1] by { SiblingIs(nodes, rows, d, pos[d], sep, p, l, r); }
    MergeLowers(nodes, rows, h, e, d, pos[d], sep, p, l, r, pos[k]);
    MergeAbove(nodes, rows, e, d, pos[d], sep, p, l, r, path, ci, pos);
    MergeLive(nodes, rows, e, live, k, Off(nodes, rows[d], pos[d]) + sep + 1);
    if k > 1 {
      StandsAt(MergeImg(nodes, p, l, r, sep), WithoutNode(rows, k, Off(nodes, rows[d], pos[d]) + sep + 1),
        MergeHeader(nodes, h, l, r), e, path, ci, pos, d);
    }
  }

  lemma SiblingIs(nodes: Img, rows: seq<seq<nat>>, d: nat, i: nat, j: nat, p: nat, l: nat, r: nat)
    requires Siblings(nodes, rows, d, i, j, p, l, r)
    ensures Off(nodes, rows[d], i) + j + 1 < |rows[d + 1]| && r == rows[d + 1][Off(nodes, rows[d], i) + j + 1]
  {
  }

  // ---- the leaf a deletion starts from ----

  /** Some leaf holds nothing but the record with key `p`, and its parent names no other child. */
  ghost predicate Stranding(nodes: Img, rows: seq<seq<nat>>, p: int)
    requires |rows| > 1
  {
    var up := rows[|rows| - 2];
    exists i :: 0 <= i < |up| && StrandedAt(nodes, up[i], p)
  }

  ghost predicate StrandedAt(nodes: Img, u: nat, p: int) {
    && |Recs(nodes, u)| == 1
    && |Recs(nodes, Kid(Recs(nodes, u)[0]))| == 1
    && Recs(nodes, Kid(Recs(nodes, u)[0]))[0].key == p
  }

  /** A record of a leaf is a record of the chain. */
  lemma LeafRecord(nodes: Img, s: seq<nat>, i: nat, x: nat)
    requires i < |s| && x < |Recs(nodes, s[i])|
    ensures Off(nodes, s, i) + x < |Flat(nodes, s)| && Flat(nodes, s)[Off(nodes, s, i) + x] == Recs(nodes, s[i])[x]
  {
    hide Flat;
    FlatAt(nodes, s, i);
  }

  /** A position of the flattened row belongs to one node. */
  lemma SameNode(nodes: Img, s: seq<nat>, i: nat, x: nat, k: nat, y: nat)
    requires i < |s| && k < |s| && x < |Recs(nodes, s[i])| && y < |Recs(nodes, s[k])|
    requires Off(nodes, s, i) + x == Off(nodes, s, k) + y
    ensures i == k
  {
    hide Flat;
    FlatAt(nodes, s, i);
    FlatAt(nodes, s, k);
    FlatPrefix(nodes, s, i + 1, if i < k then k else i + 1);
    FlatPrefix(nodes, s, k + 1, if k < i then i else k + 1);
  }

  /** Two leaves that hold the same key are one leaf. */
  lemma SameLeaf(nodes: Img, rows: seq<seq<nat>>, e: int, i: nat, x: nat, k: nat, y: nat)
    requires WholeFull(nodes, rows, e) && i < |rows[|rows| - 1]| && k < |rows[|rows| - 1]|
    requires x < |Recs(nodes, rows[|rows| - 1][i])| && y < |Recs(nodes, rows[|rows| - 1][k])|
    requires Recs(nodes, rows[|rows| - 1][i])[x].key == Recs(nodes, rows[|rows| - 1][k])[y].key
    ensures i == k
  {
    hide Flat, Off, Levels, Indexed;
    var s := rows[|rows| - 1];
    LeafRecord(nodes, s, i, x);
    LeafRecord(nodes, s, k, y);
    SameNode(nodes, s, i, x, k, y);
  }

  /** A node has one parent. */
  lemma SameParent(nodes: Img, rows: seq<seq<nat>>, e: int, d: nat, i: nat, x: nat, k: nat, y: nat)
    requires Whole(nodes, rows, e) && d < |rows| - 1 && i < |rows[d]| && k < |rows[d]|
    requires x < |Recs(nodes, rows[d][i])| && y < |Recs(nodes, rows[d][k])|
    requires Kid(Recs(nodes, rows[d][i])[x]) == Kid(Recs(nodes, rows[d][k])[y])
    ensures i == k
  {
    hide Flat, WF, Off;
    NextNode(nodes, rows, e, d, i, x);
    NextNode(nodes, rows, e, d, k, y);
    LevelOf(nodes, rows, e, d + 1);
    SameNode(nodes, rows[d], i, x, k, y);
  }

  lemma StrandingHere(nodes: Img, rows: seq<seq<nat>>, path: seq<nat>, ci: seq<nat>, pos: seq<nat>, x: nat)
    requires WholeFull(nodes, rows, 0) && |path| == |rows| > 1 && PathTo(nodes, rows, path, ci, pos, |path| - 1)
    requires x < |Recs(nodes, path[|path| - 1])|
    ensures Stranding(nodes, rows, Recs(nodes, path[|path| - 1])[x].key) <==>
      |Recs(nodes, path[|path| - 1])| == 1 && |Recs(nodes, path[|path| - 2])| == 1
  {
    hide Flat, WF, Off, PathTo;
    var last := |path| - 1;
    PathToLast(nodes, rows, path, ci, pos, last);
    var leaf, u := path[last], path[last - 1];
    var p := Recs(nodes, leaf)[x].key;
    var i := pos[last - 1];
    NextNode(nodes, rows, 0, last - 1, i, ci[last - 1]);
    assert Kid(Recs(nodes, u)[ci[last - 1]]) == leaf;
    if |Recs(nodes, leaf)| == 1 && |Recs(nodes, u)| == 1 {
      assert StrandedAt(nodes, rows[last - 1][i], p);
    }
    var up := rows[last - 1];
    forall k | 0 <= k < |up| && StrandedAt(nodes, up[k], p)
      ensures |Recs(nodes, leaf)| == 1 && |Recs(nodes, u)| == 1
    {
      NextNode(nodes, rows, 0, last - 1, k, 0);
      var q := Off(nodes, rows[last - 1], k);
      SameLeaf(nodes, rows, 0, pos[last], x, q, 0);
      SameParent(nodes, rows, 0, last - 1, i, ci[last - 1], k, 0);
    }
  }

  lemma NotStranding(nodes: Img, rows: seq<seq<nat>>, p: int)
    requires WholeFull(nodes, rows, 0) && |rows| > 1 && !HasKey(Contents(nodes, rows), p)
    ensures !Stranding(nodes, rows, p)
  {
    hide Flat, WF, Off;
    var d := |rows| - 2;
    var up := rows[d];
    forall k | 0 <= k < |up| ensures !StrandedAt(nodes, up[k], p) {
      if |Recs(nodes, rows[d][k])| == 1 {
        NextNode(nodes, rows, 0, d, k, 0);
        var q := Off(nodes, rows[d], k);
        if |Recs(nodes, rows[d + 1][q])| == 1 {
          LeafRecord(nodes, rows[d + 1], q, 0);
        }
      }
    }
  }

  /** The leaf the descent reaches has the key if and only if the tree does. */
  lemma LeafReached(nodes: Img, rows: seq<seq<nat>>, path: seq<nat>, ci: seq<nat>, pos: seq<nat>, p: int)
    requires WholeFull(nodes, rows, 0) && PathOk(nodes, rows, path, ci, pos) && |path| == |rows|
    requires Followed(nodes, path, ci, p)
    ensures path[|path| - 1] in nodes && PathTo(nodes, rows, path, ci, pos, |path| - 1)
    ensures HasKey(Contents(nodes, rows), p) <==> HasKey(Recs(nodes, path[|path| - 1]), p)
    ensures !HasKey(Contents(nodes, rows), p) ==> Without(Contents(nodes, rows), p) == Contents(nodes, rows)
    ensures !HasKey(Contents(nodes, rows), p) && |rows| > 1 ==> !Stranding(nodes, rows, p)
  {
    hide Flat, WF, Pick, NoFallback;
    var last := |path| - 1;
    var c := Contents(nodes, rows);
    LevelOf(nodes, rows, 0, last);
    assert NodeAt(nodes, rows[last][pos[last]], 1);
    assert path[..last + 1] == path && ci[..last] == ci && pos[..last + 1] == pos;
    FollowedOrAbsent(nodes, rows, 0, path, ci, pos, p, last);
    assert NoFallback(nodes, path[..last], ci[..last], p) || !HasKey(c, p);
    if HasKey(c, p) {
      if last > 0 {
        DescentAroundPrefix(nodes, rows, 0, path, ci, pos, p, last);
      }
      LeafAround(nodes, rows, 0, pos[last], p);
      OnlyMiddle(Flat(nodes, rows[last][..pos[last]]), Recs(nodes, path[last]),
        Flat(nodes, rows[last][pos[last] + 1..]), p);
    } else {
      WithoutAbsent(c, p);
      if |rows| > 1 {
        NotStranding(nodes, rows, p);
      }
      var rs := Recs(nodes, path[last]);
      forall x | 0 <= x < |rs| ensures rs[x].key != p {
        LeafRecord(nodes, rows[last], pos[last], x);
      }
    }
  }

  lemma OnlyMiddle(fa: seq<Rec>, rs: seq<Rec>, fb: seq<Rec>, p: int)
    requires HasKey(fa + rs + fb, p)
    requires AllBelow(fa, p) && AllAbove(fb, p)
    ensures HasKey(rs, p)
  {
    var c := fa + rs + fb;
    forall x | 0 <= x < |fa| ensures c[x].key != p {
      assert c[x] == fa[x];
    }
    forall x | |fa| + |rs| <= x < |c| ensures c[x].key != p {
      assert c[x] == fb[x - |fa| - |rs|];
    }
    var x :| 0 <= x < |c| && c[x].key == p;
    assert rs[x - |fa|] == c[x];
  }

  /** The tree once the record is out of its leaf, before any rebalancing. */
  lemma DeleteReady(nodes: Img, rows: seq<seq<nat>>, h: TreeHeader, path: seq<nat>, ci: seq<nat>, pos: seq<nat>, x: nat)
    requires rows != [] && WholeFull(nodes, rows, 0) && HeaderOk(rows, h) && RootOk(nodes, rows)
    requires |path| == |rows| && PathTo(nodes, rows, path, ci, pos, |path| - 1)
    requires path[|path| - 1] in nodes && x < |nodes[path[|path| - 1]].recs|
    ensures var leaf := path[|path| - 1];
      var rs := nodes[leaf].recs;
      var p := rs[x].key;
      var nodes' := SetRecs(nodes, leaf, Del(rs, x));
      && Lowered(nodes', rows, h, p, |path| - 1, pos[|path| - 1])
      && PathTo(nodes', rows, path, ci, pos, |path| - 1)
      && RootOk(nodes', rows)
      && Contents(nodes', rows) == Without(Contents(nodes, rows), p)
      && |Contents(nodes', rows)| == |Contents(nodes, rows)| - 1
      && (AllFull(nodes', rows[|rows| - 1]) <==> |rs| > 1)
      && (|rows| > 1 ==> Recs(nodes', path[|path| - 2]) == Recs(nodes, path[|path| - 2]))
      && (|rows| > 1 ==> (Stranding(nodes, rows, p) <==> |rs| == 1 && |Recs(nodes, path[|path| - 2])| == 1))
      && (|rows| == 1 && |rs| == 1 ==> Contents(nodes', rows) == [] && rows[0] == [leaf])
  {
    hide Flat, WF, Off, HeaderOk, GapOk, AllFull, FullBut, Contents, Without, Stranding, SetRecs, PathTo, RootOk;
    var last := |path| - 1;
    PathToLast(nodes, rows, path, ci, pos, last);
    LeafDelete(nodes, rows, 0, pos[last], x);
    LeafDeleteGap(nodes, rows, 0, pos[last], x);
    RemovedCount(nodes, rows, pos[last], x);
    RemovedFull(nodes, rows, pos[last], x);
    RemovedAbove(nodes, rows, path, ci, pos, x);
    if last > 0 {
      StrandingHere(nodes, rows, path, ci, pos, x);
    } else {
      RemovedLast(nodes, rows, path[0], x);
    }
  }

  /** One record goes. */
  lemma RemovedCount(nodes: Img, rows: seq<seq<nat>>, i: nat, x: nat)
    requires rows != [] && WholeFull(nodes, rows, 0) && i < |rows[|rows| - 1]| && x < |Recs(nodes, rows[|rows| - 1][i])|
    ensures |Without(Contents(nodes, rows), Recs(nodes, rows[|rows| - 1][i])[x].key)| == |Contents(nodes, rows)| - 1
  {
    hide Flat, WF, Off, AllFull, Without, Asc;
    var last := |rows| - 1;
    RowSpread(nodes, rows, 0, last);
    LeafRecord(nodes, rows[last], i, x);
    WithoutAt(Contents(nodes, rows), Off(nodes, rows[last], i) + x);
  }

  /** Every other leaf keeps its records, so holds some. */
  lemma RemovedFull(nodes: Img, rows: seq<seq<nat>>, i: nat, x: nat)
    requires rows != [] && WholeFull(nodes, rows, 0) && i < |rows[|rows| - 1]|
    requires rows[|rows| - 1][i] in nodes && x < |nodes[rows[|rows| - 1][i]].recs|
    ensures var n := rows[|rows| - 1][i];
      var nodes' := SetRecs(nodes, n, Del(nodes[n].recs, x));
      && FullBut(nodes', rows, |rows| - 1, i)
      && (AllFull(nodes', rows[|rows| - 1]) <==> |nodes[n].recs| > 1)
  {
    hide Flat, WF;
    var s := rows[|rows| - 1];
    LevelOf(nodes, rows, 0, |rows| - 1);
    LevelNoDup(nodes, s, 1);
    hide Level;
    var n := s[i];
    var nodes' := SetRecs(nodes, n, Del(nodes[n].recs, x));
    assert Recs(nodes', n) == Del(nodes[n].recs, x);
    forall k | 0 <= k < |s| && k != i ensures Recs(nodes', s[k]) != [] {
      assert s[k] != n;
    }
  }



  /** Nothing changes above the leaf. */
  lemma RemovedAbove(nodes: Img, rows: seq<seq<nat>>, path: seq<nat>, ci: seq<nat>, pos: seq<nat>, x: nat)
    requires rows != [] && Whole(nodes, rows, 0) && |path| == |rows| && PathTo(nodes, rows, path, ci, pos, |path| - 1)
    requires path[|path| - 1] in nodes && x < |nodes[path[|path| - 1]].recs|
    ensures var leaf := path[|path| - 1];
      var nodes' := SetRecs(nodes, leaf, Del(nodes[leaf].recs, x));
      && PathTo(nodes', rows, path, ci, pos, |path| - 1)
      && (RootOk(nodes, rows) ==> RootOk(nodes', rows))
      && (|rows| > 1 ==> Recs(nodes', path[|path| - 2]) == Recs(nodes, path[|path| - 2]))
  {
    hide Flat, WF, Off, PathTo;
    var last := |path| - 1;
    PathToLast(nodes, rows, path, ci, pos, last);
    var leaf := path[last];
    var nodes' := SetRecs(nodes, leaf, Del(nodes[leaf].recs, x));
    LevelsAre(nodes, rows, 0);
    SingleRoot(nodes, rows, 0);
    forall k | 0 <= k < last
      ensures forall m :: 0 <= m < |rows[k]| ==> Recs(nodes', rows[k][m]) == Recs(nodes, rows[k][m]) {
      RowsApart(nodes, rows, k, last);
      assert forall m :: 0 <= m < |rows[k]| ==> rows[k][m] != leaf;
    }
    hide SetRecs, Levels;
    PathToKept(nodes, nodes', rows, rows, path, ci, pos, last);
    if last > 0 {
      assert Recs(nodes', rows[0][0]) == Recs(nodes, rows[0][0]);
    }
  }

  /** The last record of a tree that is one leaf. */
  lemma RemovedLast(nodes: Img, rows: seq<seq<nat>>, leaf: nat, x: nat)
    requires |rows| == 1 && Whole(nodes, rows, 0) && rows[0] != [] && rows[0][0] == leaf && leaf in nodes
    requires x < |nodes[leaf].recs|
    ensures |nodes[leaf].recs| == 1 ==>
      Contents(SetRecs(nodes, leaf, Del(nodes[leaf].recs, x)), rows) == [] && rows[0] == [leaf]
  {
    hide Flat, WF;
    SingleRoot(nodes, rows, 0);
    assert rows[0] == [leaf];
    FlatOne(SetRecs(nodes, leaf, Del(nodes[leaf].recs, x)), leaf);
  }

  /** A rebalanced tree is well formed exactly when no leaf is empty. */
  lemma RebalancedOk(nodes: Img, rows: seq<seq<nat>>, h: TreeHeader, e: int)
    requires rows != [] && Whole(nodes, rows, e) && HeaderOk(rows, h) && RootOk(nodes, rows)
    ensures TreeOk(nodes, rows, h) <==> AllFull(nodes, rows[|rows| - 1])
  {
    hide Flat, WF;
    if AllFull(nodes, rows[|rows| - 1]) {
      AnyStandIn(nodes, rows, e, 0);
    }
  }
}
