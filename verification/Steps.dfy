/** The steps of the engine as edits of the node image, and their effect on the structural invariant.

    Splitting takes a node's upper records into a new right neighbour; the new node is then linked into
    its parent. Merging is the reverse: the right node is unlinked from the parent, then folded into its
    left neighbour. A rotation unlinks a node, shifts a record over the boundary, and links it again. */
module Steps {
  import opened Nodes
  import opened Rows
  import opened Edits

  function Off(nodes: Img, s: seq<nat>, i: nat): nat
    requires i <= |s|
  {
    |Flat(nodes, s[..i])|
  }

  function Ins<T>(s: seq<T>, q: nat, n: T): seq<T>
    requires q <= |s|
  {
    s[..q] + [n] + s[q..]
  }

  function Del<T>(s: seq<T>, q: nat): seq<T>
    requires q < |s|
  {
    s[..q] + s[q + 1..]
  }

  /** Record `j` of node `i` names the node at position `Off + j` of the row below. */
  lemma KidAt(nodes: Img, c: seq<Rec>, up: seq<nat>, down: seq<nat>, e: int, i: nat, j: nat)
    requires IndexRow(nodes, c, up, down, e)
    requires i < |up| && j < |Recs(nodes, up[i])|
    ensures Off(nodes, up, i) + j < |down| == |Flat(nodes, up)|
    ensures Flat(nodes, up)[Off(nodes, up, i) + j] == Recs(nodes, up[i])[j]
    ensures down[Off(nodes, up, i) + j] == Kid(Recs(nodes, up[i])[j])
    ensures Tight(c, Recs(nodes, up[i])[j].key, Head(nodes, Kid(Recs(nodes, up[i])[j]), e))
  {
    hide Flat, Tight, Head;
    FlatAt(nodes, up, i);
    assert down[Off(nodes, up, i) + j] == Kid(Flat(nodes, up)[Off(nodes, up, i) + j]);
  }

  /** Nodes of different rows differ. */
  lemma RowsApart(nodes: Img, rows: seq<seq<nat>>, d: nat, k: nat)
    requires Levels(nodes, rows) && d < |rows| && k < |rows| && d != k
    ensures forall i :: 0 <= i < |rows[d]| ==> rows[d][i] !in rows[k]
  {
    assert Level(nodes, rows[d], |rows| - d) && Level(nodes, rows[k], |rows| - k);
    forall i | 0 <= i < |rows[d]| ensures rows[d][i] !in rows[k] {
      assert NodeAt(nodes, rows[d][i], |rows| - d);
      assert forall j :: 0 <= j < |rows[k]| ==> NodeAt(nodes, rows[k][j], |rows| - k);
    }
  }

  /** The structural invariant of a tree at rest: the index levels name the rows themselves. */
  ghost predicate Whole(nodes: Img, rows: seq<seq<nat>>, e: int) {
    WF(nodes, rows, rows, e)
  }

  /** Node `q + 1` of row `d` is in its chain, but no index record names it. */
  ghost predicate Pending(nodes: Img, rows: seq<seq<nat>>, e: int, d: nat, q: nat) {
    && d < |rows| && q + 1 < |rows[d]|
    && WF(nodes, rows, rows[d := Del(rows[d], q + 1)], e)
  }

  // ---- split ----

  /** `splitLeaf` and `splitIndex`: records from `m` on move to the new node `r`, spliced in after `n`. */
  function SplitImg(nodes: Img, n: nat, r: nat, m: nat): Img
    requires n in nodes && m <= |nodes[n].recs|
  {
    var nd := nodes[n];
    var f := nd.flink;
    var relinked := if f in nodes && f != 0 then nodes[f := nodes[f].(blink := r)] else nodes;
    relinked[n := nd.(flink := r, recs := nd.recs[..m])][r := Node(nd.kind, nd.height, f, n, nd.recs[m..])]
  }

  /** What `SplitImg` does to the nodes of a row, node by node. */
  ghost predicate SplitOf(nodes: Img, nodes': Img, s: seq<nat>, q: nat, r: nat, m: nat)
    requires q < |s| && s[q] in nodes && m <= |nodes[s[q]].recs|
  {
    var nd := nodes[s[q]];
    && r in nodes' && s[q] in nodes'
    && nodes'[s[q]] == nd.(flink := r, recs := nd.recs[..m])
    && nodes'[r] == Node(nd.kind, nd.height, nd.flink, s[q], nd.recs[m..])
    && (forall j :: 0 <= j < |s| && j != q ==> s[j] in nodes && s[j] in nodes')
    && (q + 1 < |s| ==> nodes'[s[q + 1]] == nodes[s[q + 1]].(blink := r))
    && (forall j :: 0 <= j < |s| && j != q && j != q + 1 ==> nodes'[s[j]] == nodes[s[j]])
  }

  lemma SplitImgOf(nodes: Img, s: seq<nat>, h: nat, q: nat, r: nat, m: nat)
    requires Level(nodes, s, h) && q < |s| && r != 0 && r !in s && m <= |nodes[s[q]].recs|
    ensures SplitOf(nodes, SplitImg(nodes, s[q], r, m), s, q, r, m)
    ensures forall n: nat :: n in nodes && n !in s && n != r ==>
      n in SplitImg(nodes, s[q], r, m) && SplitImg(nodes, s[q], r, m)[n] == nodes[n]
  {
    assert forall j :: 0 <= j < |s| ==> NodeAt(nodes, s[j], h);
    assert LinksAt(nodes, s, q);
    assert forall j :: 0 <= j < |s| && j != q ==> s[j] != s[q];
    if q + 1 < |s| {
      assert forall j :: 0 <= j < |s| && j != q + 1 ==> s[j] != s[q + 1];
    }
  }

  lemma SplitNodes(nodes: Img, nodes': Img, s: seq<nat>, h: nat, q: nat, r: nat, m: nat)
    requires Level(nodes, s, h) && q < |s| && r != 0
    requires 0 < m < |nodes[s[q]].recs|
    requires SplitOf(nodes, nodes', s, q, r, m)
    ensures var t := Ins(s, q + 1, r); forall k :: 0 <= k < |t| ==> NodeAt(nodes', t[k], h)
  {
    var t := Ins(s, q + 1, r);
    assert NodeAt(nodes, s[q], h);
    forall k | 0 <= k < |t| ensures NodeAt(nodes', t[k], h) {
      if k == q + 1 {
        assert t[k] == r;
      } else {
        var j := if k <= q then k else k - 1;
        assert t[k] == s[j] && NodeAt(nodes, s[j], h);
      }
    }
  }

  lemma SplitLevel(nodes: Img, nodes': Img, s: seq<nat>, h: nat, q: nat, r: nat, m: nat)
    requires Level(nodes, s, h) && q < |s| && r != 0 && r !in s
    requires 0 < m < |nodes[s[q]].recs|
    requires SplitOf(nodes, nodes', s, q, r, m)
    ensures Level(nodes', Ins(s, q + 1, r), h)
  {
    var t := Ins(s, q + 1, r);
    SplitNodes(nodes, nodes', s, h, q, r, m);
    hide NodeAt;
    assert LinksAt(nodes, s, q);
    forall k | 0 <= k < |t| ensures LinksAt(nodes', t, k) {
      if k == q + 1 {
        assert t[k] == r;
      } else {
        var j := if k <= q then k else k - 1;
        assert t[k] == s[j] && LinksAt(nodes, s, j);
      }
    }
  }

  lemma SplitFlat(nodes: Img, nodes': Img, s: seq<nat>, h: nat, q: nat, r: nat, m: nat)
    requires Level(nodes, s, h) && q < |s| && r != 0 && r !in s
    requires m <= |nodes[s[q]].recs|
    requires SplitOf(nodes, nodes', s, q, r, m)
    ensures Flat(nodes', Ins(s, q + 1, r)) == Flat(nodes, s)
  {
    hide Flat;
    var n, a, b := s[q], s[..q], s[q + 1..];
    FlatAt(nodes, s, q);
    FlatParts(nodes', a, [n, r], b);
    FlatTwo(nodes', n, r);
    FlatSame(nodes, nodes', a);
    FlatSame(nodes, nodes', b);
    assert Ins(s, q + 1, r) == a + [n, r] + b;
    assert nodes[n].recs == nodes[n].recs[..m] + nodes[n].recs[m..];
  }

  /** An image that changed only in row `d`, and at a node of no row, agrees with the old one on every other row. */
  lemma OtherRowsAgree(nodes: Img, nodes': Img, rows: seq<seq<nat>>, d: nat, r: nat)
    requires Levels(nodes, rows) && d < |rows|
    requires r in rows[d] || !InRows(rows, r)
    requires forall n: nat :: n in nodes && n !in rows[d] && n != r ==> n in nodes' && nodes'[n] == nodes[n]
    ensures forall k :: 0 <= k < |rows| && k != d ==> Agree(nodes, nodes', rows[k])
  {
    forall k | 0 <= k < |rows| && k != d ensures Agree(nodes, nodes', rows[k]) {
      RowsApart(nodes, rows, k, d);
      assert Level(nodes, rows[k], |rows| - k);
      forall j | 0 <= j < |rows[k]|
        ensures rows[k][j] in nodes && rows[k][j] in nodes' && nodes'[rows[k][j]] == nodes[rows[k][j]] {
        assert NodeAt(nodes, rows[k][j], |rows| - k);
        assert rows[k][j] in rows[k];
      }
    }
  }

  lemma SplitRow(nodes: Img, nodes': Img, s: seq<nat>, h: nat, q: nat, r: nat, m: nat, e: int)
    requires Level(nodes, s, h) && q < |s| && r != 0 && r !in s && 0 < m < |nodes[s[q]].recs|
    requires nodes' == SplitImg(nodes, s[q], r, m)
    ensures Level(nodes', Ins(s, q + 1, r), h) && Flat(nodes', Ins(s, q + 1, r)) == Flat(nodes, s)
    ensures forall n: nat :: n in nodes && n !in s && n != r ==> n in nodes' && nodes'[n] == nodes[n]
    ensures forall j :: 0 <= j < |s| ==> Head(nodes', s[j], e) == Head(nodes, s[j], e)
  {
    hide Flat;
    SplitImgOf(nodes, s, h, q, r, m);
    SplitLevel(nodes, nodes', s, h, q, r, m);
    SplitFlat(nodes, nodes', s, h, q, r, m);
  }

  lemma SplitStep(nodes: Img, rows: seq<seq<nat>>, e: int, d: nat, q: nat, r: nat, m: nat)
    requires Whole(nodes, rows, e) && d < |rows| && q < |rows[d]|
    requires r != 0 && !InRows(rows, r)
    requires 0 < m < |Recs(nodes, rows[d][q])|
    ensures var nodes' := SplitImg(nodes, rows[d][q], r, m);
      && Pending(nodes', rows[d := Ins(rows[d], q + 1, r)], e, d, q)
      && Contents(nodes', rows[d := Ins(rows[d], q + 1, r)]) == Contents(nodes, rows)
  {
    hide Flat, Level, Head, SplitImg, Contents, Indexed;
    var s := rows[d];
    var nodes' := SplitImg(nodes, s[q], r, m);
    assert Level(nodes, s, |rows| - d);
    assert r !in s;
    SplitRow(nodes, nodes', s, |rows| - d, q, r, m, e);
    OtherRowsAgree(nodes, nodes', rows, d, r);
    assert RowEditOk(nodes, nodes', rows, rows, e, d, Ins(s, q + 1, r));
    RowEdit(nodes, nodes', rows, rows, e, d, Ins(s, q + 1, r));
    assert Del(Ins(s, q + 1, r), q + 1) == s;
    var rows' := rows[d := Ins(s, q + 1, r)];
    assert rows'[d := Del(rows'[d], q + 1)] == rows;
  }

  // ---- fold ----

  /** `merge`, at the level of the two siblings: `r`'s records move into `l`, `r` leaves the chain and is erased. */
  function FoldImg(nodes: Img, l: nat, r: nat): Img
    requires l in nodes && r in nodes
  {
    var f := nodes[r].flink;
    var relinked := if f in nodes && f != 0 then nodes[f := nodes[f].(blink := l)] else nodes;
    relinked[l := nodes[l].(flink := f, recs := nodes[l].recs + nodes[r].recs)][r := Erased]
  }

  /** What `FoldImg` does to the nodes of a row, node by node. */
  ghost predicate FoldOf(nodes: Img, nodes': Img, s: seq<nat>, q: nat)
    requires q + 1 < |s| && s[q] in nodes && s[q + 1] in nodes
  {
    && (forall j :: 0 <= j < |s| ==> s[j] in nodes && s[j] in nodes')
    && nodes'[s[q]] == nodes[s[q]].(flink := nodes[s[q + 1]].flink, recs := nodes[s[q]].recs + nodes[s[q + 1]].recs)
    && (q + 2 < |s| ==> nodes'[s[q + 2]] == nodes[s[q + 2]].(blink := s[q]))
    && (forall j :: 0 <= j < |s| && (j < q || q + 2 < j) ==> nodes'[s[j]] == nodes[s[j]])
  }

  lemma FoldImgOf(nodes: Img, s: seq<nat>, h: nat, q: nat)
    requires Level(nodes, s, h) && q + 1 < |s|
    ensures FoldOf(nodes, FoldImg(nodes, s[q], s[q + 1]), s, q)
    ensures forall n: nat :: n in nodes && n !in s ==>
      n in FoldImg(nodes, s[q], s[q + 1]) && FoldImg(nodes, s[q], s[q + 1])[n] == nodes[n]
  {
    assert forall j :: 0 <= j < |s| ==> NodeAt(nodes, s[j], h);
    assert forall j :: 0 <= j < |s| && j != q ==> s[j] != s[q];
    assert forall j :: 0 <= j < |s| && j != q + 1 ==> s[j] != s[q + 1];
    assert LinksAt(nodes, s, q + 1);
    if q + 2 < |s| {
      assert forall j :: 0 <= j < |s| && j != q + 2 ==> s[j] != s[q + 2];
    }
  }

  lemma FoldNodes(nodes: Img, nodes': Img, s: seq<nat>, h: nat, q: nat)
    requires Level(nodes, s, h) && q + 1 < |s| && FoldOf(nodes, nodes', s, q)
    ensures var t := Del(s, q + 1); forall k :: 0 <= k < |t| ==> NodeAt(nodes', t[k], h)
  {
    var t := Del(s, q + 1);
    assert NodeAt(nodes, s[q], h) && NodeAt(nodes, s[q + 1], h);
    forall k | 0 <= k < |t| ensures NodeAt(nodes', t[k], h) {
      var j := if k <= q then k else k + 1;
      assert t[k] == s[j] && NodeAt(nodes, s[j], h);
    }
  }

  lemma FoldLinks(nodes: Img, nodes': Img, s: seq<nat>, q: nat)
    requires Chain(nodes, s) && q + 1 < |s| && s[q] in nodes && s[q + 1] in nodes && FoldOf(nodes, nodes', s, q)
    ensures Chain(nodes', Del(s, q + 1))
  {
    var t := Del(s, q + 1);
    assert LinksAt(nodes, s, q) && LinksAt(nodes, s, q + 1);
    forall k | 0 <= k < |t| ensures LinksAt(nodes', t, k) {
      var j := if k <= q then k else k + 1;
      assert t[k] == s[j] && LinksAt(nodes, s, j);
    }
  }

  lemma FoldLevel(nodes: Img, nodes': Img, s: seq<nat>, h: nat, q: nat)
    requires Level(nodes, s, h) && q + 1 < |s| && FoldOf(nodes, nodes', s, q)
    ensures Level(nodes', Del(s, q + 1), h)
  {
    FoldNodes(nodes, nodes', s, h, q);
    FoldLinks(nodes, nodes', s, q);
    hide NodeAt, Chain, FoldOf;
  }

  lemma FoldFlat(nodes: Img, nodes': Img, s: seq<nat>, h: nat, q: nat)
    requires Level(nodes, s, h) && q + 1 < |s| && FoldOf(nodes, nodes', s, q)
    ensures Flat(nodes', Del(s, q + 1)) == Flat(nodes, s)
  {
    hide Flat;
    var l, r, a, b := s[q], s[q + 1], s[..q], s[q + 2..];
    FlatParts(nodes, a, [l, r], b);
    FlatTwo(nodes, l, r);
    FlatParts(nodes', a, [l], b);
    FlatOne(nodes', l);
    FlatSame(nodes, nodes', a);
    FlatSame(nodes, nodes', b);
    assert s == a + [l, r] + b;
    assert Del(s, q + 1) == a + [l] + b;
  }

  lemma FoldRow(nodes: Img, nodes': Img, s: seq<nat>, h: nat, q: nat, c: seq<Rec>, e: int)
    requires Level(nodes, s, h) && q + 1 < |s| && s[q] in nodes && s[q + 1] in nodes
    requires nodes' == FoldImg(nodes, s[q], s[q + 1])
    requires Recs(nodes, s[q]) == [] ==> Tight(c, e, Head(nodes, s[q + 1], e))
    ensures Level(nodes', Del(s, q + 1), h) && Flat(nodes', Del(s, q + 1)) == Flat(nodes, s)
    ensures forall n: nat :: n in nodes && n !in s ==> n in nodes' && nodes'[n] == nodes[n]
    ensures var t := Del(s, q + 1); forall j :: 0 <= j < |t| ==> Tight(c, Head(nodes, t[j], e), Head(nodes', t[j], e))
  {
    hide Flat;
    FoldImgOf(nodes, s, h, q);
    FoldLevel(nodes, nodes', s, h, q);
    FoldFlat(nodes, nodes', s, h, q);
    var t := Del(s, q + 1);
    forall j | 0 <= j < |t| ensures Tight(c, Head(nodes, t[j], e), Head(nodes', t[j], e)) {
      assert t[j] == (if j <= q then s[j] else s[j + 1]);
    }
  }

  lemma FoldStep(nodes: Img, rows: seq<seq<nat>>, e: int, d: nat, q: nat)
    requires Pending(nodes, rows, e, d, q)
    requires Recs(nodes, rows[d][q]) == [] ==> Tight(Contents(nodes, rows), e, Head(nodes, rows[d][q + 1], e))
    ensures rows[d][q] in nodes && rows[d][q + 1] in nodes
    ensures var nodes', below := FoldImg(nodes, rows[d][q], rows[d][q + 1]), rows[d := Del(rows[d], q + 1)];
      && Whole(nodes', below, e)
      && Contents(nodes', below) == Contents(nodes, rows)
  {
    hide Flat, Contents, Head, FoldImg, Indexed, Tight;
    var s := rows[d];
    var t := Del(s, q + 1);
    var below := rows[d := t];
    assert Level(nodes, s, |rows| - d);
    assert NodeAt(nodes, s[q], |rows| - d) && NodeAt(nodes, s[q + 1], |rows| - d);
    hide Level;
    var nodes' := FoldImg(nodes, s[q], s[q + 1]);
    FoldRow(nodes, nodes', s, |rows| - d, q, Contents(nodes, rows), e);
    OtherRowsAgree(nodes, nodes', rows, d, s[q]);
    assert RowEditOk(nodes, nodes', rows, below, e, d, t);
    RowEdit(nodes, nodes', rows, below, e, d, t);
  }

  // ---- shift ----

  /** A rotation, at the level of the two siblings: `ls` and `rs` redistribute their records. */
  function ShiftImg(nodes: Img, l: nat, r: nat, ls: seq<Rec>, rs: seq<Rec>): Img
    requires l in nodes && r in nodes
  {
    nodes[l := nodes[l].(recs := ls)][r := nodes[r].(recs := rs)]
  }

  lemma ShiftLevel(nodes: Img, s: seq<nat>, h: nat, q: nat, ls: seq<Rec>, rs: seq<Rec>)
    requires Level(nodes, s, h) && q + 1 < |s| && s[q] in nodes && s[q + 1] in nodes
    requires ls != [] && rs != [] && ls + rs == Recs(nodes, s[q]) + Recs(nodes, s[q + 1])
    ensures Level(ShiftImg(nodes, s[q], s[q + 1], ls, rs), s, h)
  {
    var nodes' := ShiftImg(nodes, s[q], s[q + 1], ls, rs);
    assert NodeAt(nodes, s[q], h) && NodeAt(nodes, s[q + 1], h);
    var all := Recs(nodes, s[q]) + Recs(nodes, s[q + 1]);
    assert h > 1 ==> forall i :: 0 <= i < |all| ==> all[i].data.Child?;
    assert forall i :: 0 <= i < |ls| ==> ls[i] == all[i];
    assert forall i :: 0 <= i < |rs| ==> rs[i] == all[|ls| + i];
    forall k | 0 <= k < |s| ensures NodeAt(nodes', s[k], h) && LinksAt(nodes', s, k) {
      assert NodeAt(nodes, s[k], h) && LinksAt(nodes, s, k);
    }
  }

  lemma ShiftFlat(nodes: Img, s: seq<nat>, h: nat, q: nat, ls: seq<Rec>, rs: seq<Rec>)
    requires Level(nodes, s, h) && q + 1 < |s| && s[q] in nodes && s[q + 1] in nodes
    requires ls + rs == Recs(nodes, s[q]) + Recs(nodes, s[q + 1])
    ensures Flat(ShiftImg(nodes, s[q], s[q + 1], ls, rs), s) == Flat(nodes, s)
  {
    hide Flat;
    var nodes' := ShiftImg(nodes, s[q], s[q + 1], ls, rs);
    var l, r, a, b := s[q], s[q + 1], s[..q], s[q + 2..];
    assert l != r;
    assert s == a + [l, r] + b;
    FlatParts(nodes, a, [l, r], b);
    FlatTwo(nodes, l, r);
    FlatParts(nodes', a, [l, r], b);
    FlatTwo(nodes', l, r);
    FlatSame(nodes, nodes', a);
    FlatSame(nodes, nodes', b);
  }

  lemma ShiftRow(nodes: Img, nodes': Img, s: seq<nat>, h: nat, q: nat, ls: seq<Rec>, rs: seq<Rec>, e: int)
    requires Level(nodes, s, h) && q + 1 < |s| && s[q] in nodes && s[q + 1] in nodes
    requires ls != [] && rs != [] && Recs(nodes, s[q]) != []
    requires ls + rs == Recs(nodes, s[q]) + Recs(nodes, s[q + 1])
    requires nodes' == ShiftImg(nodes, s[q], s[q + 1], ls, rs)
    ensures Level(nodes', s, h) && Flat(nodes', s) == Flat(nodes, s)
    ensures forall n: nat :: n in nodes && n !in s ==> n in nodes' && nodes'[n] == nodes[n]
    ensures var t := Del(s, q + 1); forall j :: 0 <= j < |t| ==> Head(nodes', t[j], e) == Head(nodes, t[j], e)
  {
    hide Flat;
    ShiftLevel(nodes, s, h, q, ls, rs);
    ShiftFlat(nodes, s, h, q, ls, rs);
    assert ls[0] == (ls + rs)[0] == Recs(nodes, s[q])[0];
    var t := Del(s, q + 1);
    forall j | 0 <= j < |t| ensures Head(nodes', t[j], e) == Head(nodes, t[j], e) {
      assert t[j] == (if j <= q then s[j] else s[j + 1]) && t[j] != s[q + 1];
    }
  }

  lemma ShiftStep(nodes: Img, rows: seq<seq<nat>>, e: int, d: nat, q: nat, ls: seq<Rec>, rs: seq<Rec>)
    requires Pending(nodes, rows, e, d, q)
    requires ls != [] && rs != [] && ls + rs == Recs(nodes, rows[d][q]) + Recs(nodes, rows[d][q + 1])
    requires Recs(nodes, rows[d][q]) != []
    ensures rows[d][q] in nodes && rows[d][q + 1] in nodes
    ensures var nodes' := ShiftImg(nodes, rows[d][q], rows[d][q + 1], ls, rs);
      && Pending(nodes', rows, e, d, q)
      && Contents(nodes', rows) == Contents(nodes, rows)
  {
    hide Flat, Contents, Head, ShiftImg, Indexed;
    var s := rows[d];
    var below := rows[d := Del(s, q + 1)];
    assert Level(nodes, s, |rows| - d);
    assert NodeAt(nodes, s[q], |rows| - d) && NodeAt(nodes, s[q + 1], |rows| - d);
    hide Level;
    var nodes' := ShiftImg(nodes, s[q], s[q + 1], ls, rs);
    ShiftRow(nodes, nodes', s, |rows| - d, q, ls, rs, e);
    OtherRowsAgree(nodes, nodes', rows, d, s[q]);
    assert RowEditOk(nodes, nodes', rows, below, e, d, s);
    RowEdit(nodes, nodes', rows, below, e, d, s);
    assert rows[d := s] == rows;
  }

  // ---- link, unlink, refresh ----

  /** Every record of an index node names a node of the next row, tightly. */
  lemma RecordsTight(nodes: Img, rows: seq<seq<nat>>, below: seq<seq<nat>>, e: int, d: nat, i: nat)
    requires WF(nodes, rows, below, e) && d < |rows| - 1 && i < |rows[d]|
    ensures NodeAt(nodes, rows[d][i], |rows| - d) && Recs(nodes, rows[d][i]) != []
    ensures var rs := Recs(nodes, rows[d][i]);
      forall j :: 0 <= j < |rs| ==>
        && rs[j].data.Child?
        && Tight(Contents(nodes, rows), rs[j].key, Head(nodes, rs[j].data.num, e))
        && Off(nodes, rows[d], i) + j < |below[d + 1]|
        && rs[j].data.num == below[d + 1][Off(nodes, rows[d], i) + j]
    ensures Named(nodes, rows[d], i, Recs(nodes, rows[d][i])) == below[d + 1]
  {
    hide Flat;
    var c := Contents(nodes, rows);
    assert Level(nodes, rows[d], |rows| - d);
    assert NodeAt(nodes, rows[d][i], |rows| - d);
    assert IndexRow(nodes, c, rows[d], below[d + 1], e);
    var rs := Recs(nodes, rows[d][i]);
    forall j | 0 <= j < |rs|
      ensures rs[j].data.Child? && Tight(c, rs[j].key, Head(nodes, rs[j].data.num, e))
      ensures Off(nodes, rows[d], i) + j < |below[d + 1]| && rs[j].data.num == below[d + 1][Off(nodes, rows[d], i) + j]
    {
      KidAt(nodes, c, rows[d], below[d + 1], e, i, j);
    }
    var fa, fb := Flat(nodes, rows[d][..i]), Flat(nodes, rows[d][i + 1..]);
    FlatAt(nodes, rows[d], i);
    KidsCat(fa + rs, fb);
    KidsCat(fa, rs);
  }

  lemma KidsIns(rs: seq<Rec>, j: nat, r: Rec)
    requires j <= |rs|
    ensures Kids(Ins(rs, j, r)) == Ins(Kids(rs), j, Kid(r))
  {
  }

  lemma KidsDel(rs: seq<Rec>, j: nat)
    requires j < |rs|
    ensures Kids(Del(rs, j)) == Del(Kids(rs), j)
  {
  }

  lemma ApartBelow(nodes: Img, rows: seq<seq<nat>>, d: nat, i: nat)
    requires Levels(nodes, rows) && d < |rows| && i < |rows[d]|
    ensures forall k :: d < k < |rows| ==> rows[d][i] !in rows[k]
  {
    forall k | d < k < |rows| ensures rows[d][i] !in rows[k] {
      RowsApart(nodes, rows, d, k);
    }
  }

  lemma InsMid<T>(a: seq<T>, m: seq<T>, b: seq<T>, j: nat, x: T)
    requires j <= |m|
    ensures a + Ins(m, j, x) + b == Ins(a + m + b, |a| + j, x)
  {
  }

  lemma DelMid<T>(a: seq<T>, m: seq<T>, b: seq<T>, j: nat)
    requires j < |m|
    ensures a + Del(m, j) + b == Del(a + m + b, |a| + j)
  {
  }

  ghost predicate Within(s: seq<nat>, t: seq<nat>) {
    forall m :: 0 <= m < |s| ==> s[m] in t
  }

  /** A record that may stand in row `d`: it names a node of the next row, tightly. */
  ghost predicate Leads(nodes: Img, rows: seq<seq<nat>>, e: int, d: nat, r: Rec)
    requires d < |rows| - 1
  {
    r.data.Child? && Kid(r) in rows[d + 1] && Tight(Contents(nodes, rows), r.key, Head(nodes, Kid(r), e))
  }

  ghost predicate AllLead(nodes: Img, rows: seq<seq<nat>>, e: int, d: nat, rs: seq<Rec>)
    requires d < |rows| - 1
  {
    forall m :: 0 <= m < |rs| ==> Leads(nodes, rows, e, d, rs[m])
  }

  /** The records of an index node lead, when the index names nodes of the row below only. */
  lemma RecordsLead(nodes: Img, rows: seq<seq<nat>>, below: seq<seq<nat>>, e: int, d: nat, i: nat)
    requires WF(nodes, rows, below, e) && d < |rows| - 1 && i < |rows[d]| && Within(below[d + 1], rows[d + 1])
    ensures Recs(nodes, rows[d][i]) != [] && AllLead(nodes, rows, e, d, Recs(nodes, rows[d][i]))
    ensures Off(nodes, rows[d], i) + |Recs(nodes, rows[d][i])| <= |below[d + 1]|
    ensures Named(nodes, rows[d], i, Recs(nodes, rows[d][i])) == below[d + 1]
  {
    hide Flat, Named, Off, Contents, Tight, Head, Level, IndexRow, Asc;
    var rs := Recs(nodes, rows[d][i]);
    RecordsTight(nodes, rows, below, e, d, i);
    forall j | 0 <= j < |rs| ensures Leads(nodes, rows, e, d, rs[j]) {
      assert rs[j].data.Child? && Off(nodes, rows[d], i) + j < |below[d + 1]|;
      assert below[d + 1][Off(nodes, rows[d], i) + j] in rows[d + 1];
    }
    assert rs[|rs| - 1].data.Child? && Off(nodes, rows[d], i) + (|rs| - 1) < |below[d + 1]|;
  }

  lemma DelWithin(s: seq<nat>, q: nat)
    requires q < |s|
    ensures Within(Del(s, q), s)
  {
    forall m | 0 <= m < |Del(s, q)| ensures Del(s, q)[m] in s {
      assert Del(s, q)[m] == s[if m < q then m else m + 1];
    }
  }

  /** `rs` may stand at node `i` of row `d`, naming `s` below. */
  ghost predicate Renames(nodes: Img, rows: seq<seq<nat>>, e: int, d: nat, i: nat, rs: seq<Rec>, s: seq<nat>)
    requires d < |rows| - 1 && i < |rows[d]| && Recs(nodes, rows[d][i]) != []
  {
    && IndexEditOk(nodes, rows, e, d, i, rs)
    && (forall m :: 0 <= m < |rs| ==> Kid(rs[m]) in rows[d + 1])
    && Named(nodes, rows[d], i, rs) == s
    && Within(s, rows[d + 1])
  }

  lemma Rename(nodes: Img, rows: seq<seq<nat>>, below: seq<seq<nat>>, e: int, d: nat, i: nat, rs: seq<Rec>, s: seq<nat>)
    requires WF(nodes, rows, below, e) && d < |rows| - 1 && i < |rows[d]|
    requires forall k :: 0 <= k < |rows| && k != d + 1 ==> below[k] == rows[k]
    requires Within(below[d + 1], rows[d + 1])
    requires Recs(nodes, rows[d][i]) != [] && Renames(nodes, rows, e, d, i, rs, s)
    ensures rows[d][i] in nodes
    ensures WF(SetRecs(nodes, rows[d][i], rs), rows, below[d + 1 := s], e)
    ensures Contents(SetRecs(nodes, rows[d][i], rs), rows) == Contents(nodes, rows)
  {
    hide Flat, Level, IndexRow, Contents, IndexEditOk;
    ApartBelow(nodes, rows, d, i);
    forall k | d < k < |rows| ensures rows[d][i] !in below[k] {
      var b := below[k];
      assert Within(b, rows[k]);
    }
    forall m | 0 <= m < |rs| ensures Kids(rs)[m] != rows[d][i] {
      assert Kid(rs[m]) in rows[d + 1];
    }
    IndexEdit(nodes, rows, below, e, d, i, rs);
  }

  lemma LinkKids(fa: seq<Rec>, was: seq<Rec>, fb: seq<Rec>, s: seq<nat>, j: nat, x: Rec)
    requires j < |was| && |fa| + j + 1 < |s| && Kid(x) == s[|fa| + j + 1]
    requires Kids(fa) + Kids(was) + Kids(fb) == Del(s, |fa| + j + 1)
    ensures Kids(fa) + Kids(Ins(was, j + 1, x)) + Kids(fb) == s
  {
    KidsIns(was, j + 1, x);
    assert |Kids(fa)| == |fa| && |Kids(was)| == |was|;
    hide Kids;
    InsMid(Kids(fa), Kids(was), Kids(fb), j + 1, Kid(x));
    InsDel(s, |fa| + j + 1);
  }

  lemma UnlinkKids(fa: seq<Rec>, was: seq<Rec>, fb: seq<Rec>, s: seq<nat>, j: nat)
    requires j < |was| && |fa| + j < |s| && Kids(fa) + Kids(was) + Kids(fb) == s
    ensures Kids(fa) + Kids(Del(was, j)) + Kids(fb) == Del(s, |fa| + j)
  {
    KidsDel(was, j);
    assert |Kids(fa)| == |fa| && |Kids(was)| == |was|;
    hide Kids;
    DelMid(Kids(fa), Kids(was), Kids(fb), j);
  }

  /** Where the new index record goes, the row below gains the pending node. */
  lemma LinkNamed(nodes: Img, up: seq<nat>, s: seq<nat>, i: nat, j: nat, x: Rec)
    requires i < |up| && j < |Recs(nodes, up[i])| && Off(nodes, up, i) + j + 1 < |s|
    requires Named(nodes, up, i, Recs(nodes, up[i])) == Del(s, Off(nodes, up, i) + j + 1)
    requires Kid(x) == s[Off(nodes, up, i) + j + 1]
    ensures Named(nodes, up, i, Ins(Recs(nodes, up[i]), j + 1, x)) == s
  {
    hide Flat, Kids, Ins, Del;
    LinkKids(Flat(nodes, up[..i]), Recs(nodes, up[i]), Flat(nodes, up[i + 1..]), s, j, x);
  }

  lemma InsDel<T>(s: seq<T>, q: nat)
    requires q < |s|
    ensures Ins(Del(s, q), q, s[q]) == s
  {
  }

  lemma UnlinkNamed(nodes: Img, up: seq<nat>, s: seq<nat>, i: nat, j: nat)
    requires i < |up| && j < |Recs(nodes, up[i])| && Off(nodes, up, i) + j < |s|
    requires Named(nodes, up, i, Recs(nodes, up[i])) == s
    ensures Named(nodes, up, i, Del(Recs(nodes, up[i]), j)) == Del(s, Off(nodes, up, i) + j)
  {
    hide Flat, Kids, Del;
    UnlinkKids(Flat(nodes, up[..i]), Recs(nodes, up[i]), Flat(nodes, up[i + 1..]), s, j);
  }

  /** Records that lead, begin where the old ones did and name `s` may stand at node `i`. */
  lemma RenamesHere(nodes: Img, rows: seq<seq<nat>>, e: int, d: nat, i: nat, rs: seq<Rec>, s: seq<nat>)
    requires d < |rows| - 1 && i < |rows[d]| && Recs(nodes, rows[d][i]) != []
    requires rs != [] && AllLead(nodes, rows, e, d, rs)
    requires Tight(Contents(nodes, rows), Recs(nodes, rows[d][i])[0].key, rs[0].key)
    requires Named(nodes, rows[d], i, rs) == s && Within(s, rows[d + 1])
    ensures Renames(nodes, rows, e, d, i, rs, s)
  {
    hide Flat, Contents, Tight, Head, Named;
    assert forall m :: 0 <= m < |rs| ==> Leads(nodes, rows, e, d, rs[m]);
  }

  lemma LinkRenames(nodes: Img, rows: seq<seq<nat>>, e: int, d: nat, i: nat, j: nat)
    requires d < |rows| - 1 && i < |rows[d]| && j < |Recs(nodes, rows[d][i])|
    requires Pending(nodes, rows, e, d + 1, Off(nodes, rows[d], i) + j)
    requires Recs(nodes, rows[d + 1][Off(nodes, rows[d], i) + j + 1]) != []
    ensures var r := rows[d + 1][Off(nodes, rows[d], i) + j + 1];
      Renames(nodes, rows, e, d, i, Ins(Recs(nodes, rows[d][i]), j + 1, IndexRec(Recs(nodes, r)[0], r)), rows[d + 1])
  {
    hide Flat, Contents, WF, Named, Off, Renames, AllLead, Leads;
    var q := Off(nodes, rows[d], i) + j;
    var s := rows[d + 1];
    var r := s[q + 1];
    var was := Recs(nodes, rows[d][i]);
    var x := IndexRec(Recs(nodes, r)[0], r);
    DelWithin(s, q + 1);
    RecordsLead(nodes, rows, rows[d + 1 := Del(s, q + 1)], e, d, i);
    LinkNamed(nodes, rows[d], s, i, j, x);
    HeadLeads(nodes, rows, e, d, r);
    AllLeadIns(nodes, rows, e, d, was, j + 1, x);
    RenamesHere(nodes, rows, e, d, i, Ins(was, j + 1, x), s);
  }

  /** The index record made from a node's first record leads to it. */
  lemma HeadLeads(nodes: Img, rows: seq<seq<nat>>, e: int, d: nat, n: nat)
    requires d < |rows| - 1 && n in rows[d + 1] && Recs(nodes, n) != []
    ensures Leads(nodes, rows, e, d, IndexRec(Recs(nodes, n)[0], n))
  {
    hide Contents;
  }

  lemma AllLeadIns(nodes: Img, rows: seq<seq<nat>>, e: int, d: nat, rs: seq<Rec>, j: nat, x: Rec)
    requires d < |rows| - 1 && j <= |rs| && AllLead(nodes, rows, e, d, rs) && Leads(nodes, rows, e, d, x)
    ensures AllLead(nodes, rows, e, d, Ins(rs, j, x))
  {
    hide Leads;
    forall m | 0 <= m < |Ins(rs, j, x)| ensures Leads(nodes, rows, e, d, Ins(rs, j, x)[m]) {
      assert Ins(rs, j, x)[m] == if m < j then rs[m] else if m == j then x else rs[m - 1];
    }
  }

  /** Inserting the index record of the pending node, right after its left neighbour's, completes the tree. */
  lemma LinkStep(nodes: Img, rows: seq<seq<nat>>, e: int, d: nat, i: nat, j: nat)
    requires d < |rows| - 1 && i < |rows[d]| && j < |Recs(nodes, rows[d][i])|
    requires Pending(nodes, rows, e, d + 1, Off(nodes, rows[d], i) + j)
    requires Recs(nodes, rows[d + 1][Off(nodes, rows[d], i) + j + 1]) != []
    ensures rows[d][i] in nodes
    ensures var r := rows[d + 1][Off(nodes, rows[d], i) + j + 1];
      var rs := Ins(Recs(nodes, rows[d][i]), j + 1, IndexRec(Recs(nodes, r)[0], r));
      && Whole(SetRecs(nodes, rows[d][i], rs), rows, e)
      && Contents(SetRecs(nodes, rows[d][i], rs), rows) == Contents(nodes, rows)
  {
    hide Flat, WF, Renames, Contents;
    var q := Off(nodes, rows[d], i) + j;
    var s := rows[d + 1];
    var below := rows[d + 1 := Del(s, q + 1)];
    var x := IndexRec(Recs(nodes, s[q + 1])[0], s[q + 1]);
    LinkRenames(nodes, rows, e, d, i, j);
    Rename(nodes, rows, below, e, d, i, Ins(Recs(nodes, rows[d][i]), j + 1, x), s);
    assert below[d + 1 := s] == rows;
  }

  lemma AllLeadDel(nodes: Img, rows: seq<seq<nat>>, e: int, d: nat, rs: seq<Rec>, j: nat)
    requires d < |rows| - 1 && j < |rs| && AllLead(nodes, rows, e, d, rs)
    ensures AllLead(nodes, rows, e, d, Del(rs, j))
  {
    hide Leads;
    forall m | 0 <= m < |Del(rs, j)| ensures Leads(nodes, rows, e, d, Del(rs, j)[m]) {
      assert Del(rs, j)[m] == if m < j then rs[m] else rs[m + 1];
    }
  }

  lemma UnlinkRenames(nodes: Img, rows: seq<seq<nat>>, e: int, d: nat, i: nat, j: nat)
    requires Whole(nodes, rows, e) && d < |rows| - 1 && i < |rows[d]| && j + 1 < |Recs(nodes, rows[d][i])|
    ensures Off(nodes, rows[d], i) + j + 1 < |rows[d + 1]|
    ensures Renames(nodes, rows, e, d, i, Del(Recs(nodes, rows[d][i]), j + 1),
      Del(rows[d + 1], Off(nodes, rows[d], i) + j + 1))
  {
    hide Flat, Contents, WF, Named, Off, Renames, AllLead, Leads;
    var s := rows[d + 1];
    var was := Recs(nodes, rows[d][i]);
    RecordsLead(nodes, rows, rows, e, d, i);
    UnlinkNamed(nodes, rows[d], s, i, j + 1);
    AllLeadDel(nodes, rows, e, d, was, j + 1);
    DelWithin(s, Off(nodes, rows[d], i) + j + 1);
    RenamesHere(nodes, rows, e, d, i, Del(was, j + 1), Del(s, Off(nodes, rows[d], i) + j + 1));
  }

  /** Dropping the index record after record `j` leaves the node it named pending. */
  lemma UnlinkStep(nodes: Img, rows: seq<seq<nat>>, e: int, d: nat, i: nat, j: nat)
    requires Whole(nodes, rows, e) && d < |rows| - 1 && i < |rows[d]| && j + 1 < |Recs(nodes, rows[d][i])|
    ensures rows[d][i] in nodes
    ensures var rs := Del(Recs(nodes, rows[d][i]), j + 1);
      && Pending(SetRecs(nodes, rows[d][i], rs), rows, e, d + 1, Off(nodes, rows[d], i) + j)
      && Contents(SetRecs(nodes, rows[d][i], rs), rows) == Contents(nodes, rows)
  {
    hide Flat, WF, Renames, Contents;
    UnlinkRenames(nodes, rows, e, d, i, j);
    Rename(nodes, rows, rows, e, d, i, Del(Recs(nodes, rows[d][i]), j + 1),
      Del(rows[d + 1], Off(nodes, rows[d], i) + j + 1));
  }

  /** What a node names depends only on the children of its records. */
  lemma SameNamed(nodes: Img, s: seq<nat>, i: nat, rs: seq<Rec>, j: nat, x: Rec)
    requires i < |s| && j < |rs| && Kid(x) == Kid(rs[j])
    ensures Named(nodes, s, i, rs[j := x]) == Named(nodes, s, i, rs)
  {
    hide Flat;
    assert Kids(rs[j := x]) == Kids(rs);
  }

  lemma AllLeadSet(nodes: Img, rows: seq<seq<nat>>, e: int, d: nat, rs: seq<Rec>, j: nat, x: Rec)
    requires d < |rows| - 1 && j < |rs| && AllLead(nodes, rows, e, d, rs) && Leads(nodes, rows, e, d, x)
    ensures AllLead(nodes, rows, e, d, rs[j := x])
  {
    hide Leads;
  }

  lemma RefreshRenames(nodes: Img, rows: seq<seq<nat>>, e: int, d: nat, i: nat, j: nat)
    requires Whole(nodes, rows, e) && d < |rows| - 1 && i < |rows[d]| && j < |Recs(nodes, rows[d][i])|
    requires Recs(nodes, Kid(Recs(nodes, rows[d][i])[j])) != []
    ensures var k := Kid(Recs(nodes, rows[d][i])[j]);
      Renames(nodes, rows, e, d, i, Recs(nodes, rows[d][i])[j := IndexRec(Recs(nodes, k)[0], k)], rows[d + 1])
  {
    hide Flat, Contents, WF, Named, Off, Renames, AllLead;
    var was := Recs(nodes, rows[d][i]);
    var k := Kid(was[j]);
    var x := IndexRec(Recs(nodes, k)[0], k);
    RecordsLead(nodes, rows, rows, e, d, i);
    LeadAt(nodes, rows, e, d, was, j);
    HeadLeads(nodes, rows, e, d, k);
    SameNamed(nodes, rows[d], i, was, j, x);
    AllLeadSet(nodes, rows, e, d, was, j, x);
    RenamesHere(nodes, rows, e, d, i, was[j := x], rows[d + 1]);
  }

  lemma LeadAt(nodes: Img, rows: seq<seq<nat>>, e: int, d: nat, rs: seq<Rec>, j: nat)
    requires d < |rows| - 1 && j < |rs| && AllLead(nodes, rows, e, d, rs)
    ensures Leads(nodes, rows, e, d, rs[j])
  {
  }

  /** Rewriting an index record from the first record of the child it names. */
  lemma RefreshStep(nodes: Img, rows: seq<seq<nat>>, e: int, d: nat, i: nat, j: nat)
    requires Whole(nodes, rows, e) && d < |rows| - 1 && i < |rows[d]| && j < |Recs(nodes, rows[d][i])|
    requires Recs(nodes, Kid(Recs(nodes, rows[d][i])[j])) != []
    ensures rows[d][i] in nodes
    ensures var k := Kid(Recs(nodes, rows[d][i])[j]);
      var rs := Recs(nodes, rows[d][i])[j := IndexRec(Recs(nodes, k)[0], k)];
      && Whole(SetRecs(nodes, rows[d][i], rs), rows, e)
      && Contents(SetRecs(nodes, rows[d][i], rs), rows) == Contents(nodes, rows)
  {
    hide Flat, WF, Renames, Contents;
    var k := Kid(Recs(nodes, rows[d][i])[j]);
    RefreshRenames(nodes, rows, e, d, i, j);
    Rename(nodes, rows, rows, e, d, i, Recs(nodes, rows[d][i])[j := IndexRec(Recs(nodes, k)[0], k)], rows[d + 1]);
    assert rows[d + 1 := rows[d + 1]] == rows;
  }

  // ---- growing and shrinking the root ----

  function GrownRoot(nodes: Img, rows: seq<seq<nat>>): Node
    requires |rows| >= 1 && |rows[0]| == 2 && Recs(nodes, rows[0][0]) != [] && Recs(nodes, rows[0][1]) != []
  {
    var l, r := rows[0][0], rows[0][1];
    Node(Index, |rows| + 1, 0, 0, [IndexRec(Recs(nodes, l)[0], l), IndexRec(Recs(nodes, r)[0], r)])
  }

  /** Rows that do not use node `n` stay levels when `n` is written. */
  lemma LevelsFrame(nodes: Img, nodes': Img, rows: seq<seq<nat>>, n: nat)
    requires Levels(nodes, rows) && !InRows(rows, n)
    requires forall m: nat :: m in nodes && m != n ==> m in nodes' && nodes'[m] == nodes[m]
    ensures Levels(nodes', rows)
    ensures forall k :: 0 <= k < |rows| ==>
      Flat(nodes', rows[k]) == Flat(nodes, rows[k]) && Agree(nodes, nodes', rows[k])
  {
    hide Flat;
    forall k | 0 <= k < |rows|
      ensures Level(nodes', rows[k], |rows| - k) && Flat(nodes', rows[k]) == Flat(nodes, rows[k])
      ensures Agree(nodes, nodes', rows[k])
    {
      assert n !in rows[k];
      assert Level(nodes, rows[k], |rows| - k);
      forall m | 0 <= m < |rows[k]| ensures NodeAt(nodes, rows[k][m], |rows| - k) && rows[k][m] != n {
        assert rows[k][m] in rows[k];
      }
      LevelFrame(nodes, nodes', rows[k], |rows| - k);
    }
  }

  lemma ConsLevels(nodes: Img, rows: seq<seq<nat>>, n: nat)
    requires Levels(nodes, rows) && Level(nodes, [n], |rows| + 1)
    ensures Levels(nodes, [[n]] + rows)
  {
    hide Level;
    var rows' := [[n]] + rows;
    forall k | 0 <= k < |rows'| ensures Level(nodes, rows'[k], |rows'| - k) {
      assert rows'[k] == if k == 0 then [n] else rows[k - 1];
    }
  }

  /** The index rows of a tree whose pending root a new root names. */
  lemma ConsIndexed(nodes: Img, nodes': Img, rows: seq<seq<nat>>, below: seq<seq<nat>>, e: int, n: nat)
    requires |rows| >= 1 && Indexed(nodes, rows, below, e) && below[1..] == rows[1..]
    requires forall k :: 0 <= k < |rows| ==>
      Flat(nodes', rows[k]) == Flat(nodes, rows[k]) && Agree(nodes, nodes', rows[k])
    requires IndexRow(nodes', Contents(nodes, rows), [n], rows[0], e)
    ensures Contents(nodes', [[n]] + rows) == Contents(nodes, rows)
    ensures Indexed(nodes', [[n]] + rows, [[n]] + rows, e)
  {
    hide Flat, IndexRow, Agree;
    var rows' := [[n]] + rows;
    var c := Contents(nodes, rows);
    assert rows'[|rows'| - 1] == rows[|rows| - 1];
    forall k | 0 <= k < |rows'| - 1 ensures IndexRow(nodes', c, rows'[k], rows'[k + 1], e) {
      if k > 0 {
        assert below[k] == below[1..][k - 1] == rows[1..][k - 1] == rows[k];
        assert IndexRow(nodes, c, rows[k - 1], below[k], e);
        SameHeads(nodes, nodes', c, rows[k], e);
        IndexRowKept(nodes, nodes', c, rows[k - 1], rows[k - 1], rows[k], e);
      }
    }
  }

  /** A new root over a root that has just been split. */
  lemma GrowStep(nodes: Img, rows: seq<seq<nat>>, e: int, n: nat)
    requires Pending(nodes, rows, e, 0, 0) && |rows[0]| == 2
    requires n != 0 && !InRows(rows, n)
    requires Recs(nodes, rows[0][0]) != [] && Recs(nodes, rows[0][1]) != []
    ensures Whole(nodes[n := GrownRoot(nodes, rows)], [[n]] + rows, e)
    ensures Contents(nodes[n := GrownRoot(nodes, rows)], [[n]] + rows) == Contents(nodes, rows)
  {
    hide Flat, Level, Levels, Indexed, IndexRow, Contents, Asc, Agree;
    var root := GrownRoot(nodes, rows);
    var nodes' := nodes[n := root];
    var below := rows[0 := Del(rows[0], 1)];
    LevelsFrame(nodes, nodes', rows, n);
    GrownLevel(nodes', n, root);
    NotInFirst(rows, n);
    GrownRow(nodes, nodes', Contents(nodes, rows), rows, e, n);
    hide GrownRoot, InRows;
    ConsLevels(nodes', rows, n);
    ConsIndexed(nodes, nodes', rows, below, e, n);
  }

  lemma NotInFirst(rows: seq<seq<nat>>, n: nat)
    requires |rows| >= 1 && !InRows(rows, n)
    ensures n !in rows[0]
  {
  }

  lemma GrownRow(nodes: Img, nodes': Img, c: seq<Rec>, rows: seq<seq<nat>>, e: int, n: nat)
    requires |rows| >= 1 && |rows[0]| == 2 && Recs(nodes, rows[0][0]) != [] && Recs(nodes, rows[0][1]) != []
    requires nodes' == nodes[n := GrownRoot(nodes, rows)] && n !in rows[0]
    ensures IndexRow(nodes', c, [n], rows[0], e)
  {
    FlatOne(nodes', n);
    assert Kids(GrownRoot(nodes, rows).recs) == rows[0];
  }

  lemma GrownLevel(nodes: Img, n: nat, root: Node)
    requires n != 0 && n in nodes && nodes[n] == root
    requires root.kind == Index && root.height > 1 && root.flink == 0 == root.blink && root.recs != []
    requires forall i :: 0 <= i < |root.recs| ==> root.recs[i].data.Child?
    ensures Level(nodes, [n], root.height)
  {
    assert LinksAt(nodes, [n], 0);
  }

  lemma TailLevels(nodes: Img, nodes': Img, rows: seq<seq<nat>>)
    requires |rows| > 1 && Levels(nodes, rows) && |rows[0]| == 1
    requires forall m: nat :: m in nodes && m != rows[0][0] ==> m in nodes' && nodes'[m] == nodes[m]
    ensures Levels(nodes', rows[1..])
    ensures forall k :: 0 < k < |rows| ==>
      Flat(nodes', rows[k]) == Flat(nodes, rows[k]) && Agree(nodes, nodes', rows[k])
  {
    hide Flat;
    forall k | 0 < k < |rows|
      ensures Level(nodes', rows[k], |rows| - k) && Flat(nodes', rows[k]) == Flat(nodes, rows[k])
      ensures Agree(nodes, nodes', rows[k])
    {
      RowsApart(nodes, rows, k, 0);
      assert Level(nodes, rows[k], |rows| - k);
      forall m | 0 <= m < |rows[k]| ensures NodeAt(nodes, rows[k][m], |rows| - k) && rows[k][m] != rows[0][0] {
        assert rows[0][0] in rows[0];
      }
      LevelFrame(nodes, nodes', rows[k], |rows| - k);
    }
    assert forall k :: 0 <= k < |rows| - 1 ==> rows[1..][k] == rows[k + 1];
  }

  lemma TailIndexed(nodes: Img, nodes': Img, rows: seq<seq<nat>>, e: int)
    requires |rows| > 1 && Indexed(nodes, rows, rows, e)
    requires forall k :: 0 < k < |rows| ==>
      Flat(nodes', rows[k]) == Flat(nodes, rows[k]) && Agree(nodes, nodes', rows[k])
    ensures Contents(nodes', rows[1..]) == Contents(nodes, rows)
    ensures Indexed(nodes', rows[1..], rows[1..], e)
  {
    hide Flat, IndexRow, Agree;
    var t := rows[1..];
    var c := Contents(nodes, rows);
    assert t[|t| - 1] == rows[|rows| - 1];
    forall k | 0 <= k < |t| - 1 ensures IndexRow(nodes', c, t[k], t[k + 1], e) {
      assert IndexRow(nodes, c, rows[k + 1], rows[k + 2], e);
      SameHeads(nodes, nodes', c, rows[k + 2], e);
      IndexRowKept(nodes, nodes', c, rows[k + 1], rows[k + 1], rows[k + 2], e);
    }
  }

  /** Dropping a root with a single child. */
  lemma ShrinkStep(nodes: Img, nodes': Img, rows: seq<seq<nat>>, e: int)
    requires Whole(nodes, rows, e) && |rows| > 1 && |Recs(nodes, rows[0][0])| == 1
    requires forall m: nat :: m in nodes && m != rows[0][0] ==> m in nodes' && nodes'[m] == nodes[m]
    ensures Whole(nodes', rows[1..], e)
    ensures Contents(nodes', rows[1..]) == Contents(nodes, rows)
    ensures rows[1] == [Kid(Recs(nodes, rows[0][0])[0])]
  {
    hide Flat, Levels, Asc, Agree;
    TailLevels(nodes, nodes', rows);
    TailIndexed(nodes, nodes', rows, e);
    assert rows[0] == [rows[0][0]];
    FlatOne(nodes, rows[0][0]);
    assert IndexRow(nodes, Contents(nodes, rows), rows[0], rows[1], e);
  }
}
