/** Trees whose records have the two sizes of the extents-overflow tree: 76 bytes in a leaf, 16 in an
    index node. Every split half, merge, rotation and key refresh then fits its node, and every node but
    the root holds the minimum record count, half of what a node can hold, rounded up. */
module FixedSizes {
  import opened Nodes
  import opened Rows
  import opened Edits
  import opened Steps
  import opened Search
  import opened LeafEdits
  import opened Trees
  import opened Deletes

  /** Encoded key: a length field and ten bytes. */
  const KEY_SIZE := 12

  function DataSize(height: nat): nat {
    if height <= 1 then 64 else 4
  }

  predicate SizedRec(r: Rec, height: nat) {
    r.klen == KEY_SIZE && DataLen(r.data) == DataSize(height)
  }

  ghost predicate Sized(rs: seq<Rec>, height: nat) {
    forall i :: 0 <= i < |rs| ==> SizedRec(rs[i], height)
  }

  /** Bytes a record and its offset entry take. */
  function Width(height: nat): nat {
    if height <= 1 then 78 else 18
  }

  /** Records a node holds at most. */
  function Cap(nodeSize: nat, height: nat): nat
    requires nodeSize >= 512
  {
    (nodeSize - 16) / Width(height)
  }

  /** Records a node other than the root holds at least. */
  function MinRecs(nodeSize: nat, height: nat): nat
    requires nodeSize >= 512
  {
    (Cap(nodeSize, height) + 1) / 2
  }

  lemma {:induction false} SizedUsed(rs: seq<Rec>, height: nat)
    requires Sized(rs, height)
    ensures UsedBytes(rs) == 16 + |rs| * Width(height)
  {
    if rs != [] {
      assert forall i :: 0 <= i < |rs[1..]| ==> rs[1..][i] == rs[i + 1];
      SizedUsed(rs[1..], height);
      assert SizedRec(rs[0], height);
    }
  }

  /** A node of fixed-size records fits exactly when it holds at most `Cap` of them. */
  lemma FitsIsCap(nodeSize: nat, rs: seq<Rec>, height: nat)
    requires nodeSize >= 512 && Sized(rs, height)
    ensures Fits(nodeSize, rs) <==> |rs| <= Cap(nodeSize, height)
  {
    SizedUsed(rs, height);
  }

  /** A node one record below the minimum always underflows, and an underflowing node has room. */
  lemma UnderflowCounts(nodeSize: nat, rs: seq<Rec>, height: nat)
    requires nodeSize >= 512 && Sized(rs, height)
    ensures |rs| < MinRecs(nodeSize, height) ==> UsedBytes(rs) < nodeSize / 2
    ensures UsedBytes(rs) < nodeSize / 2 ==> 2 * |rs| <= Cap(nodeSize, height)
  {
    SizedUsed(rs, height);
  }

  lemma CapBounds(nodeSize: nat, height: nat)
    requires nodeSize >= 512
    ensures Cap(nodeSize, height) >= 6 && MinRecs(nodeSize, height) >= 3
    ensures height > 1 ==> MinRecs(nodeSize, height) >= 14
    ensures 2 * MinRecs(nodeSize, height) >= Cap(nodeSize, height) >= 2 * MinRecs(nodeSize, height) - 1
  {
  }

  lemma SizedParts(rs: seq<Rec>, height: nat, m: nat)
    requires Sized(rs, height) && m <= |rs|
    ensures Sized(rs[..m], height) && Sized(rs[m..], height)
    ensures m < |rs| ==> Sized(Del(rs, m), height)
  {
  }

  lemma SizedJoin(a: seq<Rec>, b: seq<Rec>, height: nat)
    requires Sized(a, height) && Sized(b, height)
    ensures Sized(a + b, height)
  {
  }

  // ---- the whole tree ----

  /** Node `m` holds fixed-size records, and enough of them: `exempt` (the root) may hold fewer, and
      `dip`, the node a deletion stands at, one fewer. */
  ghost predicate FilledNode(nodes: Img, nodeSize: nat, m: nat, exempt: nat, dip: nat)
    requires nodeSize >= 512
  {
    && m in nodes && nodes[m].height > 0 && Sized(nodes[m].recs, nodes[m].height)
    && (m != exempt ==> |nodes[m].recs| + (if m == dip then 1 else 0) >= MinRecs(nodeSize, nodes[m].height))
  }

  ghost predicate Filled(nodes: Img, live: set<nat>, nodeSize: nat, exempt: nat, dip: nat)
    requires nodeSize >= 512
  {
    forall m: nat :: m in live ==> FilledNode(nodes, nodeSize, m, exempt, dip)
  }

  /** Filled again after the nodes of `changed` changed, when each of these is. */
  lemma FilledStep(nodes: Img, nodes': Img, live: set<nat>, live': set<nat>, nodeSize: nat, ex: nat, dip: nat,
      ex': nat, dip': nat, changed: set<nat>)
    requires nodeSize >= 512 && Filled(nodes, live, nodeSize, ex, dip)
    requires live' <= live + changed
    requires ex in live' ==> ex in changed || ex' == ex
    requires dip in live' ==> dip in changed || dip' == dip || dip == ex == ex'
    requires forall m: nat :: m in live && m in nodes && m !in changed ==>
      m in nodes' && nodes'[m].recs == nodes[m].recs && nodes'[m].height == nodes[m].height
    requires forall m: nat :: m in changed && m in live' ==> FilledNode(nodes', nodeSize, m, ex', dip')
    ensures Filled(nodes', live', nodeSize, ex', dip')
  {
    forall m: nat | m in live' ensures FilledNode(nodes', nodeSize, m, ex', dip') {
      if m !in changed {
        assert m in live && FilledNode(nodes, nodeSize, m, ex, dip);
      }
    }
  }

  /** Both neighbours of a node in its row are nodes of the tree, or there is none. */
  lemma LinksLive(nodes: Img, rows: seq<seq<nat>>, live: set<nat>, d: nat, i: nat)
    requires Levels(nodes, rows) && LiveIs(rows, live) && d < |rows| && i < |rows[d]|
    ensures rows[d][i] in nodes && (nodes[rows[d][i]].flink == 0 || nodes[rows[d][i]].flink in live)
    ensures nodes[rows[d][i]].height == |rows| - d
  {
    assert Level(nodes, rows[d], |rows| - d);
    var s := rows[d];
    assert LinksAt(nodes, s, i) && NodeAt(nodes, s[i], |rows| - d);
    if i + 1 < |s| {
      assert s[i + 1] in s;
      RowsLive(rows, live, d, s[i + 1]);
    }
  }

  /** The next node of a live node's chain is live. */
  lemma LiveLinks(nodes: Img, rows: seq<seq<nat>>, live: set<nat>, m: nat)
    requires Levels(nodes, rows) && LiveIs(rows, live) && m in live
    ensures m in nodes && (nodes[m].flink == 0 || nodes[m].flink in live)
  {
    hide Level;
    var d :| 0 <= d < |rows| && m in rows[d];
    var q :| 0 <= q < |rows[d]| && rows[d][q] == m;
    LinksLive(nodes, rows, live, d, q);
  }

  /** What a fixed-size tree says of a node on a descent. */
  lemma NodeOnPath(nodes: Img, rows: seq<seq<nat>>, h: TreeHeader, live: set<nat>, nodeSize: nat, exempt: nat, dip: nat,
                   path: seq<nat>, ci: seq<nat>, pos: seq<nat>, k: nat)
    requires nodeSize >= 512 && Filled(nodes, live, nodeSize, exempt, dip)
    requires PathTo(nodes, rows, path, ci, pos, k) && Levels(nodes, rows) && LiveIs(rows, live) && HeaderOk(rows, h)
    ensures k < |path| && k < |rows| && path[k] in live && path[k] in nodes && 0 !in live
    ensures var nd := nodes[path[k]];
      nd.height == |rows| - k && Sized(nd.recs, nd.height) && (nd.flink == 0 || nd.flink in live)
    ensures path[k] == h.root <==> k == 0
    ensures exempt != path[k] && dip != path[k] ==> nodes[path[k]].recs != []
  {
    hide Flat, PathTo, Cap, Sized;
    PathToLast(nodes, rows, path, ci, pos, k);
    LinksLive(nodes, rows, live, k, pos[k]);
    ZeroNotLive(nodes, rows, live);
    hide Level;
    assert path[k] in rows[k] && rows[0][0] in rows[0];
    RowsLive(rows, live, k, path[k]);
    assert FilledNode(nodes, nodeSize, path[k], exempt, dip);
    CapBounds(nodeSize, nodes[path[k]].height);
    if k > 0 {
      RowsApart(nodes, rows, 0, k);
    }
  }

  lemma ZeroNotLive(nodes: Img, rows: seq<seq<nat>>, live: set<nat>)
    requires Levels(nodes, rows) && LiveIs(rows, live)
    ensures 0 !in live
  {
    forall d | 0 <= d < |rows| ensures 0 !in rows[d] {
      assert Level(nodes, rows[d], |rows| - d);
      var s := rows[d];
      assert forall i :: 0 <= i < |s| ==> NodeAt(nodes, s[i], |rows| - d);
    }
  }

  // ---- insertion ----

  /** A fixed-size record goes into a fixed-size node whose right neighbour is live. */
  ghost predicate Insertable(nodes: Img, live: set<nat>, n: nat, rec: Rec) {
    && n in live && n in nodes && Sized(nodes[n].recs, nodes[n].height) && SizedRec(rec, nodes[n].height)
    && (nodes[n].flink == 0 || nodes[n].flink in live)
  }

  /** One record too many: both halves fit and hold the minimum. */
  lemma OneTooMany(nodeSize: nat, was: seq<Rec>, place: nat, rec: Rec, height: nat)
    requires nodeSize >= 512 && Sized(was, height) && SizedRec(rec, height) && Fits(nodeSize, was) && place <= |was|
    ensures var rs := was[..place] + [rec] + was[place..];
      && |rs| == |was| + 1 && Sized(rs, height)
      && (!Fits(nodeSize, rs) ==>
           && Fits(nodeSize, rs[..|rs| / 2]) && Fits(nodeSize, rs[|rs| / 2..])
           && |rs| == Cap(nodeSize, height) + 1
           && |rs| / 2 >= MinRecs(nodeSize, height))
  {
    var rs := was[..place] + [rec] + was[place..];
    forall i | 0 <= i < |rs| ensures SizedRec(rs[i], height) {
      assert rs[i] == if i < place then was[i] else if i == place then rec else was[i - 1];
    }
    FitsIsCap(nodeSize, was, height);
    FitsIsCap(nodeSize, rs, height);
    SizedParts(rs, height, |rs| / 2);
    FitsIsCap(nodeSize, rs[..|rs| / 2], height);
    FitsIsCap(nodeSize, rs[|rs| / 2..], height);
    CapBounds(nodeSize, height);
  }

  /** Node `nd` gained a record, as `rs`, and was split if `child` is not 0; the halves hold the minimum. */
  ghost predicate OneMore(nodeSize: nat, nd: Node, rs: seq<Rec>, child: nat) {
    && nodeSize >= 512 && Sized(rs, nd.height) && |rs| == |nd.recs| + 1
    && (child != 0 ==> |rs| / 2 >= MinRecs(nodeSize, nd.height))
  }

  lemma GainsOne(nodeSize: nat, nd: Node, place: nat, rec: Rec)
    requires nodeSize >= 512 && Sized(nd.recs, nd.height) && SizedRec(rec, nd.height) && Fits(nodeSize, nd.recs)
    requires place <= |nd.recs|
    ensures var rs := nd.recs[..place] + [rec] + nd.recs[place..];
      if Fits(nodeSize, rs) then OneMore(nodeSize, nd, rs, 0)
      else Fits(nodeSize, rs[..|rs| / 2]) && Fits(nodeSize, rs[|rs| / 2..]) && forall child: nat ::
        OneMore(nodeSize, nd, rs, child)
  {
    hide Fits, Sized, MinRecs, Cap;
    OneTooMany(nodeSize, nd.recs, place, rec, nd.height);
  }

  lemma FilledInsert(nodes: Img, live: set<nat>, nodeSize: nat, exempt: nat, n: nat, rs: seq<Rec>)
    requires nodeSize >= 512 && Filled(nodes, live, nodeSize, exempt, 0) && 0 !in live && n in live && n in nodes
    requires Sized(rs, nodes[n].height) && |rs| == |nodes[n].recs| + 1
    ensures Filled(SetRecs(nodes, n, rs), live, nodeSize, exempt, 0)
  {
    assert FilledNode(nodes, nodeSize, n, exempt, 0);
    FilledStep(nodes, SetRecs(nodes, n, rs), live, live, nodeSize, exempt, 0, exempt, 0, {n});
  }

  lemma FilledSplit(nodes: Img, base: Img, live: set<nat>, nodeSize: nat, exempt: nat, n: nat, rs: seq<Rec>, child: nat)
    requires nodeSize >= 512 && Filled(nodes, live, nodeSize, exempt, 0) && 0 !in live && n in live && n in nodes
    requires Carried(nodes, base, live)
    requires child != 0 && child !in live && Sized(rs, nodes[n].height)
    requires |rs| / 2 >= MinRecs(nodeSize, nodes[n].height)
    ensures Filled(SplitImg(SetRecs(base, n, rs), n, child, |rs| / 2), live + {child}, nodeSize,
      if n == exempt then 0 else exempt, 0)
  {
    var nodes' := SplitImg(SetRecs(base, n, rs), n, child, |rs| / 2);
    SizedParts(rs, nodes[n].height, |rs| / 2);
    assert FilledNode(nodes, nodeSize, n, exempt, 0);
    FilledStep(nodes, nodes', live, live + {child}, nodeSize, exempt, 0, if n == exempt then 0 else exempt, 0,
      {n, child});
  }

  lemma FilledRoot(nodes: Img, base: Img, live: set<nat>, nodeSize: nat, n: nat, root: Node)
    requires nodeSize >= 512 && Filled(nodes, live, nodeSize, 0, 0) && 0 !in live
    requires Carried(nodes, base, live)
    requires n !in live && root.height > 1 && Sized(root.recs, root.height)
    ensures Filled(base[n := root], live + {n}, nodeSize, n, 0)
  {
    FilledStep(nodes, base[n := root], live, live + {n}, nodeSize, 0, 0, n, 0, {n});
  }

  /** The image after an insertion: the node's new records, and the split that follows when `child` is not 0. */
  lemma FilledAfter(nodes: Img, base: Img, nodes': Img, live: set<nat>, live': set<nat>, h: TreeHeader,
      h': TreeHeader, nodeSize: nat, exempt: nat, n: nat, rs: seq<Rec>, child: nat)
    requires nodeSize >= 512 && Filled(nodes, live, nodeSize, exempt, 0) && 0 !in live
    requires Changed(nodes, base, nodes', live, live', h, h', n, rs, child) && OneMore(nodeSize, nodes[n], rs, child)
    ensures Filled(nodes', live', nodeSize, if child != 0 && n == exempt then 0 else exempt, 0)
    ensures |rs| > 0 && rs[|rs| / 2].klen == KEY_SIZE
  {
    hide Filled, Cap, SplitImg;
    assert SizedRec(rs[|rs| / 2], nodes[n].height);
    if child == 0 {
      FilledInsert(nodes, live, nodeSize, exempt, n, rs);
    } else {
      FilledSplit(nodes, base, live, nodeSize, exempt, n, rs, child);
    }
  }

  /** The two index records of a new root. */
  lemma RootSized(nodeSize: nat, rs: seq<Rec>, height: nat)
    requires nodeSize >= 512 && height > 1 && |rs| == 2
    requires forall i :: 0 <= i < 2 ==> rs[i].klen == KEY_SIZE && rs[i].data.Child?
    ensures Sized(rs, height) && Fits(nodeSize, rs)
  {
    SizedUsed(rs, height);
  }

  // ---- deletion ----

  lemma FilledRemove(nodes: Img, live: set<nat>, nodeSize: nat, exempt: nat, leaf: nat, x: nat)
    requires nodeSize >= 512 && Filled(nodes, live, nodeSize, exempt, 0) && 0 !in live && leaf in live
    requires leaf in nodes && x < |nodes[leaf].recs|
    ensures Filled(SetRecs(nodes, leaf, Del(nodes[leaf].recs, x)), live, nodeSize, exempt, leaf)
  {
    hide Cap;
    assert FilledNode(nodes, nodeSize, leaf, exempt, 0);
    SizedParts(nodes[leaf].recs, nodes[leaf].height, x);
    FilledStep(nodes, SetRecs(nodes, leaf, Del(nodes[leaf].recs, x)), live, live, nodeSize, exempt, 0, exempt,
      leaf, {leaf});
  }

  /** Refreshing an index key of a fixed-size tree changes no size. */
  lemma FilledRefresh(nodes: Img, live: set<nat>, nodeSize: nat, exempt: nat, dip: nat, p: nat, j: nat, first: Rec,
      child: nat)
    requires nodeSize >= 512 && Filled(nodes, live, nodeSize, exempt, dip) && p in live
    requires p in nodes && nodes[p].height > 1 && j < |nodes[p].recs| && first.klen == KEY_SIZE
    requires Fits(nodeSize, nodes[p].recs)
    ensures var rs := nodes[p].recs[j := IndexRec(first, child)];
      Fits(nodeSize, rs) && Filled(SetRecs(nodes, p, rs), live, nodeSize, exempt, dip)
  {
    hide Cap;
    var rs := nodes[p].recs[j := IndexRec(first, child)];
    assert FilledNode(nodes, nodeSize, p, exempt, dip);
    FitsIsCap(nodeSize, rs, nodes[p].height);
    FitsIsCap(nodeSize, nodes[p].recs, nodes[p].height);
    FilledStep(nodes, SetRecs(nodes, p, rs), live, live, nodeSize, exempt, dip, exempt, dip, {p});
  }

  /** A node that does not underflow holds the minimum, and so does the root by definition. */
  lemma FilledSettled(nodes: Img, live: set<nat>, nodeSize: nat, exempt: nat, dip: nat)
    requires nodeSize >= 512 && Filled(nodes, live, nodeSize, exempt, dip)
    requires dip == exempt || UsedBytes(Recs(nodes, dip)) >= nodeSize / 2
    ensures Filled(nodes, live, nodeSize, exempt, 0)
  {
    hide Cap, UsedBytes;
    forall m: nat | m in live ensures FilledNode(nodes, nodeSize, m, exempt, 0) {
      assert FilledNode(nodes, nodeSize, m, exempt, dip);
      if m == dip {
        UnderflowCounts(nodeSize, nodes[m].recs, nodes[m].height);
      }
    }
  }

  /** Node `en` and a sibling of the same height: one of them is the node a deletion stands at. */
  ghost predicate Pair(nodes: Img, live: set<nat>, exempt: nat, dip: nat, l: nat, r: nat) {
    && l in live && r in live && l in nodes && r in nodes && l != r
    && l != exempt && r != exempt && (dip == l || dip == r)
    && nodes[l].height == nodes[r].height
  }

  lemma FilledMerge(nodes: Img, live: set<nat>, nodeSize: nat, exempt: nat, dip: nat, p: nat, l: nat, r: nat, sep: nat)
    requires nodeSize >= 512 && Filled(nodes, live, nodeSize, exempt, dip)
    requires Pair(nodes, live, exempt, dip, l, r) && p in live && p in nodes && p != l && p != r
    requires nodes[p].height > 1 && sep + 1 < |nodes[p].recs| && Fits(nodeSize, nodes[p].recs)
    ensures Recs(nodes, l) + Recs(nodes, r) != []
    ensures Fits(nodeSize, MergedParent(nodes, p, l, r, sep))
    ensures Filled(MergeImg(nodes, p, l, r, sep), live - {r}, nodeSize, exempt, p)
  {
    hide Cap, Width, UsedBytes;
    assert FilledNode(nodes, nodeSize, p, exempt, dip) && FilledNode(nodes, nodeSize, l, exempt, dip) &&
      FilledNode(nodes, nodeSize, r, exempt, dip);
    CapBounds(nodeSize, nodes[l].height);
    SizedJoin(nodes[l].recs, nodes[r].recs, nodes[l].height);
    var prs := MergedParent(nodes, p, l, r, sep);
    SizedParts(nodes[p].recs, nodes[p].height, sep + 1);
    FitsIsCap(nodeSize, nodes[p].recs, nodes[p].height);
    FitsIsCap(nodeSize, prs, nodes[p].height);
    FilledStep(nodes, MergeImg(nodes, p, l, r, sep), live, live - {r}, nodeSize, exempt, dip, exempt, p, {p, l, r});
  }

  lemma FilledRotate(nodes: Img, live: set<nat>, nodeSize: nat, exempt: nat, dip: nat, p: nat, l: nat, r: nat,
      j: nat, ls: seq<Rec>, rs: seq<Rec>)
    requires nodeSize >= 512 && Filled(nodes, live, nodeSize, exempt, dip)
    requires Pair(nodes, live, exempt, dip, l, r) && p in live && p in nodes && p != l && p != r
    requires nodes[p].height > 1 && j + 1 < |nodes[p].recs| && Fits(nodeSize, nodes[p].recs)
    requires rs != [] && ls + rs == nodes[l].recs + nodes[r].recs
    requires MinRecs(nodeSize, nodes[l].height) <= |ls| <= Cap(nodeSize, nodes[l].height)
    requires MinRecs(nodeSize, nodes[l].height) <= |rs| <= Cap(nodeSize, nodes[l].height)
    ensures Fits(nodeSize, ls) && Fits(nodeSize, rs) && Fits(nodeSize, nodes[p].recs[j + 1 := IndexRec(rs[0], r)])
    ensures Filled(RotateImg(nodes, p, l, r, j, ls, rs), live, nodeSize, exempt, 0)
  {
    hide Cap, Width, UsedBytes;
    assert FilledNode(nodes, nodeSize, p, exempt, dip) && FilledNode(nodes, nodeSize, l, exempt, dip) &&
      FilledNode(nodes, nodeSize, r, exempt, dip);
    SizedJoin(nodes[l].recs, nodes[r].recs, nodes[l].height);
    SizedParts(ls + rs, nodes[l].height, |ls|);
    assert (ls + rs)[..|ls|] == ls && (ls + rs)[|ls|..] == rs;
    FitsIsCap(nodeSize, ls, nodes[l].height);
    FitsIsCap(nodeSize, rs, nodes[l].height);
    var prs := nodes[p].recs[j + 1 := IndexRec(rs[0], r)];
    FitsIsCap(nodeSize, nodes[p].recs, nodes[p].height);
    FitsIsCap(nodeSize, prs, nodes[p].height);
    FilledStep(nodes, RotateImg(nodes, p, l, r, j, ls, rs), live, live, nodeSize, exempt, dip, exempt, 0, {p, l, r});
  }

  /** Dropping a root with one child exempts that child. */
  lemma FilledShrink(nodes: Img, nodes': Img, live: set<nat>, nodeSize: nat, root: nat, dip: nat, only: nat)
    requires nodeSize >= 512 && Filled(nodes, live, nodeSize, root, dip) && (dip == root || dip == 0)
    requires nodes' == nodes[root := Erased] && 0 !in live
    ensures Filled(nodes', live - {root}, nodeSize, only, 0)
  {
    forall m: nat | m in live - {root} ensures FilledNode(nodes', nodeSize, m, only, 0) {
      assert FilledNode(nodes, nodeSize, m, root, dip);
    }
  }

  /** `sib` can give a record to `dip`: it keeps the minimum, and `dip` gets it. */
  ghost predicate CanRotate(nodes: Img, nodeSize: nat, dip: nat, sib: nat)
    requires nodeSize >= 512
  {
    && dip in nodes && sib in nodes && nodes[dip].height == nodes[sib].height
    && var min, cap := MinRecs(nodeSize, nodes[dip].height), Cap(nodeSize, nodes[dip].height);
       && min < |nodes[sib].recs| <= cap && min <= |nodes[dip].recs| + 1 <= cap
  }

  /** A sibling that cannot be merged with an underflowing node can spare a record, and the node has room. */
  lemma SparesOne(nodes: Img, live: set<nat>, nodeSize: nat, exempt: nat, dip: nat, sib: nat)
    requires nodeSize >= 512 && Filled(nodes, live, nodeSize, exempt, dip)
    requires dip in live && sib in live && dip in nodes && sib in nodes && dip != sib && dip != exempt && sib != exempt
    requires nodes[dip].height == nodes[sib].height && Fits(nodeSize, nodes[sib].recs)
    requires UsedBytes(nodes[dip].recs) < nodeSize / 2
    requires !Fits(nodeSize, nodes[sib].recs + nodes[dip].recs) || !Fits(nodeSize, nodes[dip].recs + nodes[sib].recs)
    ensures CanRotate(nodes, nodeSize, dip, sib) && |nodes[sib].recs| > 1
    ensures forall r :: r in nodes[sib].recs ==> UsedBytes(nodes[dip].recs) + 2 + RecLen(r) <= nodeSize
  {
    hide Cap, UsedBytes;
    var ht := nodes[dip].height;
    var e, s := nodes[dip].recs, nodes[sib].recs;
    assert FilledNode(nodes, nodeSize, dip, exempt, dip) && FilledNode(nodes, nodeSize, sib, exempt, dip);
    UnderflowCounts(nodeSize, e, ht);
    CapBounds(nodeSize, ht);
    SizedJoin(s, e, ht);
    SizedJoin(e, s, ht);
    FitsIsCap(nodeSize, s + e, ht);
    FitsIsCap(nodeSize, e + s, ht);
    FitsIsCap(nodeSize, s, ht);
    SizedUsed(e, ht);
    forall r | r in s ensures UsedBytes(e) + 2 + RecLen(r) <= nodeSize {
      var i :| 0 <= i < |s| && s[i] == r;
      assert SizedRec(s[i], ht);
      SizedJoin(e, [r], ht);
      SizedUsed(e + [r], ht);
      FitsIsCap(nodeSize, e + [r], ht);
    }
  }

  /** Two neighbouring children of `path[k - 1]`, one of them `path[k]`. */
  lemma PairAt(nodes: Img, rows: seq<seq<nat>>, h: TreeHeader, e: int, live: set<nat>, path: seq<nat>, ci: seq<nat>,
      pos: seq<nat>, k: nat, sep: nat)
    requires PathTo(nodes, rows, path, ci, pos, k) && k > 0 && Lowered(nodes, rows, h, e, k, pos[k])
    requires LiveIs(rows, live)
    requires |ci| == |path| - 1 && (sep == ci[k - 1] || sep + 1 == ci[k - 1]) && sep + 1 < |Recs(nodes, path[k - 1])|
    ensures var p := path[k - 1];
      var l, r := Kid(Recs(nodes, p)[sep]), Kid(Recs(nodes, p)[sep + 1]);
      && Pair(nodes, live, h.root, path[k], l, r) && path[k] == (if sep == ci[k - 1] then l else r)
      && p in live && p in nodes && p != l && p != r && nodes[p].height > 1
      && (nodes[r].flink == 0 || nodes[r].flink in live)
    ensures 0 !in live && (path[k - 1] == h.root <==> k == 1)
  {
    hide Flat, WF, Off, HeaderOk, GapOk, FullBut, PathTo;
    StandsAt(nodes, rows, h, e, path, ci, pos, k);
    var d := k - 1;
    NextNode(nodes, rows, e, d, pos[d], sep);
    NextNode(nodes, rows, e, d, pos[d], sep + 1);
    var q := Off(nodes, rows[d], pos[d]) + sep;
    MergeApart(nodes, rows, e, d, pos[d], q);
    LevelsAre(nodes, rows, e);
    LinksLive(nodes, rows, live, k, q);
    LinksLive(nodes, rows, live, k, q + 1);
    LinksLive(nodes, rows, live, d, pos[d]);
    ZeroNotLive(nodes, rows, live);
    RootAbove(nodes, rows, h, e, k, q);
    RootAbove(nodes, rows, h, e, k, q + 1);
    if d > 0 {
      RootAbove(nodes, rows, h, e, d, pos[d]);
    } else {
      PathToLast(nodes, rows, path, ci, pos, 0);
      RootFirst(rows, h);
    }
    hide Levels, Lowered;
    assert rows[k][q] in rows[k] && rows[k][q + 1] in rows[k];
    RowsLive(rows, live, k, rows[k][q]);
    RowsLive(rows, live, k, rows[k][q + 1]);
    RowsLive(rows, live, d, rows[d][pos[d]]);
  }

  lemma RootFirst(rows: seq<seq<nat>>, h: TreeHeader)
    requires HeaderOk(rows, h)
    ensures h.root == rows[0][0]
  {
  }

  lemma RootAbove(nodes: Img, rows: seq<seq<nat>>, h: TreeHeader, e: int, d: nat, i: nat)
    requires Whole(nodes, rows, e) && HeaderOk(rows, h) && 0 < d < |rows| && i < |rows[d]|
    ensures rows[d][i] != h.root
  {
    hide Flat, WF;
    LevelsAre(nodes, rows, e);
    RowsApart(nodes, rows, 0, d);
    assert rows[0][0] in rows[0] && rows[d][i] in rows[d];
  }

  /** The two nodes of an index key that a deletion refreshes. */
  lemma RefreshSite(nodes: Img, rows: seq<seq<nat>>, h: TreeHeader, e: int, live: set<nat>, path: seq<nat>,
      ci: seq<nat>, pos: seq<nat>, level: nat)
    requires |path| > 0 && 0 < level < |path| && PathTo(nodes, rows, path, ci, pos, |path| - 1)
    requires Lowered(nodes, rows, h, e, |path| - 1, pos[|path| - 1]) && LiveIs(rows, live)
    ensures path[level] in live && path[level - 1] in live && path[level - 1] in nodes
    ensures nodes[path[level - 1]].height > 1
    ensures path[level] != h.root && 0 !in live && path[level] != path[level - 1]
    ensures level < |rows| && Whole(nodes, rows, e)
  {
    hide Flat, WF, Off, HeaderOk, GapOk, FullBut, PathTo;
    PathToPrefix(nodes, rows, path, ci, pos, |path| - 1, level - 1);
    PathToLast(nodes, rows, path, ci, pos, level - 1);
    PathToPrefix(nodes, rows, path, ci, pos, |path| - 1, level);
    PathToLast(nodes, rows, path, ci, pos, level);
    LevelsAre(nodes, rows, e);
    LinksLive(nodes, rows, live, level - 1, pos[level - 1]);
    ZeroNotLive(nodes, rows, live);
    RootAbove(nodes, rows, h, e, level, pos[level]);
    RowsApart(nodes, rows, level - 1, level);
    hide Levels;
    assert path[level] in rows[level] && path[level - 1] in rows[level - 1];
    RowsLive(rows, live, level, path[level]);
    RowsLive(rows, live, level - 1, path[level - 1]);
  }

  /** No leaf but the root holds a single record. */
  lemma NoneStranded(nodes: Img, rows: seq<seq<nat>>, live: set<nat>, nodeSize: nat, h: TreeHeader, p: int)
    requires nodeSize >= 512 && WholeFull(nodes, rows, 0) && HeaderOk(rows, h)
    requires LiveIs(rows, live) && Filled(nodes, live, nodeSize, h.root, 0) && |rows| > 1
    ensures !Stranding(nodes, rows, p)
  {
    hide Flat, WF, Cap, Off;
    var d := |rows| - 2;
    var up := rows[d];
    forall i | 0 <= i < |up| ensures !StrandedAt(nodes, up[i], p) {
      if |Recs(nodes, up[i])| == 1 {
        NextNode(nodes, rows, 0, d, i, 0);
        var n := Kid(Recs(nodes, up[i])[0]);
        assert n in rows[d + 1];
        RowsLive(rows, live, d + 1, n);
        LevelsAre(nodes, rows, 0);
        RowsApart(nodes, rows, 0, d + 1);
        assert rows[0][0] in rows[0];
        assert FilledNode(nodes, nodeSize, n, h.root, 0);
        CapBounds(nodeSize, nodes[n].height);
      }
    }
  }

  // ---- height ----

  function Pow2(k: nat): (r: nat)
    ensures r >= 1
  {
    if k == 0 then 1 else 2 * Pow2(k - 1)
  }

  /** Each row is at least twice as long as the one above it. */
  lemma {:induction false} RowsDouble(nodes: Img, rows: seq<seq<nat>>, live: set<nat>, nodeSize: nat, h: TreeHeader,
      d: nat)
    requires nodeSize >= 512 && WholeFull(nodes, rows, 0) && HeaderOk(rows, h) && RootOk(nodes, rows)
    requires LiveIs(rows, live) && Filled(nodes, live, nodeSize, h.root, 0) && d < |rows|
    ensures |rows[d]| >= Pow2(d)
  {
    hide Flat, WF, HeaderOk, RootOk, Filled, LiveIs;
    SingleRoot(nodes, rows, 0);
    if d > 0 {
      RowsDouble(nodes, rows, live, nodeSize, h, d - 1);
      var s := rows[d - 1];
      forall i | 0 <= i < |s| ensures |Recs(nodes, s[i])| >= 2 {
        TwoChildren(nodes, rows, live, nodeSize, h, d - 1, i);
      }
      FlatAtLeast(nodes, s);
      RowCount(nodes, rows, d - 1);
    }
  }

  lemma TwoChildren(nodes: Img, rows: seq<seq<nat>>, live: set<nat>, nodeSize: nat, h: TreeHeader, d: nat, i: nat)
    requires nodeSize >= 512 && WholeFull(nodes, rows, 0) && HeaderOk(rows, h) && RootOk(nodes, rows)
    requires LiveIs(rows, live) && Filled(nodes, live, nodeSize, h.root, 0) && d < |rows| - 1 && i < |rows[d]|
    ensures |Recs(nodes, rows[d][i])| >= 2
  {
    hide Flat, WF, Sized, Cap;
    var n := rows[d][i];
    assert n in rows[d];
    RowsLive(rows, live, d, n);
    assert FilledNode(nodes, nodeSize, n, h.root, 0);
    CapBounds(nodeSize, nodes[n].height);
    if d > 0 {
      LevelsAre(nodes, rows, 0);
      assert rows[0][0] in rows[0];
      RowsApart(nodes, rows, 0, d);
    } else {
      SingleRoot(nodes, rows, 0);
    }
  }

  lemma {:induction false} FlatAtLeast(nodes: Img, s: seq<nat>)
    requires forall i :: 0 <= i < |s| ==> |Recs(nodes, s[i])| >= 2
    ensures |Flat(nodes, s)| >= 2 * |s|
  {
    if s != [] {
      FlatAtLeast(nodes, s[1..]);
    }
  }

  lemma RowCount(nodes: Img, rows: seq<seq<nat>>, d: nat)
    requires WholeFull(nodes, rows, 0) && d < |rows| - 1
    ensures |rows[d + 1]| == |Flat(nodes, rows[d])|
  {
    hide Flat;
    assert IndexRow(nodes, Contents(nodes, rows), rows[d], rows[d + 1], 0);
  }

  /** The leaves alone are at least `2^(depth - 1)` nodes. */
  lemma HeightBound(nodes: Img, rows: seq<seq<nat>>, live: set<nat>, nodeSize: nat, h: TreeHeader, total: nat)
    requires nodeSize >= 512 && WholeFull(nodes, rows, 0) && HeaderOk(rows, h) && RootOk(nodes, rows)
    requires LiveIs(rows, live) && Filled(nodes, live, nodeSize, h.root, 0)
    requires forall n: nat :: n in live ==> 0 < n < total
    ensures Pow2(|rows| - 1) < total
  {
    hide Flat, WF, HeaderOk, RootOk, Filled;
    LevelNonempty(nodes, rows);
    var s := rows[|rows| - 1];
    RowsDouble(nodes, rows, live, nodeSize, h, |rows| - 1);
    LevelOf(nodes, rows, 0, |rows| - 1);
    forall i | 0 <= i < |s| ensures 0 < s[i] < total {
      assert s[i] in s;
      RowsLive(rows, live, |rows| - 1, s[i]);
    }
    LevelNonempty(nodes, rows);
    assert s[0] < total;
    DistinctBelow(s, total);
  }

  lemma LevelNonempty(nodes: Img, rows: seq<seq<nat>>)
    requires WholeFull(nodes, rows, 0)
    ensures rows != [] && rows[|rows| - 1] != []
  {
    assert Level(nodes, rows[|rows| - 1], 1);
  }

  /** A sequence of different numbers from 1 to `n - 1` is shorter than `n`. */
  lemma {:induction false} DistinctBelow(s: seq<nat>, n: nat)
    requires NoDup(s) && n > 0 && forall i :: 0 <= i < |s| ==> 0 < s[i] < n
    ensures |s| < n
    decreases n
  {
    if s != [] {
      assert 0 < s[0] < n;
      if i :| 0 <= i < |s| && s[i] == n - 1 {
        DistinctBelow(Del(s, i), n - 1);
      } else {
        DistinctBelow(s, n - 1);
      }
    }
  }

  lemma {:induction false} Pow2Grows(k: nat, m: nat)
    requires k <= m
    ensures Pow2(k) <= Pow2(m)
    decreases m
  {
    if k < m {
      Pow2Grows(k, m - 1);
    }
  }

  /** A tree of 32-bit node numbers is at most 32 levels high: `descend` never meets its limit of 64. */
  lemma NeverTooDeep(nodes: Img, rows: seq<seq<nat>>, live: set<nat>, nodeSize: nat, h: TreeHeader, total: nat)
    requires nodeSize >= 512 && WholeFull(nodes, rows, 0) && HeaderOk(rows, h) && RootOk(nodes, rows)
    requires LiveIs(rows, live) && Filled(nodes, live, nodeSize, h.root, 0)
    requires forall n: nat :: n in live ==> 0 < n < total
    requires total <= U32
    ensures |rows| <= 32
  {
    hide Flat, WF, HeaderOk, RootOk, Filled, LiveIs;
    HeightBound(nodes, rows, live, nodeSize, h, total);
    if |rows| > 32 {
      Pow2Grows(32, |rows| - 1);
      assert Pow2(32) == U32 by { PowValue(); }
    }
  }

  lemma PowValue()
    ensures Pow2(32) == U32
  {
    assert Pow2(4) == 16;
    assert Pow2(8) == 16 * 16;
    assert Pow2(12) == 16 * 16 * 16;
    assert Pow2(16) == 0x1_0000;
    assert Pow2(20) == 0x10_0000;
    assert Pow2(24) == 0x100_0000;
    assert Pow2(28) == 0x1000_0000;
  }
}
