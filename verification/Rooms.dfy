/** When an insertion goes through: which nodes have to split, whether the halves fit, and how many new nodes it
    takes. Everything is asked of the tree before the insertion. */
module Rooms {
  import opened Nodes
  import opened Rows
  import opened Edits
  import opened Steps
  import opened Search
  import opened LeafEdits
  import opened Trees
  import opened NodeFiles
  import opened Inserts

  /** Both halves of a node's records, split by count. */
  predicate HalvesFit(nodeSize: nat, rs: seq<Rec>) {
    Fits(nodeSize, rs[..|rs| / 2]) && Fits(nodeSize, rs[|rs| / 2..])
  }

  /** The two records of a root over a split node, whatever nodes they name. */
  predicate RootFits(nodeSize: nat, first: Rec, key: Rec) {
    Fits(nodeSize, [IndexRec(first, 0), IndexRec(key, 0)])
  }

  /** The record goes into node `path[k]`: whole, or with a split whose halves fit and whose upper half the nodes
      above take in. */
  predicate Room(nodes: Img, nodeSize: nat, path: seq<nat>, k: nat, rec: Rec)
    requires k < |path|
    decreases k, 1
  {
    var rs := InsertSorted(Recs(nodes, path[k]), rec);
    Fits(nodeSize, rs) || (HalvesFit(nodeSize, rs) && Above(nodes, nodeSize, path, k, rs[0], rs[|rs| / 2]))
  }

  /** Node `path[k]`, whose first record is `first`, has been split at the record `key`: the parent takes the index
      record of the upper half, or a new root takes both. */
  predicate Above(nodes: Img, nodeSize: nat, path: seq<nat>, k: nat, first: Rec, key: Rec)
    requires k < |path|
    decreases k, 0
  {
    if k == 0 then RootFits(nodeSize, first, key) else Room(nodes, nodeSize, path, k - 1, IndexRec(key, 0))
  }

  /** Nodes that inserting into node `path[k]` takes from the free ones. */
  function Takes(nodes: Img, nodeSize: nat, path: seq<nat>, k: nat, rec: Rec): (n: nat)
    requires k < |path|
    ensures n <= k + 2
    decreases k, 1
  {
    var rs := InsertSorted(Recs(nodes, path[k]), rec);
    if Fits(nodeSize, rs) then 0
    else if HalvesFit(nodeSize, rs) then 1 + TakesAbove(nodes, nodeSize, path, k, rs[|rs| / 2])
    else 1
  }

  function TakesAbove(nodes: Img, nodeSize: nat, path: seq<nat>, k: nat, key: Rec): (n: nat)
    requires k < |path|
    ensures n <= k + 1
    decreases k, 0
  {
    if k == 0 then 1 else Takes(nodes, nodeSize, path, k - 1, IndexRec(key, 0))
  }

  /** The nodes a descent for `p` visits, from node `n` down. */
  function Way(nodes: Img, n: nat, height: nat, p: int): (w: seq<nat>)
    ensures w != []
    decreases height
  {
    var rs := Recs(nodes, n);
    if height <= 1 || rs == [] then [n] else [n] + Way(nodes, Kid(rs[Pick(rs, p)]), height - 1, p)
  }

  // ---- what the outcome depends on ----

  /** A record that takes the same room goes through or not alike. */
  predicate SameRoom(a: Rec, b: Rec) {
    a.key == b.key && a.klen == b.klen && DataLen(a.data) == DataLen(b.data)
  }

  lemma {:induction false} SumLenSwap(rs: seq<Rec>, i: nat, r: Rec)
    requires i < |rs| && SameRoom(rs[i], r)
    ensures SumLen(rs[i := r]) == SumLen(rs)
  {
    assert rs == rs[..i] + ([rs[i]] + rs[i + 1..]) && rs[i := r] == rs[..i] + ([r] + rs[i + 1..]);
    SumLenCat(rs[..i], [rs[i]] + rs[i + 1..]);
    SumLenCat(rs[..i], [r] + rs[i + 1..]);
  }

  lemma FitsSwap(nodeSize: nat, rs: seq<Rec>, i: nat, r: Rec)
    requires i < |rs| && SameRoom(rs[i], r)
    ensures Fits(nodeSize, rs[i := r]) == Fits(nodeSize, rs)
    ensures HalvesFit(nodeSize, rs[i := r]) == HalvesFit(nodeSize, rs)
  {
    hide SumLen, SameRoom;
    var m := |rs| / 2;
    SumLenSwap(rs, i, r);
    if i < m {
      SumLenSwap(rs[..m], i, r);
      assert rs[i := r][..m] == rs[..m][i := r] && rs[i := r][m..] == rs[m..];
    } else {
      SumLenSwap(rs[m..], i - m, r);
      assert rs[i := r][m..] == rs[m..][i - m := r] && rs[i := r][..m] == rs[..m];
    }
  }

  lemma RoomSwap(nodes: Img, nodeSize: nat, path: seq<nat>, k: nat, a: Rec, b: Rec)
    requires k < |path| && SameRoom(a, b)
    ensures Room(nodes, nodeSize, path, k, a) == Room(nodes, nodeSize, path, k, b)
    ensures Takes(nodes, nodeSize, path, k, a) == Takes(nodes, nodeSize, path, k, b)
  {
    hide Fits, HalvesFit;
    var was := Recs(nodes, path[k]);
    var i := LowerBound(was, a.key);
    var rs := InsertSorted(was, a);
    assert rs[i] == a && InsertSorted(was, b) == rs[i := b];
    FitsSwap(nodeSize, rs, i, b);
  }

  lemma {:induction false} RoomFrame(nodes: Img, nodes': Img, nodeSize: nat, path: seq<nat>, k: nat, rec: Rec)
    requires k < |path| && forall d :: 0 <= d <= k ==> Recs(nodes', path[d]) == Recs(nodes, path[d])
    ensures Room(nodes', nodeSize, path, k, rec) == Room(nodes, nodeSize, path, k, rec)
    ensures Takes(nodes', nodeSize, path, k, rec) == Takes(nodes, nodeSize, path, k, rec)
    decreases k
  {
    hide Fits, HalvesFit, InsertSorted;
    if k > 0 {
      var rs := InsertSorted(Recs(nodes, path[k]), rec);
      InsertedSome(Recs(nodes, path[k]), rec);
      RoomFrame(nodes, nodes', nodeSize, path, k - 1, IndexRec(rs[|rs| / 2], 0));
    }
  }

  lemma InsertedSome(rs: seq<Rec>, rec: Rec)
    ensures |InsertSorted(rs, rec)| > 0
  {
  }

  // ---- one step ----

  /** The nodes of the path from the root to node `path[k]` hold ascending records. */
  ghost predicate AscTo(nodes: Img, path: seq<nat>, k: int)
    requires k < |path|
  {
    forall d :: 0 <= d <= k ==> Asc(Recs(nodes, path[d]))
  }

  /** Inserting into node `path[k]` leaves the nodes above it alone, and its own first record is that of `rs`. */
  lemma PathAside(nodes: Img, base: Img, nodes': Img, live: set<nat>, live': set<nat>, h: TreeHeader,
      h': TreeHeader, path: seq<nat>, k: nat, rs: seq<Rec>, child: nat)
    requires Sited(nodes, live, h, path) && k < |path| && |rs| > 0
    requires Changed(nodes, base, nodes', live, live', h, h', path[k], rs, child)
    ensures forall d :: 0 <= d < k ==> Recs(nodes', path[d]) == Recs(nodes, path[d])
    ensures Recs(nodes', path[k]) != [] && Recs(nodes', path[k])[0] == rs[0]
  {
    assert SitedNode(nodes, live, h, path, k);
    forall d | 0 <= d < k ensures Recs(nodes', path[d]) == Recs(nodes, path[d]) {
      assert SitedNode(nodes, live, h, path, d);
      assert path[d] != path[k];
    }
  }

  /** What is left to do above a split, seen before it and after. */
  lemma RoomAbove(nodes: Img, nodes': Img, nodeSize: nat, path: seq<nat>, k: nat, rec: Rec, key: Rec)
    requires k < |path| && AscTo(nodes, path, k)
    requires forall d :: 0 <= d < k ==> Recs(nodes', path[d]) == Recs(nodes, path[d])
    requires var rs := InsertSorted(Recs(nodes, path[k]), rec);
      && !Fits(nodeSize, rs) && HalvesFit(nodeSize, rs) && |rs| > 0 && key == rs[|rs| / 2]
      && Recs(nodes', path[k]) != [] && Recs(nodes', path[k])[0] == rs[0]
    ensures Above(nodes', nodeSize, path, k, Recs(nodes', path[k])[0], key) == Room(nodes, nodeSize, path, k, rec)
    ensures TakesAbove(nodes', nodeSize, path, k, key) + 1 == Takes(nodes, nodeSize, path, k, rec)
    ensures AscTo(nodes', path, k - 1)
  {
    hide Fits, HalvesFit, InsertSorted, Asc;
    if k > 0 {
      RoomFrame(nodes, nodes', nodeSize, path, k - 1, IndexRec(key, 0));
    }
  }

  /** The pending index record, under the number of the node it names. */
  lemma AboveNamed(nodes: Img, nodeSize: nat, path: seq<nat>, k: nat, first: Rec, key: Rec, child: nat)
    requires k + 1 < |path|
    ensures Above(nodes, nodeSize, path, k + 1, first, key) == Room(nodes, nodeSize, path, k, IndexRec(key, child))
    ensures TakesAbove(nodes, nodeSize, path, k + 1, key) == Takes(nodes, nodeSize, path, k, IndexRec(key, child))
  {
    RoomSwap(nodes, nodeSize, path, k, IndexRec(key, 0), IndexRec(key, child));
  }

  /** What taking a record in as `rs` came to, with `free` nodes free before: the node took it whole, was split, was
      too full to be split by count, or found no node to split into. */
  predicate Verdict(nodeSize: nat, rs: seq<Rec>, st: Status, child: nat, free: nat) {
    match st
    case Ok => if child == 0 then Fits(nodeSize, rs) else !Fits(nodeSize, rs) && HalvesFit(nodeSize, rs)
    case NoSpace => !Fits(nodeSize, rs) && free == 0
    case NodeFull => !Fits(nodeSize, rs) && !HalvesFit(nodeSize, rs)
    case _ => false
  }

  /** How an insertion that has room or not, and takes so many nodes, may end with `free` nodes free. */
  predicate Answered(st: Status, room: bool, takes: int, free: nat) {
    match st
    case Ok => true
    case NoSpace => free < takes
    case NodeFull => !room
    case _ => false
  }

  /** Node `path[k]` was split at `key`; what is above it has room or not, and takes so many nodes. */
  ghost predicate DueAt(nodes: Img, nodeSize: nat, live: set<nat>, h: TreeHeader, path: seq<nat>, k: nat, key: Rec,
      room: bool, takes: int) {
    && k < |path| && Sited(nodes, live, h, path) && AscTo(nodes, path, k - 1) && Recs(nodes, path[k]) != []
    && room == Above(nodes, nodeSize, path, k, Recs(nodes, path[k])[0], key)
    && takes == TakesAbove(nodes, nodeSize, path, k, key)
  }

  /** A record about to go into node `path[k]`. */
  ghost predicate OpenAt(nodes: Img, nodeSize: nat, live: set<nat>, h: TreeHeader, path: seq<nat>, k: nat, rec: Rec,
      room: bool, takes: int) {
    && k < |path| && Sited(nodes, live, h, path) && AscTo(nodes, path, k)
    && room == Room(nodes, nodeSize, path, k, rec)
    && takes == Takes(nodes, nodeSize, path, k, rec)
  }

  lemma AnsweredSo(st: Status, room: bool, takes: int, free: nat)
    requires Answered(st, room, takes, free)
    ensures st == Ok || st == NoSpace || st == NodeFull
    ensures st == NodeFull ==> !room
    ensures st == NoSpace ==> free < takes
  {
  }

  /** A later step answers for the whole insertion when no node free at the start was missing then. */
  lemma AnsweredLater(st: Status, room: bool, takes: int, free: nat, left: int, freeLater: nat)
    requires Answered(st, room, left, freeLater) && (free >= takes ==> freeLater >= left)
    ensures Answered(st, room, takes, free)
  {
  }

  lemma DueRoot(nodes: Img, nodeSize: nat, live: set<nat>, h: TreeHeader, path: seq<nat>, key: Rec, room: bool,
      takes: int)
    requires DueAt(nodes, nodeSize, live, h, path, 0, key, room, takes)
    ensures Recs(nodes, path[0]) != [] && room == RootFits(nodeSize, Recs(nodes, path[0])[0], key) && takes == 1
  {
  }

  /** A node of the path is live, and so is its right neighbour. */
  lemma OpenNode(nodes: Img, nodeSize: nat, live: set<nat>, h: TreeHeader, path: seq<nat>, k: nat, rec: Rec,
      room: bool, takes: int)
    requires OpenAt(nodes, nodeSize, live, h, path, k, rec, room, takes)
    ensures Asc(Recs(nodes, path[k])) && path[k] in nodes && (
      nodes[path[k]].flink == 0 || nodes[path[k]].flink in live)
  {
    assert SitedNode(nodes, live, h, path, k);
  }

  /** The pending index record is about to go into the parent. */
  lemma OpenFromDue(nodes: Img, nodeSize: nat, live: set<nat>, h: TreeHeader, path: seq<nat>, k: nat, key: Rec,
      child: nat, room: bool, takes: int)
    requires DueAt(nodes, nodeSize, live, h, path, k + 1, key, room, takes)
    ensures OpenAt(nodes, nodeSize, live, h, path, k, IndexRec(key, child), room, takes)
  {
    hide Sited, Asc, Room, Takes;
    AboveNamed(nodes, nodeSize, path, k, Recs(nodes, path[k + 1])[0], key, child);
  }

  /** Where the insertion stands once node `path[k]` has answered. */
  lemma Stepped(nodes: Img, base: Img, nodes': Img, live: set<nat>, live': set<nat>, h: TreeHeader, h': TreeHeader,
      nodeSize: nat, path: seq<nat>, k: nat, rec: Rec, room: bool, takes: int, st: Status, rs: seq<Rec>, key: Rec,
      child: nat, free: nat)
    requires OpenAt(nodes, nodeSize, live, h, path, k, rec, room, takes)
    requires rs == InsertSorted(Recs(nodes, path[k]), rec) && Verdict(nodeSize, rs, st, child, free)
    requires st == Ok ==> Changed(nodes, base, nodes', live, live', h, h', path[k], rs, child)
    requires st == Ok && child != 0 ==> |rs| > 0 && key == rs[|rs| / 2]
    ensures Answered(st, room, takes, free)
    ensures st == Ok ==>
      if child == 0 then room
      else DueAt(nodes', nodeSize, live', h', path, k, key, room, takes - 1)
  {
    hide Sited, AscTo, Fits, HalvesFit, InsertSorted, Changed;
    if st == Ok && child != 0 {
      PathAside(nodes, base, nodes', live, live', h, h', path, k, rs, child);
      SitedKept(nodes, base, nodes', live, live', h, h', path, k, rs, child);
      RoomAbove(nodes, nodes', nodeSize, path, k, rec, key);
    }
  }

  lemma RootFitsNamed(nodeSize: nat, height: nat, recs: seq<Rec>, oldRoot: nat, key: Rec, child: nat)
    requires recs != []
    ensures RootFits(nodeSize, recs[0], key) == Fits(nodeSize, NewRoot(height, recs, oldRoot, key, child).recs)
  {
    var a := [IndexRec(recs[0], 0), IndexRec(key, 0)];
    FitsSwap(nodeSize, a, 0, IndexRec(recs[0], oldRoot));
    FitsSwap(nodeSize, a[0 := IndexRec(recs[0], oldRoot)], 1, IndexRec(key, child));
    assert NewRoot(height, recs, oldRoot, key, child).recs ==
      a[0 := IndexRec(recs[0], oldRoot)][1 := IndexRec(key, child)];
  }

  // ---- the path of a descent ----

  lemma {:induction false} WayFrom(nodes: Img, rows: seq<seq<nat>>, path: seq<nat>, ci: seq<nat>, pos: seq<nat>,
      p: int, d: nat)
    requires Whole(nodes, rows, 0) && PathOk(nodes, rows, path, ci, pos) && |path| == |rows|
    requires Followed(nodes, path, ci, p) && d < |path|
    ensures path[d..] == Way(nodes, path[d], |rows| - d, p)
    decreases |rows| - d
  {
    hide Flat, Pick, WF, Off;
    if d < |rows| - 1 {
      WayFrom(nodes, rows, path, ci, pos, p, d + 1);
      assert TurnOk(nodes, rows, ci, pos, d);
      NextNode(nodes, rows, 0, d, pos[d], ci[d]);
      assert path[d + 1] == Kid(Recs(nodes, path[d])[ci[d]]);
      assert path[d..] == [path[d]] + path[d + 1..];
    }
  }

  /** A descent goes the one way there is, over nodes whose records ascend. */
  lemma DescentWay(nodes: Img, rows: seq<seq<nat>>, h: TreeHeader, path: seq<nat>, ci: seq<nat>, pos: seq<nat>, p: int)
    requires rows != [] && WholeFull(nodes, rows, 0) && HeaderOk(rows, h)
    requires PathOk(nodes, rows, path, ci, pos) && |path| == |rows| && Followed(nodes, path, ci, p)
    ensures path == Way(nodes, h.root, |rows|, p) && AscTo(nodes, path, |path| - 1)
  {
    hide Flat, Pick, WF, TurnOk, Followed, AllFull, Asc, Way;
    WayFrom(nodes, rows, path, ci, pos, p, 0);
    assert path[0..] == path;
    forall d | 0 <= d < |path| ensures Asc(Recs(nodes, path[d])) {
      var s := rows[d];
      RowSpread(nodes, rows, 0, d);
      FlatAt(nodes, s, pos[d]);
      AscCat(Flat(nodes, s[..pos[d]]), Recs(nodes, s[pos[d]]), Flat(nodes, s[pos[d] + 1..]));
    }
  }
}
