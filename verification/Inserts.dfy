/** The states of an insertion: a leaf that takes a record, a split whose index record is pending, a new root. */
module Inserts {
  import opened Nodes
  import opened Rows
  import opened Edits
  import opened Steps
  import opened Search
  import opened LeafEdits
  import opened Trees
  import opened Deletes
  import opened FixedSizes
  import opened ExactKeys
  import opened Fallback
  import opened LeafChain
  import opened Chains
  import opened NodePool
  import opened Descents

  /** Where an insertion goes: to the leaf where the key belongs, or, with a fallback, below all keys of a leaf whose
      index record `r` is above the key too. */
  lemma InsertSite(nodes: Img, rows: seq<seq<nat>>, live: set<nat>, h: TreeHeader, path: seq<nat>, ci: seq<nat>,
      pos: seq<nat>, rec: Rec) returns (r: Rec)
    requires rows != [] && WholeFull(nodes, rows, 0) && HeaderOk(rows, h) && LiveIs(rows, live) && |path| == |rows|
    requires PathOk(nodes, rows, path, ci, pos) && Followed(nodes, path, ci, rec.key)
    ensures forall d :: 0 <= d < |path| ==> path[d] in live
    ensures Covered(nodes, h.root, |rows|, rec.key) <==> NoFallback(nodes, path, ci, rec.key)
    ensures !NoFallback(nodes, path, ci, rec.key) ==>
      FallsTo(nodes, live, path[|path| - 1], r, rec.key) && LeafIsApart(path)
    ensures !HasKey(Contents(nodes, rows), rec.key) ==>
      && (forall d :: 0 <= d < |path| - 1 ==> path[d] in live && IndexNode(nodes, path[d]))
      && Lands(nodes, live, h, path[|path| - 1], rec.key, Contents(nodes, rows))
  {
    hide WF, Flat, AllFull, Covered, HeaderOk, PathOk, NoFallback, Followed, HasKey, Contents, FallsTo, Lands,
      IndexNode, LiveIs;
    r := rec;
    PathLengths(nodes, rows, path, ci, pos);
    PathLive(nodes, rows, live, path, ci, pos);
    CoveredIsNoFallback(nodes, rows, path, ci, pos, rec.key);
    RootOfPath(nodes, rows, h, path, ci, pos);
    if !HasKey(Contents(nodes, rows), rec.key) {
      DescentLands(nodes, rows, live, h, path, ci, pos, rec.key);
    }
    if !NoFallback(nodes, path, ci, rec.key) {
      FallbackReaches(nodes, rows, live, path, ci, pos, rec.key);
      LeafApart(nodes, rows, path, ci, pos);
      r := Recs(nodes, path[|path| - 2])[ci[|path| - 2]];
    }
  }

  lemma CountUp(n: nat, count: nat)
    requires count == n % U32
    ensures (count + 1) % U32 == (n + 1) % U32
  {
  }

  lemma InsertedLength(c: seq<Rec>, r: Rec)
    ensures |InsertSorted(c, r)| == |c| + 1
  {
  }

  lemma InsertIntoNone(r: Rec)
    ensures Contents(map[], []) == [] && InsertSorted([], r) == [r]
    ensures forall nodes: Img :: Contents(nodes, []) == []
  {
  }

  lemma SplitRootIs(nodes: Img, rows: seq<seq<nat>>, h: TreeHeader, path: seq<nat>, ci: seq<nat>, pos: seq<nat>,
      key: Rec, child: nat)
    requires PathTo(nodes, rows, path, ci, pos, 0) && SplitState(nodes, rows, h, 0, pos[0], key, child)
    ensures |rows| > 0 && pos[0] == 0 && path[0] == rows[0][0] && h.treeDepth == |rows|
  {
    PathToLast(nodes, rows, path, ci, pos, 0);
  }

  function NewRoot(height: nat, recs: seq<Rec>, oldRoot: nat, key: Rec, child: nat): Node
    requires recs != []
  {
    Node(Index, height, 0, 0, [IndexRec(recs[0], oldRoot), IndexRec(key, child)])
  }

  lemma NewRootShape(height: nat, recs: seq<Rec>, oldRoot: nat, key: Rec, child: nat)
    requires recs != []
    ensures NewRoot(height, recs, oldRoot, key, child).kind == Index
    ensures NewRoot(height, recs, oldRoot, key, child).flink == 0
  {
  }

  /** What growing the root over a split leaves. */
  lemma RootResult(nodes: Img, base: Img, rows: seq<seq<nat>>, h: TreeHeader, live: set<nat>,
                   path: seq<nat>, ci: seq<nat>, pos: seq<nat>, key: Rec, child: nat, n: nat)
    requires SplittingAt(nodes, rows, h, live, path, ci, pos, 0, key, child) && Carried(nodes, base, live)
    requires n != 0 && n !in live && Recs(base, path[0]) != []
    ensures var nodes', rows',
      live' := base[n := NewRoot((h.treeDepth + 1) % 0x100, Recs(base, path[0]), path[0], key, child)],
        [[n]] + rows, live + {n};
      && StandingAt(nodes', rows', h.(root := n, treeDepth := (h.treeDepth + 1) % 0x1_0000), live')
      && Contents(nodes', rows') == Contents(nodes, rows)
      && (Exact(nodes, live, 0) ==> Exact(nodes', live', 0))
  {
    hide WF, Flat, NewRoot, SplitState, HeaderOk, RootOk, AllFull, PathTo, Filled, Exact, Carried, LiveIs, InRows,
      Contents, WholeFull, SameTree;
    SplitRootIs(nodes, rows, h, path, ci, pos, key, child);
    CarriedIsSame(nodes, base, rows, live);
    LiveCons(rows, live, n);
    GrowOver(nodes, base, rows, h, key, child, n);
    RootLive(nodes, rows, h, live, path, ci, pos, key, child);
    if Exact(nodes, live, 0) {
      NewRootExact(nodes, base, live, n, |rows| + 1, path[0], key, child);
    }
  }

  /** The root and the node split off it, which the new root names. */
  lemma RootLive(nodes: Img, rows: seq<seq<nat>>, h: TreeHeader, live: set<nat>, path: seq<nat>, ci: seq<nat>,
      pos: seq<nat>, key: Rec, child: nat)
    requires PathTo(nodes, rows, path, ci, pos, 0) && SplitState(nodes, rows, h, 0, pos[0], key, child)
    requires LiveIs(rows, live)
    ensures path != [] && path[0] in live && child in live && 0 !in live
    ensures Recs(nodes, path[0]) != [] && Recs(nodes, child) != [] && Recs(nodes, child)[0].key == key.key
  {
    hide Flat, WF, HeaderOk, AllFull, RootOk, LiveIs;
    PathToLast(nodes, rows, path, ci, pos, 0);
    LevelsOfSplit(nodes, rows, h, 0, pos[0], key, child);
    ZeroNotLive(nodes, rows, live);
    RowsLive(rows, live, 0, child);
    RowsLive(rows, live, 0, path[0]);
  }

  /** Growing the root over an image that holds the same tree. */
  lemma GrowOver(nodes: Img, base: Img, rows: seq<seq<nat>>, h: TreeHeader, key: Rec, child: nat, n: nat)
    requires SplitState(nodes, rows, h, 0, 0, key, child) && n != 0 && !InRows(rows, n)
    requires SameTree(nodes, base, rows)
    ensures |rows[0]| == 2 && Recs(base, rows[0][0]) != []
    ensures var nodes', rows' := base[n := NewRoot(|rows| + 1, Recs(base, rows[0][0]), rows[0][0], key, child)],
      [[n]] + rows;
      && WholeFull(nodes', rows', 0) && HeaderOk(rows', h.(root := n, treeDepth := |rows| + 1)) && RootOk(nodes', rows')
      && Contents(nodes', rows') == Contents(nodes, rows)
  {
    hide Flat, WF, InRows, HeaderOk, RootOk, AllFull, Contents;
    SplitStateFrame(nodes, base, rows, h, 0, 0, key, child);
    GrowGives(base, rows, h, key, child, n);
  }

  lemma SplitStateFrame(nodes: Img, base: Img, rows: seq<seq<nat>>, h: TreeHeader, d: nat, q: nat, key: Rec, child: nat)
    requires SplitState(nodes, rows, h, d, q, key, child) && SameTree(nodes, base, rows)
    ensures SplitState(base, rows, h, d, q, key, child) && Contents(base, rows) == Contents(nodes, rows)
  {
    hide Flat, WF, RootOk, AllFull;
    var t := Del(rows[d], q + 1);
    var below := rows[d := t];
    forall k | 0 <= k < |rows| ensures Within(below[k], rows[k]) {
      if k == d {
        assert forall m :: 0 <= m < |t| ==> t[m] == if m <= q then rows[d][m] else rows[d][m + 1];
      }
    }
    WholeFrame(nodes, base, rows, below, 0);
    FullFrame(nodes, base, rows);
    assert rows[d][q] in rows[d] && rows[d][q + 1] in rows[d];
    assert InRows(rows, rows[d][q]) && InRows(rows, rows[d][q + 1]);
  }

  /** The stores of a split, in the engine's order, make the split image. */
  lemma SplitStores(base: Img, n: nat, nd: Node, right: nat, m: nat)
    requires n in base && m <= |nd.recs| && (nd.flink != 0 ==> nd.flink in base)
    ensures var relinked := if nd.flink != 0 then base[nd.flink := base[nd.flink].(blink := right)] else base;
      SplitImg(base[n := nd], n, right, m) ==
        relinked[n := nd.(flink := right, recs := nd.recs[..m])][right := Node(nd.kind, nd.height, nd.flink, n,
          nd.recs[m..])]
  {
  }

  /** If a record sequence is too long for a node but its upper half is not, it has two records. */
  lemma TwoRecords(nodeSize: nat, rs: seq<Rec>)
    requires !Fits(nodeSize, rs) && Fits(nodeSize, rs[|rs| / 2..])
    ensures 2 <= |rs|
  {
    var upper := rs[|rs| / 2..];
    assert 2 <= |rs| || upper == rs;
  }

  /** A parent that takes the index record whole completes the tree. */
  lemma LinkedState(nodes: Img, rows: seq<seq<nat>>, h: TreeHeader, path: seq<nat>, ci: seq<nat>, pos: seq<nat>,
      d: nat, key: Rec, child: nat, rs: seq<Rec>)
    requires PathTo(nodes, rows, path, ci, pos, d + 1)
    requires SplitState(nodes, rows, h, d + 1, pos[d + 1], key, child)
    requires Asc(Recs(nodes, path[d])) ==> rs == InsertSorted(Recs(nodes, path[d]), IndexRec(key, child))
    ensures var p := path[d];
      && p in nodes
      && WholeFull(SetRecs(nodes, p, rs), rows, 0) && HeaderOk(rows, h) && RootOk(SetRecs(nodes, p, rs), rows)
      && Contents(SetRecs(nodes, p, rs), rows) == Contents(nodes, rows)
  {
    hide Flat, WF, InsertSorted, PathTo, AllFull, HeaderOk, RootOk, Off;
    PathToLast(nodes, rows, path, ci, pos, d + 1);
    LinkGives(nodes, rows, h, d, pos[d], ci[d], key, child);
    ParentAsc(nodes, rows, d, pos[d], ci[d], IndexRec(key, child));
  }

  /** The parent's records were ascending before the insertion. */
  lemma ParentAsc(nodes: Img, rows: seq<seq<nat>>, d: nat, i: nat, j: nat, x: Rec)
    requires d < |rows| && i < |rows[d]| && rows[d][i] in nodes && j < |Recs(nodes, rows[d][i])|
    requires var rs := Ins(Recs(nodes, rows[d][i]), j + 1, x); WholeFull(SetRecs(nodes, rows[d][i], rs), rows, 0)
    ensures Asc(Recs(nodes, rows[d][i]))
  {
    hide Flat, WF, Asc, Ins;
    var was := Recs(nodes, rows[d][i]);
    var rs := Ins(was, j + 1, x);
    var nodes' := SetRecs(nodes, rows[d][i], rs);
    RowSpread(nodes', rows, 0, d);
    FlatAt(nodes', rows[d], i);
    AscCat(Flat(nodes', rows[d][..i]), rs, Flat(nodes', rows[d][i + 1..]));
    AscOut(was, j + 1, x);
  }

  lemma AscOut(was: seq<Rec>, q: nat, x: Rec)
    requires q <= |was| && Asc(Ins(was, q, x))
    ensures Asc(was)
  {
    var rs := Ins(was, q, x);
    forall a, b | 0 <= a < b < |was| ensures was[a].key < was[b].key {
      assert rs[if a < q then a else a + 1] == was[a] && rs[if b < q then b else b + 1] == was[b];
    }
  }

  /** Node `path[d]` took `rs` over `base` and was split: the pending split, with contents `c`. */
  ghost predicate Resplit(base: Img, rows: seq<seq<nat>>, h: TreeHeader, live: set<nat>,
                          path: seq<nat>, ci: seq<nat>, pos: seq<nat>, d: nat, rs: seq<Rec>, r: nat, c: seq<Rec>)
  {
    && d < |path| && d < |pos| && d < |rows| && pos[d] < |rows[d]| && path[d] in base && rs != []
    && var n := path[d];
       var edited := SetRecs(base, n, rs);
       var nodes', rows', h' := SplitImg(edited, n, r, |rs| / 2), rows[d := Ins(rows[d], pos[d] + 1, r)],
         SplitHeader(edited, h, n, r);
       && SplitState(nodes', rows', h', d, pos[d], rs[|rs| / 2], r)
       && Contents(nodes', rows') == c
       && PathTo(nodes', rows', path, ci, pos, d)
       && LiveIs(rows', live + {r})
  }

  /** A parent that has to be split in turn is the next pending split, one level up. */
  lemma ResplitState(nodes: Img, base: Img, rows: seq<seq<nat>>, h: TreeHeader, live: set<nat>,
                     path: seq<nat>, ci: seq<nat>, pos: seq<nat>, d: nat, key: Rec, child: nat, rs: seq<Rec>, r: nat)
    requires PathTo(nodes, rows, path, ci, pos, d + 1) && LiveIs(rows, live)
    requires SplitState(nodes, rows, h, d + 1, pos[d + 1], key, child)
    requires Asc(Recs(nodes, path[d])) ==> rs == InsertSorted(Recs(nodes, path[d]), IndexRec(key, child))
    requires Carried(nodes, base, live)
    requires r != 0 && r !in live && 2 <= |rs|
    ensures Resplit(base, rows, h, live, path, ci, pos, d, rs, r, Contents(nodes, rows))
  {
    hide WholeFull, InsertSorted, SplitState, SplitImg, HeaderOk, RootOk, SplitHeader, PathTo, Contents, SetRecs,
      LiveIs, Carried, SameTree, InRows, Levels, Asc;
    CarriedIsSame(nodes, base, rows, live);
    NotLive(rows, live, r);
    PathToLast(nodes, rows, path, ci, pos, d + 1);
    SplitHeaderHolds(nodes, rows, h, d + 1, pos[d + 1], key, child);
    LinkedState(nodes, rows, h, path, ci, pos, d, key, child, rs);
    SplitAfterEdit(nodes, base, rows, h, d, pos[d], rs, r, |rs| / 2);
    LevelsOfSplit(nodes, rows, h, d + 1, pos[d + 1], key, child);
    ResplitPath(nodes, base, rows, live, path, ci, pos, d, rs, r);
    ResplitLive(rows, live, d, pos[d] + 1, r);
  }

  lemma SplitHeaderHolds(nodes: Img, rows: seq<seq<nat>>, h: TreeHeader, d: nat, q: nat, key: Rec, child: nat)
    requires SplitState(nodes, rows, h, d, q, key, child)
    ensures HeaderOk(rows, h)
  {
  }

  lemma LiveCons(rows: seq<seq<nat>>, live: set<nat>, n: nat)
    requires LiveIs(rows, live) && n !in live
    ensures LiveIs([[n]] + rows, live + {n}) && !InRows(rows, n)
  {
    forall m: nat ensures m in live + {n} <==> InRows([[n]] + rows, m) {
      InRowsCons(rows, n, m);
    }
  }

  lemma CarriedIsSame(nodes: Img, base: Img, rows: seq<seq<nat>>, live: set<nat>)
    requires Carried(nodes, base, live) && LiveIs(rows, live)
    ensures SameTree(nodes, base, rows)
  {
  }

  lemma NotLive(rows: seq<seq<nat>>, live: set<nat>, n: nat)
    requires LiveIs(rows, live) && n !in live
    ensures !InRows(rows, n)
  {
  }

  /** A whole tree of live nodes. */
  ghost predicate StandingAt(nodes: Img, rows: seq<seq<nat>>, h: TreeHeader, live: set<nat>) {
    && rows != [] && LiveIs(rows, live)
    && WholeFull(nodes, rows, 0) && HeaderOk(rows, h) && RootOk(nodes, rows)
  }

  /** A tree with the node split off `path[k]` pending. */
  ghost predicate SplittingAt(nodes: Img, rows: seq<seq<nat>>, h: TreeHeader, live: set<nat>, path: seq<nat>,
      ci: seq<nat>, pos: seq<nat>, k: nat, key: Rec, child: nat) {
    && LiveIs(rows, live) && |rows| <= MAX_DEPTH
    && PathTo(nodes, rows, path, ci, pos, k)
    && SplitState(nodes, rows, h, k, pos[k], key, child)
  }

  /** The rows after node `path[d]` was split, if it was. */
  ghost function RowsAfter(rows: seq<seq<nat>>, d: nat, pos: seq<nat>, child: nat): seq<seq<nat>> {
    if child != 0 && d < |pos| && d < |rows| && pos[d] < |rows[d]| then rows[d := Ins(rows[d], pos[d] + 1, child)]
    else rows
  }

  /** What the insertion of a pending index record leaves. */
  lemma LinkedResult(nodes: Img, base: Img, nodes': Img, rows: seq<seq<nat>>, h: TreeHeader, h': TreeHeader,
      live: set<nat>, live': set<nat>,
      path: seq<nat>, ci: seq<nat>, pos: seq<nat>, k: nat, key: Rec, child: nat, rs: seq<Rec>,
      newChild: nat)
    requires SplittingAt(nodes, rows, h, live, path, ci, pos, k + 1, key, child) && k + 1 < |path|
    requires Asc(Recs(nodes, path[k])) ==> rs == InsertSorted(Recs(nodes, path[k]), IndexRec(key, child))
    requires Changed(nodes, base, nodes', live, live', h, h', path[k], rs, newChild)
    ensures var rows' := RowsAfter(rows, k, pos, newChild);
      && Contents(nodes', rows') == Contents(nodes, rows)
      && if newChild == 0 then StandingAt(nodes', rows', h', live')
         else rs != [] && SplittingAt(nodes', rows', h', live', path, ci, pos, k, rs[|rs| / 2], newChild)
  {
    hide WF, Flat, SplitImg, SplitState, HeaderOk, RootOk, AllFull, PathTo, Carried, Contents, InsertSorted, Asc,
      SetRecs, SplitHeader;
    PathToPrefix(nodes, rows, path, ci, pos, k + 1, k + 1);
    if newChild == 0 {
      LinkedState(nodes, rows, h, path, ci, pos, k, key, child, rs);
      SomeRows(nodes, rows, h, k + 1, pos[k + 1], key, child);
    } else {
      ResplitState(nodes, base, rows, h, live, path, ci, pos, k, key, child, rs, newChild);
    }
  }

  lemma SomeRows(nodes: Img, rows: seq<seq<nat>>, h: TreeHeader, d: nat, q: nat, key: Rec, child: nat)
    requires SplitState(nodes, rows, h, d, q, key, child)
    ensures rows != []
  {
  }

  /** The keys of an exact tree after the insertion of a pending index record. */
  lemma LinkKeyed(nodes: Img, base: Img, nodes': Img, rows: seq<seq<nat>>, h: TreeHeader, h': TreeHeader,
      live: set<nat>, live': set<nat>,
      path: seq<nat>, ci: seq<nat>, pos: seq<nat>, k: nat, key: Rec, child: nat, rs: seq<Rec>,
      newChild: nat)
    requires Exact(nodes, live, 0) && SplittingAt(nodes, rows, h, live, path, ci, pos, k + 1, key, child)
    requires k + 1 < |path|
    requires Asc(Recs(nodes, path[k])) ==> rs == InsertSorted(Recs(nodes, path[k]), IndexRec(key, child))
    requires Changed(nodes, base, nodes', live, live', h, h', path[k], rs, newChild)
    ensures Exact(nodes', live', 0)
  {
    hide Exact, Changed, SplitState, PathTo, InsertSorted, Asc, LiveIs, Levels;
    PathToLast(nodes, rows, path, ci, pos, k + 1);
    LevelsOfSplit(nodes, rows, h, k + 1, pos[k + 1], key, child);
    ZeroNotLive(nodes, rows, live);
    LinkExact(nodes, rows, h, live, path, ci, pos, k, key, child, rs);
    ExactAfter(nodes, base, nodes', live, live', h, h', path[k], rs, newChild);
  }

  lemma LeafReachedAsc(nodes: Img, rows: seq<seq<nat>>, h: TreeHeader, live: set<nat>, path: seq<nat>, ci: seq<nat>,
      pos: seq<nat>, rec: Rec)
    requires StandingAt(nodes, rows, h, live) && Descent(nodes, rows, 0, path, ci, pos, rec.key)
    requires !HasKey(Contents(nodes, rows), rec.key)
    ensures |path| > 0 && Asc(Recs(nodes, path[|path| - 1]))
  {
    hide WF, Flat, HasKey, InsertSorted, Asc, HeaderOk, RootOk, AllFull;
    LeafTaken(nodes, rows, h, path, ci, pos, rec);
  }

  /** What the insertion into the leaf leaves. */
  lemma LeafResult(nodes: Img, base: Img, nodes': Img, rows: seq<seq<nat>>, h: TreeHeader, h': TreeHeader,
      live: set<nat>, live': set<nat>,
      path: seq<nat>, ci: seq<nat>, pos: seq<nat>, rec: Rec, rs: seq<Rec>, child: nat)
    requires StandingAt(nodes, rows, h, live) && |rows| <= MAX_DEPTH
    requires Descent(nodes, rows, 0, path, ci, pos, rec.key) && !HasKey(Contents(nodes, rows), rec.key)
    requires rs == InsertSorted(Recs(nodes, path[|path| - 1]), rec)
    requires Changed(nodes, base, nodes', live, live', h, h', path[|path| - 1], rs, child)
    ensures var rows' := RowsAfter(rows, |path| - 1, pos, child);
      && Contents(nodes', rows') == InsertSorted(Contents(nodes, rows), rec)
      && if child == 0 then StandingAt(nodes', rows', h', live')
         else SplittingAt(nodes', rows', h', live', path, ci, pos, |path| - 1, rs[|rs| / 2], child)
  {
    hide WF, Flat, SplitImg, SplitState, HeaderOk, RootOk, AllFull, PathTo, Carried, Contents, InsertSorted, HasKey,
      Asc, SetRecs, SplitHeader, Descent, Whole, WholeFull;
    LeafTaken(nodes, rows, h, path, ci, pos, rec);
    if child != 0 {
      LeafSplit(nodes, base, rows, h, live, path, ci, pos, rs, child);
    }
  }

  lemma LeafKeyed(nodes: Img, base: Img, nodes': Img, rows: seq<seq<nat>>, h: TreeHeader, h': TreeHeader,
      live: set<nat>, live': set<nat>,
      path: seq<nat>, ci: seq<nat>, pos: seq<nat>, rec: Rec, rs: seq<Rec>, child: nat)
    requires Exact(nodes, live, 0) && StandingAt(nodes, rows, h, live) && |path| > 0
    requires Descent(nodes, rows, 0, path, ci, pos, rec.key) && !HasKey(Contents(nodes, rows), rec.key)
    requires rs == InsertSorted(Recs(nodes, path[|path| - 1]), rec)
    requires Changed(nodes, base, nodes', live, live', h, h', path[|path| - 1], rs, child)
    ensures Exact(nodes', live', 0)
  {
    hide Exact, SplitImg, SetRecs, Carried, InsertSorted, HasKey, WF, Flat, Contents, HeaderOk, RootOk, AllFull,
      LiveIs, Levels, Descent;
    StandingLevels(nodes, rows, h, live);
    ZeroNotLive(nodes, rows, live);
    LeafExact(nodes, rows, live, path, ci, pos, rec);
    ExactAfter(nodes, base, nodes', live, live', h, h', path[|path| - 1], rs, child);
  }

  lemma StandingLevels(nodes: Img, rows: seq<seq<nat>>, h: TreeHeader, live: set<nat>)
    requires StandingAt(nodes, rows, h, live)
    ensures Levels(nodes, rows)
  {
    hide Flat, Level, Indexed, Asc;
  }

  lemma LiveCarried(nodes: Img, live: set<nat>)
    requires forall m: nat :: m in live ==> m in nodes
    ensures Carried(nodes, nodes, live)
  {
  }

  /** Tree nodes are numbered from 1 to the node count. */
  lemma LiveBelow(nodes: Img, img: MapImg, bits: seq<bool>, live: set<nat>, total: nat, rows: seq<seq<nat>>)
    requires UsedOk(nodes, img, bits, live, total) && LiveIs(rows, live) && rows != [] && Whole(nodes, rows, 0)
    ensures forall n: nat :: n in live ==> 0 < n < total
  {
    hide Flat, WF;
    LevelsAre(nodes, rows, 0);
    ZeroNotLive(nodes, rows, live);
  }

  lemma OneFits(nodeSize: nat, rec: Rec)
    requires nodeSize >= 512 && SizedRec(rec, 1)
    ensures Fits(nodeSize, [rec]) && Sized([rec], 1)
  {
    SizedUsed([rec], 1);
  }

  /** Tree and index keys after the insertion into the leaf. */
  lemma LeafOutcome(nodes: Img, base: Img, nodes': Img, rows: seq<seq<nat>>, h: TreeHeader, h': TreeHeader,
      live: set<nat>, live': set<nat>, path: seq<nat>, ci: seq<nat>, pos: seq<nat>, rec: Rec, rs: seq<Rec>, child: nat)
    requires StandingAt(nodes, rows, h, live) && |rows| <= MAX_DEPTH
    requires Descent(nodes, rows, 0, path, ci, pos, rec.key) && !HasKey(Contents(nodes, rows), rec.key)
    requires |path| > 0
    requires (Asc(Recs(nodes, path[|path| - 1])) ==> rs == InsertSorted(Recs(nodes, path[|path| - 1]), rec))
    requires Changed(nodes, base, nodes', live, live', h, h', path[|path| - 1], rs, child)
    ensures var rows' := RowsAfter(rows, |path| - 1, pos, child);
      && Contents(nodes', rows') == InsertSorted(Contents(nodes, rows), rec)
      && if child == 0 then StandingAt(nodes', rows', h', live')
         else SplittingAt(nodes', rows', h', live', path, ci, pos, |path| - 1, rs[|rs| / 2], child)
    ensures Exact(nodes, live, 0) ==> Exact(nodes', live', 0)
  {
    hide StandingAt, SplittingAt, Descent, HasKey, InsertSorted, Asc, Exact, Contents, RowsAfter, Carried, SplitImg,
      SetRecs, SplitHeader;
    LeafReachedAsc(nodes, rows, h, live, path, ci, pos, rec);
    LeafResult(nodes, base, nodes', rows, h, h', live, live', path, ci, pos, rec, rs, child);
    if Exact(nodes, live, 0) {
      LeafKeyed(nodes, base, nodes', rows, h, h', live, live', path, ci, pos, rec, rs, child);
    }
  }

  // ---- sizes on the way of an insertion ----

  /** A path of live nodes from the root to a leaf, whatever the keys: enough for the sizes of an insertion along it. */
  ghost predicate Sited(nodes: Img, live: set<nat>, h: TreeHeader, path: seq<nat>) {
    && 0 !in live && |path| > 0 && path[0] == h.root && 1 <= h.treeDepth <= MAX_DEPTH
    && (forall d :: 0 <= d < |path| ==> SitedNode(nodes, live, h, path, d))
    && (forall m: nat :: m in live && m in nodes ==> nodes[m].flink == 0 || nodes[m].flink in live)
  }

  ghost predicate SitedNode(nodes: Img, live: set<nat>, h: TreeHeader, path: seq<nat>, d: nat)
    requires d < |path|
  {
    && path[d] in live && path[d] in nodes && (path[d] == h.root <==> d == 0)
    && nodes[path[d]].height == |path| - d
  }

  /** The path of any descent is one. */
  lemma DescentSited(nodes: Img, rows: seq<seq<nat>>, live: set<nat>, h: TreeHeader, path: seq<nat>, ci: seq<nat>,
      pos: seq<nat>)
    requires rows != [] && WholeFull(nodes, rows, 0) && HeaderOk(rows, h) && LiveIs(rows, live)
    requires PathOk(nodes, rows, path, ci, pos) && |path| == |rows| <= MAX_DEPTH
    ensures Sited(nodes, live, h, path)
  {
    hide Flat, WF, AllFull, LiveIs, Level, TurnOk;
    LevelsAre(nodes, rows, 0);
    ZeroNotLive(nodes, rows, live);
    PathLive(nodes, rows, live, path, ci, pos);
    forall d | 0 <= d < |path| ensures SitedNode(nodes, live, h, path, d) {
      LevelOf(nodes, rows, 0, d);
      LevelNode(nodes, rows[d], |rows| - d, pos[d]);
      if d > 0 {
        RowsApart(nodes, rows, 0, d);
        assert path[d] in rows[d];
      }
    }
    forall m: nat | m in live && m in nodes ensures nodes[m].flink == 0 || nodes[m].flink in live {
      LiveLinks(nodes, rows, live, m);
    }
  }

  /** Where a record of the right size goes in a fixed-size tree. */
  lemma SitedHere(nodes: Img, live: set<nat>, h: TreeHeader, nodeSize: nat, path: seq<nat>, k: nat, rec: Rec)
    requires nodeSize >= 512 && Filled(nodes, live, nodeSize, h.root, 0) && Sited(nodes, live, h, path) && k < |path|
    requires SizedRec(rec, if k < |path| - 1 then 2 else 1)
    ensures Insertable(nodes, live, path[k], rec)
  {
    hide Sized, Cap;
    assert SitedNode(nodes, live, h, path, k);
    assert FilledNode(nodes, nodeSize, path[k], h.root, 0);
  }

  /** The record goes in, in one node or two: path and sizes stand. */
  lemma SitedAfter(nodes: Img, base: Img, nodes': Img, live: set<nat>, live': set<nat>, h: TreeHeader,
      h': TreeHeader, nodeSize: nat, path: seq<nat>, k: nat, rs: seq<Rec>, child: nat)
    requires nodeSize >= 512 && Filled(nodes, live, nodeSize, h.root, 0) && Sited(nodes, live, h, path) && k < |path|
    requires Changed(nodes, base, nodes', live, live', h, h', path[k], rs, child)
    requires path[k] in nodes ==> OneMore(nodeSize, nodes[path[k]], rs, child)
    ensures Sited(nodes', live', h', path) && |rs| > 0 && rs[|rs| / 2].klen == KEY_SIZE
    ensures Filled(nodes', live', nodeSize, if child != 0 && k == 0 then 0 else h'.root, 0)
  {
    hide Filled, OneMore, Changed;
    assert SitedNode(nodes, live, h, path, k);
    FilledAfter(nodes, base, nodes', live, live', h, h', nodeSize, h.root, path[k], rs, child);
    hide Sited;
    SitedKept(nodes, base, nodes', live, live', h, h', path, k, rs, child);
  }

  lemma SitedKept(nodes: Img, base: Img, nodes': Img, live: set<nat>, live': set<nat>, h: TreeHeader,
      h': TreeHeader, path: seq<nat>, k: nat, rs: seq<Rec>, child: nat)
    requires Sited(nodes, live, h, path) && k < |path| && |rs| > 0
    requires Changed(nodes, base, nodes', live, live', h, h', path[k], rs, child)
    ensures Sited(nodes', live', h', path) && h'.root == h.root && 0 !in live
  {
    assert SitedNode(nodes, live, h, path, k);
    forall d | 0 <= d < |path| ensures SitedNode(nodes', live', h', path, d) {
      assert SitedNode(nodes, live, h, path, d);
    }
  }

  /** One level more still has a height above 1. */
  lemma DepthUp(nodes: Img, live: set<nat>, h: TreeHeader, path: seq<nat>)
    requires Sited(nodes, live, h, path)
    ensures (h.treeDepth + 1) % 0x100 > 1
  {
  }

  lemma IndexSized(key: Rec, child: nat)
    requires key.klen == KEY_SIZE
    ensures SizedRec(IndexRec(key, child), 2)
  {
  }

  /** The root of a fixed-size tree, split. */
  lemma SitedRoot(nodes: Img, live: set<nat>, h: TreeHeader, nodeSize: nat, path: seq<nat>)
    requires nodeSize >= 512 && Filled(nodes, live, nodeSize, 0, 0) && Sited(nodes, live, h, path)
    ensures path[0] in live && 0 !in live && Recs(nodes, path[0]) != [] && Recs(nodes, path[0])[0].klen == KEY_SIZE
  {
    hide Cap;
    assert SitedNode(nodes, live, h, path, 0);
    assert FilledNode(nodes, nodeSize, path[0], 0, 0);
    CapBounds(nodeSize, nodes[path[0]].height);
    FirstKeySize(nodes[path[0]].recs, nodes[path[0]].height);
  }

  /** Tree and index keys after the insertion of a pending index record. */
  lemma LinkOutcome(nodes: Img, base: Img, nodes': Img, rows: seq<seq<nat>>, h: TreeHeader, h': TreeHeader,
      live: set<nat>, live': set<nat>, path: seq<nat>, ci: seq<nat>, pos: seq<nat>, k: nat, key: Rec, child: nat,
      rs: seq<Rec>, newChild: nat)
    requires SplittingAt(nodes, rows, h, live, path, ci, pos, k + 1, key, child) && k + 1 < |path|
    requires Asc(Recs(nodes, path[k])) ==> rs == InsertSorted(Recs(nodes, path[k]), IndexRec(key, child))
    requires Changed(nodes, base, nodes', live, live', h, h', path[k], rs, newChild)
    ensures var rows' := RowsAfter(rows, k, pos, newChild);
      && Contents(nodes', rows') == Contents(nodes, rows)
      && if newChild == 0 then StandingAt(nodes', rows', h', live')
         else rs != [] && SplittingAt(nodes', rows', h', live', path, ci, pos, k, rs[|rs| / 2], newChild)
    ensures Exact(nodes, live, 0) ==> Exact(nodes', live', 0)
  {
    hide SplittingAt, StandingAt, Exact, Contents, InsertSorted, Asc, Carried, SplitImg, SetRecs, SplitHeader,
      RowsAfter, IndexRec;
    LinkedResult(nodes, base, nodes', rows, h, h', live, live', path, ci, pos, k, key, child, rs, newChild);
    if Exact(nodes, live, 0) {
      LinkKeyed(nodes, base, nodes', rows, h, h', live, live', path, ci, pos, k, key, child, rs, newChild);
    }
  }

  lemma FirstKeySize(rs: seq<Rec>, height: nat)
    requires Sized(rs, height)
    ensures rs != [] ==> rs[0].klen == KEY_SIZE
  {
  }

  lemma NewRootFilled(nodes: Img, base: Img, live: set<nat>, nodeSize: nat, n: nat, height: nat, oldRoot: nat,
      key: Rec, child: nat)
    requires nodeSize >= 512 && Filled(nodes, live, nodeSize, 0, 0) && 0 !in live && Carried(nodes, base, live)
    requires n !in live && n != 0 && height > 1 && key.klen == KEY_SIZE
    requires oldRoot in live && Recs(nodes, oldRoot) != [] && Recs(nodes, oldRoot)[0].klen == KEY_SIZE
    ensures Recs(base, oldRoot) != []
    ensures Filled(base[n := NewRoot(height, Recs(base, oldRoot), oldRoot, key, child)], live + {n}, nodeSize, n, 0)
  {
    hide Filled;
    var root := NewRoot(height, Recs(base, oldRoot), oldRoot, key, child);
    RootSized(nodeSize, root.recs, height);
    FilledRoot(nodes, base, live, nodeSize, n, root);
  }

  lemma NewRootExact(nodes: Img, base: Img, live: set<nat>, n: nat, height: nat, oldRoot: nat, key: Rec, child: nat)
    requires 0 !in live && Exact(nodes, live, 0) && Carried(nodes, base, live) && n !in live && n != 0
    requires oldRoot in live && Recs(nodes, oldRoot) != []
    requires child in live && Recs(nodes, child) != [] && Recs(nodes, child)[0].key == key.key
    ensures Recs(base, oldRoot) != []
    ensures Exact(base[n := NewRoot(height, Recs(base, oldRoot), oldRoot, key, child)], live + {n}, 0)
  {
    hide Exact;
    ExactRoot(nodes, base, live, n, NewRoot(height, Recs(base, oldRoot), oldRoot, key, child));
  }

  /** Where sorted insertion puts a pending index record. */
  lemma LinkedAt(nodes: Img, rows: seq<seq<nat>>, h: TreeHeader, path: seq<nat>, ci: seq<nat>, pos: seq<nat>,
      k: nat, key: Rec, child: nat, rs: seq<Rec>)
    requires PathTo(nodes, rows, path, ci, pos, k + 1) && SplitState(nodes, rows, h, k + 1, pos[k + 1], key, child)
    requires Asc(Recs(nodes, path[k])) ==> rs == InsertSorted(Recs(nodes, path[k]), IndexRec(key, child))
    ensures k < |ci| && k < |pos| && k + 1 < |rows| && pos[k] < |rows[k]| && path[k] == rows[k][pos[k]]
    ensures path[k] in nodes
    ensures ci[k] < |Recs(nodes, path[k])| && rs == Ins(Recs(nodes, path[k]), ci[k] + 1, IndexRec(key, child))
    ensures WholeFull(SetRecs(nodes, path[k], rs), rows, 0)
  {
    hide Flat, WF, InsertSorted, PathTo, AllFull, HeaderOk, RootOk, Off, Level, SetRecs, Contents, Asc;
    PathToLast(nodes, rows, path, ci, pos, k + 1);
    LinkGives(nodes, rows, h, k, pos[k], ci[k], key, child);
    ParentAsc(nodes, rows, k, pos[k], ci[k], IndexRec(key, child));
  }

  /** The node whose index record is pending, in the row below its parent's. */
  lemma PendingChild(nodes: Img, rows: seq<seq<nat>>, h: TreeHeader, live: set<nat>, d: nat, q: nat, key: Rec,
      child: nat)
    requires SplitState(nodes, rows, h, d + 1, q, key, child) && LiveIs(rows, live)
    ensures d + 1 < |rows| && child in rows[d + 1] && child in live && Recs(nodes, child) != []
    ensures Recs(nodes, child)[0].key == key.key
    ensures forall m :: 0 <= m < |rows[d]| ==> rows[d][m] !in rows[d + 1] && rows[d][m] in live
  {
    hide Flat, WF, AllFull, HeaderOk, RootOk, LiveIs;
    LevelsOfSplit(nodes, rows, h, d + 1, q, key, child);
    assert child == rows[d + 1][q + 1];
    RowsLive(rows, live, d + 1, child);
    RowsApart(nodes, rows, d, d + 1);
    forall m | 0 <= m < |rows[d]| ensures rows[d][m] !in rows[d + 1] && rows[d][m] in live {
      assert rows[d][m] in rows[d];
      RowsLive(rows, live, d, rows[d][m]);
    }
  }

  /** A pending index record is exact where it goes, and leaves the parent's first key alone. */
  lemma LinkExact(nodes: Img, rows: seq<seq<nat>>, h: TreeHeader, live: set<nat>, path: seq<nat>, ci: seq<nat>,
      pos: seq<nat>, k: nat, key: Rec, child: nat, rs: seq<Rec>)
    requires PathTo(nodes, rows, path, ci, pos, k + 1) && LiveIs(rows, live) && Exact(nodes, live, 0) && 0 !in live
    requires SplitState(nodes, rows, h, k + 1, pos[k + 1], key, child)
    requires Asc(Recs(nodes, path[k])) ==> rs == InsertSorted(Recs(nodes, path[k]), IndexRec(key, child))
    ensures path[k] in nodes && path[k] in live
    ensures Exact(SetRecs(nodes, path[k], rs), live, 0)
  {
    hide Flat, WF, InsertSorted, PathTo, AllFull, HeaderOk, RootOk, Off, LiveIs, Exact, Level, SetRecs, Contents,
      SplitState, WholeFull, Asc;
    LinkedAt(nodes, rows, h, path, ci, pos, k, key, child, rs);
    PathToPrefix(nodes, rows, path, ci, pos, k + 1, k + 1);
    PendingChild(nodes, rows, h, live, k, pos[k + 1], key, child);
    var n, x := path[k], IndexRec(key, child);
    assert ExactRec(nodes, live, x, 0);
    forall j | 0 <= j < |rs| && nodes[n].height > 1 ensures ExactRec(nodes, live, rs[j], 0) && Kid(rs[j]) != n {
      LinkedKid(nodes, rows, live, k, pos[k], ci[k] + 1, x, j);
    }
    ExactSet(nodes, live, n, rs);
  }

  lemma LinkedKid(nodes: Img, rows: seq<seq<nat>>, live: set<nat>, d: nat, i: nat, q: nat, x: Rec, j: nat)
    requires Exact(nodes, live, 0) && 0 !in live && d < |rows| - 1 && i < |rows[d]| && rows[d][i] in nodes
    requires rows[d][i] in live
    requires q <= |Recs(nodes, rows[d][i])| && ExactRec(nodes, live, x, 0)
    requires var rs := Ins(Recs(nodes, rows[d][i]), q, x);
      WholeFull(SetRecs(nodes, rows[d][i], rs), rows, 0) && j < |rs|
    requires nodes[rows[d][i]].height > 1 && forall m :: 0 <= m < |rows[d]| ==> rows[d][m] !in rows[d + 1]
    ensures var r := Ins(Recs(nodes, rows[d][i]), q, x)[j]; ExactRec(nodes, live, r, 0) && Kid(r) != rows[d][i]
  {
    hide Flat, WF, Off;
    var n := rows[d][i];
    var was := Recs(nodes, n);
    var rs := Ins(was, q, x);
    NextNode(SetRecs(nodes, n, rs), rows, 0, d, i, j);
    assert Kid(rs[j]) in rows[d + 1];
    assert ExactNode(nodes, live, n, 0);
    assert rs[j] == if j < q then was[j] else if j == q then x else was[j - 1];
    assert j < q ==> ExactRec(nodes, live, was[j], 0);
    assert j > q ==> ExactRec(nodes, live, was[j - 1], 0);
  }

  /** A record that arrives without fallback goes behind the leaf's first, unless the leaf is the root. */
  lemma LeafExact(nodes: Img, rows: seq<seq<nat>>, live: set<nat>, path: seq<nat>, ci: seq<nat>, pos: seq<nat>,
      rec: Rec)
    requires rows != [] && Descent(nodes, rows, 0, path, ci, pos, rec.key) && !HasKey(Contents(nodes, rows), rec.key)
    requires LiveIs(rows, live) && Exact(nodes, live, 0) && 0 !in live && path[|path| - 1] in nodes
    requires path[|path| - 1] in live
    ensures var n := path[|path| - 1];
      Exact(SetRecs(nodes, n, InsertSorted(Recs(nodes, n), rec)), live, 0)
  {
    hide Flat, WF, Off, LiveIs, Pick, HasKey;
    var k := |path| - 1;
    var n := path[k];
    var was := Recs(nodes, n);
    var rs := InsertSorted(was, rec);
    var nodes' := SetRecs(nodes, n, rs);
    LevelOf(nodes, rows, 0, k);
    assert NodeAt(nodes, rows[k][pos[k]], |rows| - k);
    if k == 0 {
      SingleRoot(nodes, rows, 0);
      forall m: nat | m in live ensures m in nodes' && nodes'[m].height <= 1 {
        var d, i := RowOf(nodes, rows, 0, live, m);
      }
      ExactLeaf(nodes', live);
    } else {
      ParentRecord(nodes, rows, live, path, ci, pos, rec.key);
      if was != [] {
        LeafRecord(nodes, rows[k], pos[k], 0);
        NotItsKey(Contents(nodes, rows), Off(nodes, rows[k], pos[k]), rec.key);
        assert was[0].key < rec.key;
        assert rs[0] == was[0];
      }
      ExactSet(nodes, live, n, rs);
    }
  }

  lemma NotItsKey(c: seq<Rec>, x: nat, p: int)
    requires x < |c| && !HasKey(c, p)
    ensures c[x].key != p
  {
  }

  /** The record that names the leaf has a key not above `p`, and it is the leaf's first key. */
  lemma ParentRecord(nodes: Img, rows: seq<seq<nat>>, live: set<nat>, path: seq<nat>, ci: seq<nat>, pos: seq<nat>,
      p: int)
    requires |path| == |rows| > 1 && Descent(nodes, rows, 0, path, ci, pos, p)
    requires LiveIs(rows, live) && Exact(nodes, live, 0) && 0 !in live
    ensures var was := Recs(nodes, path[|path| - 1]); was != [] && was[0].key <= p
  {
    hide Flat, WF, Off, LiveIs, Pick, Exact;
    var k := |path| - 1;
    var u := path[k - 1];
    assert TurnOk(nodes, rows, ci, pos, k - 1);
    NextNode(nodes, rows, 0, k - 1, pos[k - 1], ci[k - 1]);
    LevelOf(nodes, rows, 0, k - 1);
    assert NodeAt(nodes, rows[k - 1][pos[k - 1]], |rows| - (k - 1));
    assert u in rows[k - 1];
    RowsLive(rows, live, k - 1, u);
    ExactOf(nodes, live, u, ci[k - 1]);
  }

  lemma LevelsOfSplit(nodes: Img, rows: seq<seq<nat>>, h: TreeHeader, d: nat, q: nat, key: Rec, child: nat)
    requires SplitState(nodes, rows, h, d, q, key, child)
    ensures Levels(nodes, rows)
  {
  }

  lemma ResplitLive(rows: seq<seq<nat>>, live: set<nat>, d: nat, q: nat, r: nat)
    requires LiveIs(rows, live) && d < |rows| && q <= |rows[d]|
    ensures LiveIs(rows[d := Ins(rows[d], q, r)], live + {r})
  {
    forall m: nat ensures m in live + {r} <==> InRows(rows[d := Ins(rows[d], q, r)], m) {
      InRowsIns(rows, d, q, r, m);
    }
  }

  /** Splitting a node of row `d` keeps the records of every row above. */
  lemma ResplitRow(nodes: Img, base: Img, rows: seq<seq<nat>>, live: set<nat>, d: nat, n: nat, rs: seq<Rec>, r: nat,
      k: nat)
    requires LiveIs(rows, live) && Levels(nodes, rows) && k < d < |rows| && n in rows[d] && n in base
    requires Carried(nodes, base, live)
    requires r !in live && 2 <= |rs|
    ensures forall i :: 0 <= i < |rows[k]| ==>
      Recs(SplitImg(SetRecs(base, n, rs), n, r, |rs| / 2), rows[k][i]) == Recs(nodes, rows[k][i])
  {
    RowsApart(nodes, rows, k, d);
    forall i | 0 <= i < |rows[k]|
      ensures Recs(SplitImg(SetRecs(base, n, rs), n, r, |rs| / 2), rows[k][i]) == Recs(nodes, rows[k][i])
    {
      assert rows[k][i] in rows[k];
      assert InRows(rows, rows[k][i]);
    }
  }

  lemma ResplitPath(nodes: Img, base: Img, rows: seq<seq<nat>>, live: set<nat>, path: seq<nat>, ci: seq<nat>,
      pos: seq<nat>, d: nat, rs: seq<Rec>, r: nat)
    requires PathTo(nodes, rows, path, ci, pos, d) && LiveIs(rows, live) && Levels(nodes, rows)
    requires Carried(nodes, base, live)
    requires r != 0 && r !in live && 2 <= |rs|
    ensures path[d] in base && d < |rows| && pos[d] < |rows[d]|
    ensures PathTo(SplitImg(SetRecs(base, path[d], rs), path[d], r, |rs| / 2),
      rows[d := Ins(rows[d], pos[d] + 1, r)], path, ci, pos, d)
  {
    hide Levels, Carried, LiveIs, PathTo, SplitImg, Ins;
    PathToLast(nodes, rows, path, ci, pos, d);
    assert path[d] in rows[d];
    RowsLive(rows, live, d, path[d]);
    LiveBase(nodes, base, live, path[d]);
    var nodes' := SplitImg(SetRecs(base, path[d], rs), path[d], r, |rs| / 2);
    var rows' := rows[d := Ins(rows[d], pos[d] + 1, r)];
    forall k | 0 <= k < d
      ensures rows'[k] == rows[k] && forall i :: 0 <= i < |rows[k]| ==>
        Recs(nodes', rows[k][i]) == Recs(nodes, rows[k][i])
    {
      ResplitRow(nodes, base, rows, live, d, path[d], rs, r, k);
    }
    InsKeeps(rows[d], pos[d], r);
    PathToKept(nodes, nodes', rows, rows', path, ci, pos, d);
  }

  lemma LiveBase(nodes: Img, base: Img, live: set<nat>, n: nat)
    requires Carried(nodes, base, live) && n in live
    ensures n in nodes && n in base
  {
  }

  lemma InsKeeps(s: seq<nat>, q: nat, r: nat)
    requires q < |s|
    ensures q < |Ins(s, q + 1, r)| && Ins(s, q + 1, r)[q] == s[q]
  {
  }

  lemma NoneLive(rows: seq<seq<nat>>, live: set<nat>)
    requires LiveIs(rows, live)
    ensures rows == [] ==> live == {}
  {
    if rows == [] {
      forall n: nat ensures n !in live {
        EmptyRows(rows, n);
      }
    }
  }

  /** A single leaf has no index keys, and may hold as few records as it likes. */
  lemma LeafAlone(nodes: Img, leaf: nat, rec: Rec, nodeSize: nat)
    requires leaf in nodes && nodes[leaf] == Node(Leaf, 1, 0, 0, [rec])
    ensures Exact(nodes, {leaf}, 0)
    ensures nodeSize >= 512 && SizedRec(rec, 1) ==> Filled(nodes, {leaf}, nodeSize, leaf, 0)
  {
    ExactLeaf(nodes, {leaf});
  }

  /** A single leaf is a well-formed tree. */
  lemma LeafTree(nodes: Img, leaf: nat, recs: seq<Rec>)
    requires leaf != 0 && leaf in nodes && nodes[leaf] == Node(Leaf, 1, 0, 0, recs) && Asc(recs) && recs != []
    ensures TreeOk(nodes, [[leaf]], TreeHeader(leaf, leaf, leaf, 1)) && Contents(nodes, [[leaf]]) == recs
    ensures LiveIs([[leaf]], {leaf})
  {
    var rows := [[leaf]];
    FlatOne(nodes, leaf);
    assert LinksAt(nodes, rows[0], 0);
    assert leaf in rows[0];
  }

  /** The leaf's new records make a whole tree with the record in its sorted place. */
  lemma LeafTaken(nodes: Img, rows: seq<seq<nat>>, h: TreeHeader, path: seq<nat>, ci: seq<nat>, pos: seq<nat>, rec: Rec)
    requires Descent(nodes, rows, 0, path, ci, pos, rec.key) && !HasKey(Contents(nodes, rows), rec.key)
    requires rows != [] && HeaderOk(rows, h) && RootOk(nodes, rows)
    ensures var n := path[|path| - 1];
      var rs := InsertSorted(Recs(nodes, n), rec);
      && n in nodes && Asc(Recs(nodes, n))
      && WholeFull(SetRecs(nodes, n, rs), rows, 0) && RootOk(SetRecs(nodes, n, rs), rows)
      && Contents(SetRecs(nodes, n, rs), rows) == InsertSorted(Contents(nodes, rows), rec)
      && PathTo(nodes, rows, path, ci, pos, |path| - 1) && Whole(nodes, rows, 0) && |path| == |rows|
  {
    hide Flat, Pick, InsertSorted, HasKey, WF, Asc, AllFull, TurnOk, NoFallback, Off, Tight, Contents, PathTo, RootOk,
      HeaderOk;
    LeafInsert(nodes, rows, 0, path, ci, pos, rec);
    LeafAsc(nodes, rows, pos[|path| - 1]);
    WholePath(nodes, rows, path, ci, pos);
    RootAside(nodes, rows, pos[|path| - 1], InsertSorted(Recs(nodes, path[|path| - 1]), rec));
  }

  /** What a leaf holds is nothing to an index root. */
  lemma RootAside(nodes: Img, rows: seq<seq<nat>>, i: nat, rs: seq<Rec>)
    requires rows != [] && Whole(nodes, rows, 0) && i < |rows[|rows| - 1]| && rows[|rows| - 1][i] in nodes
    requires RootOk(nodes, rows)
    ensures RootOk(SetRecs(nodes, rows[|rows| - 1][i], rs), rows)
  {
    hide WF;
    if |rows| > 1 && rows[0] != [] {
      RowsApart(nodes, rows, 0, |rows| - 1) by { LevelsHold(nodes, rows); }
    }
  }

  lemma WholePath(nodes: Img, rows: seq<seq<nat>>, path: seq<nat>, ci: seq<nat>, pos: seq<nat>)
    requires PathOk(nodes, rows, path, ci, pos)
    ensures PathTo(nodes, rows, path, ci, pos, |path| - 1)
  {
    hide PathOk;
    PathLengths(nodes, rows, path, ci, pos);
    assert path[..|path|] == path && ci[..|ci|] == ci && pos[..|pos|] == pos;
  }

  lemma LevelsHold(nodes: Img, rows: seq<seq<nat>>)
    requires Whole(nodes, rows, 0)
    ensures Levels(nodes, rows)
  {
  }

  lemma LeafSplit(nodes: Img, base: Img, rows: seq<seq<nat>>, h: TreeHeader, live: set<nat>,
                  path: seq<nat>, ci: seq<nat>, pos: seq<nat>, rs: seq<Rec>, r: nat)
    requires |path| == |rows| > 0 && PathTo(nodes, rows, path, ci, pos, |path| - 1) && LiveIs(rows, live)
    requires Whole(nodes, rows, 0)
    requires var n := path[|path| - 1];
      n in nodes && WholeFull(SetRecs(nodes, n, rs), rows, 0) && HeaderOk(rows, h) &&
        RootOk(SetRecs(nodes, n, rs), rows)
    requires Carried(nodes, base, live)
    requires r != 0 && r !in live && 2 <= |rs|
    ensures Resplit(base, rows, h, live, path, ci, pos, |path| - 1, rs, r,
      Contents(SetRecs(nodes, path[|path| - 1], rs), rows))
  {
    hide WholeFull, Whole, SplitState, SplitImg, HeaderOk, RootOk, SplitHeader, PathTo, Contents, SetRecs, LiveIs,
      Carried, SameTree, InRows, Levels;
    var d := |path| - 1;
    CarriedIsSame(nodes, base, rows, live);
    NotLive(rows, live, r);
    PathToLast(nodes, rows, path, ci, pos, d);
    SplitAfterEdit(nodes, base, rows, h, d, pos[d], rs, r, |rs| / 2);
    LevelsHold(nodes, rows);
    ResplitPath(nodes, base, rows, live, path, ci, pos, d, rs, r);
    ResplitLive(rows, live, d, pos[d] + 1, r);
  }
}
