/** The generic B-tree write engine: descent, insertion with splits, deletion with rebalancing. */
module BTreeWriters {
  import opened Nodes
  import opened Rows
  import opened Edits
  import opened Steps
  import opened Search
  import opened LeafEdits
  import opened Trees
  import opened Deletes
  import opened FixedSizes
  import opened ExactKeys
  import opened Fallback
  import opened LeafChain
  import opened Chains
  import opened NodePool
  import opened NodeFiles
  import opened Descents
  import opened Inserts
  import opened Rooms
  import opened Repairs
  import opened Mending

  class BTreeWriter {
    const file: NodeFile
    var h: TreeHeader
    var leafRecords: nat
    ghost var rows: seq<seq<nat>>

    ghost predicate Valid()
      reads this, file
    {
      && file.Valid()
      && TreeOk(file.nodes, rows, h)
      && LiveIs(rows, file.live)
      && leafRecords == |Contents(file.nodes, rows)| % U32
    }

    /** Some rows make the nodes a well-formed tree. */
    ghost predicate WellFormed()
      reads this`h, file
    {
      exists rs: seq<seq<nat>> :: TreeOk(file.nodes, rs, h) && LiveIs(rs, file.live)
    }

    /** The leaf chain, from the header's first leaf to its last, holds the records `c`. */
    ghost predicate Chain(c: seq<Rec>)
      reads this`h, file
    {
      ChainHolds(file.nodes, file.live, h, c)
    }

    /** The nodes of `path` above its leaf are index nodes of the tree. */
    ghost predicate PathAbove(path: seq<nat>)
      reads file
    {
      IndexPath(file.nodes, file.live, path)
    }

    /** The leaf at the end of `path` holds a key below that of the index record `r` that names it. */
    ghost predicate Undercuts(path: seq<nat>, r: Rec)
      requires |path| > 0
      reads file
    {
      Undercut(file.nodes, file.live, path[|path| - 1], r)
    }

    /** The records of the tree, in order. */
    ghost function Records(): seq<Rec>
      reads this`h, this`rows, file
    {
      Contents(file.nodes, rows)
    }

    ghost predicate WholeTree()
      reads this`h, this`rows, file
    {
      rows != [] && WholeFull(file.nodes, rows, 0) && HeaderOk(rows, h)
    }

    /** Records of the extents tree's two sizes, every node but `exempt` (the root) holding the minimum
        record count (`dip` may lack one record). */
    ghost predicate Packed(exempt: nat, dip: nat)
      reads file
    {
      file.nodeSize >= 512 && Filled(file.nodes, file.live, file.nodeSize, exempt, dip)
    }

    /** The root is exempt, unless it has just been split. */
    ghost predicate PackedAfter(rootSplit: bool)
      reads this`h, file
    {
      Packed(if rootSplit then 0 else h.root, 0)
    }

    lemma PackedIs()
      ensures PackedAfter(true) == Packed(0, 0) && PackedAfter(false) == Packed(h.root, 0)
    {
    }

    /** Exact index keys; records that name `loose` may carry a key that is not its first. */
    ghost predicate Keyed(loose: nat)
      reads file
    {
      Exact(file.nodes, file.live, loose)
    }

    ghost predicate Stocked(exempt: nat, dip: nat)
      reads file
    {
      Packed(exempt, dip) && Keyed(0)
    }

    /** A tree file as formatted: no records. */
    constructor (file: NodeFile)
      requires file.Valid() && file.live == {}
      ensures this.file == file && Valid() && Records() == [] && Stocked(h.root, 0)
    {
      this.file := file;
      h := EmptyHeader;
      leafRecords := 0;
      rows := [];
    }

    /** A tree of one leaf, node 1. */
    constructor OneLeaf(file: NodeFile, recs: seq<Rec>)
      requires file.Valid() && file.live == {1} && 1 in file.nodes && file.nodes[1] == Node(Leaf, 1, 0, 0, recs)
      requires Asc(recs) && 0 < |recs| < U32
      ensures this.file == file && Valid() && Records() == recs && Keyed(0) && LeafCount() == 1
    {
      hide NodeFile.Valid, TreeOk, LiveIs, Contents, Asc;
      this.file := file;
      h := TreeHeader(1, 1, 1, 1);
      leafRecords := |recs|;
      rows := [[1]];
      new;
      LeafTree(file.nodes, 1, recs);
    }

    // ---- descent ----

    static method ChooseChild(rs: seq<Rec>, p: int) returns (chosen: nat)
      ensures chosen == Pick(rs, p)
    {
      var last := -1;
      for i := 0 to |rs|
        invariant last == i - 1
        invariant forall k :: 0 <= k < i ==> rs[k].key <= p
      {
        if rs[i].key <= p {
          last := i;
        } else {
          LowerBoundAt(rs, p + 1, i);
          return if last < 0 then 0 else last;
        }
      }
      LowerBoundAt(rs, p + 1, |rs|);
      return if last < 0 then 0 else last;
    }

    /** No node is leaked and none is dangling: the bitmap marks exactly the header node and the map nodes, and the
        nodes the root reaches within the tree's depth; the free count is the number of clear bits. */
    lemma NothingLeaks()
      requires Valid()
      ensures forall n: nat :: n < file.totalNodes ==>
        (Bit(file.BitMap(), n) <==> n in file.chain || ReachedWithin(file.nodes, h.root, n, h.treeDepth))
      ensures file.freeNodes == Clear(file.BitMap(), file.totalNodes)
      ensures forall n: nat :: file.totalNodes <= n < |file.BitMap()| ==> !file.BitMap()[n]
    {
      hide NodesIn, Clear, WF, Flat, AllFull, Reached, Bits, InRows;
      assert forall n: nat :: n in file.img <==> n in file.chain;
      forall n: nat ensures n in file.live <==> ReachedWithin(file.nodes, h.root, n, h.treeDepth) {
        if rows == [] {
          EmptyRows(rows, n);
        } else {
          RootReaches(file.nodes, rows, n);
        }
      }
    }

    lemma NodesBelow()
      requires Valid() && rows != []
      ensures forall n: nat :: n in file.live ==> 0 < n < file.totalNodes
    {
      hide NodesIn, Bits, Clear, WF, Flat, HeaderOk, RootOk, AllFull;
      LiveBelow(file.nodes, file.img, Bits(file.img, file.chain), file.live, file.totalNodes, rows);
    }

    /** A tree of fixed sizes is never too deep to descend. */
    lemma ShallowEnough()
      requires Valid() && rows != [] && Packed(h.root, 0)
      ensures |rows| <= MAX_DEPTH
    {
      hide Bits, Clear, WF, Flat, HeaderOk, RootOk, AllFull, Filled;
      NodesBelow();
      file.CountsFit();
      NeverTooDeep(file.nodes, rows, file.live, file.nodeSize, h, file.totalNodes);
    }

    /** The path from the root to the leaf that would hold key `p`. */
    method Descend(p: int) returns (st: Status, path: seq<nat>, ci: seq<nat>, ghost pos: seq<nat>)
      ensures WholeTree() ==> st == (if |rows| <= MAX_DEPTH then Ok else Corrupt)
      ensures h.root == 0 ==> st == Corrupt
      ensures WholeTree() && st == Ok ==>
        PathOk(file.nodes, rows, path, ci, pos) && |path| == |rows| && Followed(file.nodes, path, ci, p)
    {
      hide Flat, WF, Pick, AllFull, HeaderOk, PathOk, NodeAt, Off;
      path, ci, pos := [], [], [0];
      var cur := h.root;
      if cur == 0 {
        RootMapped(file.nodes, rows, h);
        return Corrupt, [], [], [];
      }
      ghost var whole := WholeTree();
      if whole {
        RootPath(file.nodes, rows, h);
      }
      for depth := 0 to MAX_DEPTH
        invariant |path| == depth == |ci| == |pos| - 1
        invariant whole ==> depth < |rows| && PathOk(file.nodes, rows, path + [cur], ci, pos)
        invariant Followed(file.nodes, path, ci, p)
      {
        ghost var before := path + [cur];
        if whole {
          DescentNode(file.nodes, rows, before, ci, pos);
        }
        var nd;
        st, nd := file.LoadNode(cur);
        if st != Ok {
          return;
        }
        path := path + [cur];
        if nd.kind == Leaf {
          return;
        }
        if nd.kind != Index || nd.recs == [] {
          st := Corrupt;
          return;
        }
        var chosen := ChooseChild(nd.recs, p);
        if !nd.recs[chosen].data.Child? {
          st := Corrupt;
          return;
        }
        if whole {
          PathExtend(file.nodes, rows, 0, path, ci, pos, chosen);
          pos := pos + [Off(file.nodes, rows[depth], pos[depth]) + chosen];
        } else {
          pos := pos + [0];
        }
        ci := ci + [chosen];
        cur := nd.recs[chosen].data.num;
      }
      st := Corrupt;
    }
  
    // ---- insertion ----

    /** `sort.Search`: the first position whose key is not below `k`. */
    static method SearchPlace(rs: seq<Rec>, k: int) returns (n: nat)
      ensures n <= |rs|
      ensures Asc(rs) ==> n == LowerBound(rs, k)
    {
      var i, j := 0, |rs|;
      while i < j
        invariant 0 <= i <= j <= |rs|
        invariant Asc(rs) ==> forall x :: 0 <= x < i ==> rs[x].key < k
        invariant Asc(rs) && j < |rs| ==> k <= rs[j].key
      {
        var m := (i + j) / 2;
        if rs[m].key < k {
          i := m + 1;
        } else {
          j := m;
        }
      }
      n := i;
      if Asc(rs) {
        LowerBoundAt(rs, k, n);
      }
    }

    /** Points node `n` back at `to`. */
    method Relink(n: nat, to: nat) returns (st: Status)
      modifies file`nodes
      ensures st == Ok ==> n in old(file.nodes) && file.nodes == old(file.nodes)[n := old(file.nodes)[n].(blink := to)]
      ensures n in old(file.nodes) && Fits(file.nodeSize, old(file.nodes)[n].recs) ==> st == Ok
      ensures old(file.Valid()) ==> file.Valid()
      ensures st != NoSpace
    {
      var nd;
      st, nd := file.LoadNode(n);
      if st == Ok {
        st := file.StoreNode(n, nd.(blink := to));
      }
    }

    /** Moves the upper half of `nd` (node `n`, not yet stored) into a new right neighbour.
        `base` is the image after the new node was allocated. */
    method SplitNode(n: nat, nd: Node) returns (st: Status, key: Rec, right: nat, ghost base: Img)
      requires file.Valid() && n in file.live && !Fits(file.nodeSize, nd.recs)
      modifies file, this`h
      ensures st == Ok ==>
        file.Valid() && right != 0 && right !in old(file.live) && file.live == old(file.live) + {right}
      ensures st == Ok ==> 2 <= |nd.recs| && key == nd.recs[|nd.recs| / 2]
      ensures st == Ok ==> n in base && Carried(old(file.nodes), base, old(file.live))
      ensures st == Ok ==> file.nodes == SplitImg(base[n := nd], n, right, |nd.recs| / 2)
      ensures st == Ok ==> h == SplitHeader(base[n := nd], old(h), n, right)
      ensures st == Ok ==> right != 0
      ensures nd.flink == 0 || nd.flink in old(file.live) ==>
        Verdict(file.nodeSize, nd.recs, st, right, old(file.freeNodes))
      ensures old(file.freeNodes) > 0 ==> st != NoSpace && (st == Ok ==> file.freeNodes + 1 == old(file.freeNodes))
    {
      hide NodeFile.Valid, Fits, SplitImg;
      file.SizeOk();
      ghost var recorded;
      st, right, recorded := file.AllocNode();
      base := file.nodes;
      key := Rec(0, 0, Child(0));
      if st != Ok {
        return;
      }
      var mid := |nd.recs| / 2;
      file.LiveFits(n);
      if nd.flink != 0 {
        if nd.flink in old(file.live) {
          file.LiveFits(nd.flink);
        }
        st := Relink(nd.flink, right);
        if st != Ok {
          return;
        }
      } else if nd.kind == Leaf {
        h := h.(lastLeaf := right);
      }
      SplitStores(base, n, nd, right, mid);
      st := file.StoreNode(n, nd.(flink := right, recs := nd.recs[..mid]));
      if st != Ok {
        return;
      }
      st := file.StoreNode(right, Node(nd.kind, nd.height, nd.flink, n, nd.recs[mid..]));
      if st != Ok {
        return;
      }
      TwoRecords(file.nodeSize, nd.recs);
      key := nd.recs[mid];
    }

    /** The right neighbour of node `n`, if it has one, is a node of the tree. */
    ghost predicate LinkedOn(n: nat)
      reads file
    {
      n in file.nodes && (file.nodes[n].flink == 0 || file.nodes[n].flink in file.live)
    }

    /** Inserts a record into node `n` at its sorted place, splitting the node when it does not fit:
        `insertIntoLeaf`, and the body of `propagateSplit`. */
    method InsertRecord(n: nat, rec: Rec)
      returns (st: Status, key: Rec, child: nat, ghost base: Img, ghost rs: seq<Rec>)
      requires file.Valid() && n in file.live
      modifies file, this`h
      ensures st == Ok ==> file.Valid() && n in old(file.nodes) && old(file.live) <= file.live
      ensures st == Ok ==>
        Changed(old(file.nodes), base, file.nodes, old(file.live), file.live, old(h), h, n, rs, child)
      ensures Asc(old(Recs(file.nodes, n))) ==> rs == InsertSorted(old(Recs(file.nodes, n)), rec)
      ensures st == Ok ==> AllIn(old(Recs(file.nodes, n)), rs)
      ensures st == Ok && child != 0 ==> 2 <= |rs| && key == rs[|rs| / 2]
      ensures old(Insertable(file.nodes, file.live, n, rec)) ==> st == Ok || st == NoSpace
      ensures st == Ok && old(Insertable(file.nodes, file.live, n, rec)) ==>
        n in old(file.nodes) && OneMore(file.nodeSize, old(file.nodes)[n], rs, child)
      ensures old(LinkedOn(n)) ==> Verdict(file.nodeSize, rs, st, child, old(file.freeNodes))
      ensures old(file.freeNodes) > 0 ==> st != NoSpace
      ensures old(file.freeNodes) > 0 && st == Ok ==>
        file.freeNodes + (if child == 0 then 0 else 1) == old(file.freeNodes)
    {
      hide NodeFile.Valid, SplitImg, Asc, InsertSorted, Sized, SizedRec, OneMore, Fits;
      key, child, base, rs := rec, 0, file.nodes, [];
      file.LiveFits(n);
      file.SizeOk();
      var nd;
      st, nd := file.LoadNode(n);
      var place, recs := PlaceRecord(nd.recs, rec);
      rs := recs;
      if Insertable(file.nodes, file.live, n, rec) {
        GainsOne(file.nodeSize, nd, place, rec);
      }
      if Fits(file.nodeSize, recs) {
        st := file.StoreNode(n, nd.(recs := recs));
        return;
      }
      st, key, child, base := SplitNode(n, nd.(recs := recs));
    }

    /** The records of a node with a new one at the place `SearchPlace` finds. */
    static method PlaceRecord(rs: seq<Rec>, rec: Rec) returns (place: nat, recs: seq<Rec>)
      ensures place <= |rs| && recs == rs[..place] + [rec] + rs[place..]
      ensures Asc(rs) ==> recs == InsertSorted(rs, rec)
      ensures AllIn(rs, recs)
    {
      hide Asc, LowerBound;
      place := SearchPlace(rs, rec.key);
      recs := rs[..place] + [rec] + rs[place..];
      assert rs == rs[..place] + rs[place..];
    }

    /** A new root over the old one and the node split off it. `base` is the image before the new root is stored. */
    method GrowRoot(oldRoot: nat, key: Rec, child: nat) returns (st: Status, ghost base: Img, ghost n: nat)
      requires file.Valid() && oldRoot in file.live
      modifies file, this`h
      ensures st == Ok ==> file.Valid() && n != 0 && n !in old(file.live) && file.live == old(file.live) + {n}
      ensures st == Ok ==> Carried(old(file.nodes), base, old(file.live))
      ensures st == Ok ==> Recs(base, oldRoot) != []
      ensures st == Ok ==>
        file.nodes == base[n := NewRoot((old(h).treeDepth + 1) % 0x100, Recs(base, oldRoot), oldRoot, key, child)]
      ensures st == Ok ==> h == old(h).(root := n, treeDepth := (old(h).treeDepth + 1) % 0x1_0000)
      ensures (
        old(Recs(file.nodes, oldRoot) != [] && Recs(file.nodes, oldRoot)[0].klen == KEY_SIZE) &&
        key.klen == KEY_SIZE) ==>
        st == Ok || st == NoSpace
      ensures old(Recs(file.nodes, oldRoot)) != [] ==>
        var fits := RootFits(file.nodeSize, old(Recs(file.nodes, oldRoot))[0], key);
        Answered(st, fits, 1, old(file.freeNodes)) && (st == Ok ==> fits)
      ensures old(file.freeNodes) > 0 ==> st != NoSpace && (st == Ok ==> file.freeNodes + 1 >= old(file.freeNodes))
    {
      hide NodeFile.Valid, Fits;
      file.SizeOk();
      var newRoot;
      ghost var recorded;
      st, newRoot, recorded := file.AllocNode();
      n, base := newRoot, file.nodes;
      if st != Ok {
        return;
      }
      var nd;
      st, nd := file.LoadNode(oldRoot);
      if st != Ok {
        return;
      }
      if nd.recs == [] {
        st := Panic;
        return;
      }
      var height := (h.treeDepth + 1) % 0x100;
      RootFitsNamed(file.nodeSize, height, nd.recs, oldRoot, key, child);
      if nd.recs[0].klen == KEY_SIZE && key.klen == KEY_SIZE {
        RootSized(file.nodeSize, NewRoot(height, nd.recs, oldRoot, key, child).recs, 2);
      }
      st := file.StoreNode(newRoot, NewRoot(height, nd.recs, oldRoot, key, child));
      if st != Ok {
        return;
      }
      h := h.(root := newRoot, treeDepth := (h.treeDepth + 1) % 0x1_0000);
    }
  
    /** The tree between a split of node `path[k]` and the insertion of its index record. */
    ghost predicate Splitting(path: seq<nat>, ci: seq<nat>, pos: seq<nat>, k: nat, key: Rec, child: nat)
      reads this`h, this`rows, file
    {
      SplittingAt(file.nodes, rows, h, file.live, path, ci, pos, k, key, child)
    }

    /** A whole tree, whatever the record count in its header. */
    ghost predicate Standing()
      reads this`h, this`rows, file
    {
      StandingAt(file.nodes, rows, h, file.live)
    }

    /** `path` leads from the root to a leaf over live nodes, whatever their keys. */
    ghost predicate Located(path: seq<nat>)
      reads this`h, file
    {
      Sited(file.nodes, file.live, h, path)
    }

    /** Node `path[k]` was split at `key`; what is above it has room or not, and takes so many nodes. */
    ghost predicate Due(path: seq<nat>, k: nat, key: Rec, room: bool, takes: int)
      reads this`h, file
    {
      DueAt(file.nodes, file.nodeSize, file.live, h, path, k, key, room, takes)
    }

    /** Node `path[k]` took a record, and had room, or was split at `key` with one node taken. */
    ghost predicate Onward(path: seq<nat>, k: nat, key: Rec, child: nat, room: bool, takes: int)
      reads this`h, file
    {
      if child == 0 then room else Due(path, k, key, room, takes - 1)
    }

    /** A record about to go into node `path[k]`. */
    ghost predicate Open(path: seq<nat>, k: nat, rec: Rec, room: bool, takes: int)
      reads this`h, file
    {
      OpenAt(file.nodes, file.nodeSize, file.live, h, path, k, rec, room, takes)
    }

    lemma OpenAbove(path: seq<nat>, k: nat, key: Rec, child: nat, room: bool, takes: int)
      requires Due(path, k + 1, key, room, takes)
      ensures Open(path, k, IndexRec(key, child), room, takes)
    {
      hide DueAt, OpenAt;
      OpenFromDue(file.nodes, file.nodeSize, file.live, h, path, k, key, child, room, takes);
    }

    lemma OpenHere(path: seq<nat>, k: nat, rec: Rec, room: bool, takes: int)
      requires Open(path, k, rec, room, takes)
      ensures k < |path| && LinkedOn(path[k]) && Asc(Recs(file.nodes, path[k]))
      ensures OpenAt(file.nodes, file.nodeSize, file.live, h, path, k, rec, room, takes)
    {
      OpenNode(file.nodes, file.nodeSize, file.live, h, path, k, rec, room, takes);
    }

    /** What the answer of node `path[k]` means for the insertion. */
    lemma OnwardFrom(nodes: Img, live: set<nat>, h0: TreeHeader, free: nat, path: seq<nat>, k: nat, rec: Rec,
        room: bool, takes: int, st: Status, base: Img, rs: seq<Rec>, key: Rec, child: nat)
      requires OpenAt(nodes, file.nodeSize, live, h0, path, k, rec, room, takes) && k < |path|
      requires rs == InsertSorted(Recs(nodes, path[k]), rec) && Verdict(file.nodeSize, rs, st, child, free)
      requires st == Ok ==> Changed(nodes, base, file.nodes, live, file.live, h0, h, path[k], rs, child)
      requires st == Ok && child != 0 ==> |rs| > 0 && key == rs[|rs| / 2]
      ensures Answered(st, room, takes, free)
      ensures st == Ok ==> Onward(path, k, key, child, room, takes)
    {
      hide DueAt, OpenAt, Verdict, Changed, InsertSorted, Answered;
      Stepped(nodes, base, file.nodes, live, file.live, h0, h, file.nodeSize, path, k, rec, room, takes, st, rs, key,
        child, free);
    }

    lemma OnwardSplit(path: seq<nat>, k: nat, key: Rec, child: nat, room: bool, takes: int)
      requires Onward(path, k, key, child, room, takes)
      ensures child == 0 ==> room
      ensures child != 0 ==> Due(path, k, key, room, takes - 1) && takes > 0
    {
    }

    /** `growRoot`, after the root was split. */
    method CompleteRoot(path: seq<nat>, ghost ci: seq<nat>, ghost pos: seq<nat>, key: Rec, child: nat, ghost r: Rec,
        ghost c: seq<Rec>, ghost room: bool, ghost takes: int)
      returns (st: Status)
      requires file.Valid() && |path| > 0 && path[0] in file.live
      modifies file, this
      ensures st == Ok ==> file.Valid() && leafRecords == old(leafRecords)
      ensures st == Ok && old(Splitting(path, ci, pos, 0, key, child)) ==> Standing() && Records() == old(Records())
      ensures st == Ok && old(Splitting(path, ci, pos, 0, key, child) && Keyed(0)) ==> Keyed(0)
      ensures old(Located(path) && Packed(0, 0)) && key.klen == KEY_SIZE ==>
        (st == Ok || st == NoSpace) && (st == Ok ==> Packed(h.root, 0))
      ensures old(Due(path, 0, key, room, takes)) ==>
        Answered(st, room, takes, old(file.freeNodes)) && (st == Ok ==> room)
      ensures st == Ok && old(Undercuts(path, r)) ==> Undercuts(path, r)
      ensures st == Ok && old(Chain(c)) ==> Chain(c)
      ensures old(file.freeNodes) > 0 ==> st != NoSpace && (st == Ok ==> file.freeNodes + 1 >= old(file.freeNodes))
    {
      hide SplittingAt, StandingAt, ChainHolds, Undercut, NodeFile.Valid, NewRoot, Filled, Exact, Carried, Contents,
        Sited, DueAt, RootFits, Answered;
      ghost var sized := Located(path) && Packed(0, 0) && key.klen == KEY_SIZE;
      if Due(path, 0, key, room, takes) {
        DueRoot(file.nodes, file.nodeSize, file.live, h, path, key, room, takes);
      }
      if sized {
        SitedRoot(file.nodes, file.live, h, file.nodeSize, path);
        DepthUp(file.nodes, file.live, h, path);
      }
      ghost var base, n;
      st, base, n := GrowRoot(path[0], key, child);
      if st != Ok {
        return;
      }
      ghost var root := NewRoot((old(h).treeDepth + 1) % 0x100, Recs(base, path[0]), path[0], key, child);
      NewRootShape((old(h).treeDepth + 1) % 0x100, Recs(base, path[0]), path[0], key, child);
      if old(Chain(c)) {
        ChainRoot(old(file.nodes), base, old(file.live), old(h), h, n, root, c);
      }
      if old(Undercuts(path, r)) {
        UndercutFrame(old(file.nodes), base, old(file.live), n, root, path[|path| - 1], r);
      }
      if sized {
        NewRootFilled(old(file.nodes), base, old(file.live), file.nodeSize, n, (old(h).treeDepth + 1) % 0x100, path[0],
          key, child);
      }
      if old(Splitting(path, ci, pos, 0, key, child)) {
        RootResult(old(file.nodes), base, rows, old(h), old(file.live), path, ci, pos, key, child, n);
        rows := [[n]] + rows;
      }
    }

    /** The predicates on the tree's state, over the values it has. */
    lemma StateIs(path: seq<nat>, ci: seq<nat>, pos: seq<nat>, k: nat, key: Rec, child: nat, r: Rec, c: seq<Rec>)
      requires path != []
      ensures Splitting(path, ci, pos, k, key, child) ==
        SplittingAt(file.nodes, rows, h, file.live, path, ci, pos, k, key, child)
      ensures Standing() == StandingAt(file.nodes, rows, h, file.live) && Records() == Contents(file.nodes, rows)
      ensures Located(path) == Sited(file.nodes, file.live, h, path) && Keyed(0) == Exact(file.nodes, file.live, 0)
      ensures Packed(h.root, 0) <==> file.nodeSize >= 512 && Filled(file.nodes, file.live, file.nodeSize, h.root, 0)
      ensures PackedAfter(true) <==> file.nodeSize >= 512 && Filled(file.nodes, file.live, file.nodeSize, 0, 0)
      ensures PackedAfter(false) == Packed(h.root, 0)
      ensures Undercuts(path, r) == Undercut(file.nodes, file.live, path[|path| - 1], r)
      ensures PathAbove(path) == IndexPath(file.nodes, file.live, path)
      ensures Chain(c) == ChainHolds(file.nodes, file.live, h, c)
    {
    }

    /** Inserts the pending index record into node `path[level]`; a new split is pending when `newChild` is not 0. */
    method LinkInto(path: seq<nat>, ghost ci: seq<nat>, ghost pos: seq<nat>, level: nat, key: Rec, child: nat,
        ghost r: Rec, ghost c: seq<Rec>, ghost room: bool, ghost takes: int)
      returns (st: Status, newKey: Rec, newChild: nat)
      requires file.Valid() && level + 1 < |path| && path[level] in file.live
      modifies file, this
      ensures st == Ok ==> file.Valid() && leafRecords == old(leafRecords) && old(file.live) <= file.live
      ensures st == Ok && old(Splitting(path, ci, pos, level + 1, key, child)) ==>
        Records() == old(Records()) &&
          if newChild == 0 then Standing() else Splitting(path, ci, pos, level, newKey, newChild)
      ensures st == Ok && old(Splitting(path, ci, pos, level + 1, key, child) && Keyed(0)) ==> Keyed(0)
      ensures old(Located(path) && Packed(h.root, 0)) && key.klen == KEY_SIZE ==>
        && (st == Ok || st == NoSpace)
        && (st == Ok ==> Located(path) && PackedAfter(newChild != 0 && level == 0))
        && (st == Ok && newChild != 0 ==> newKey.klen == KEY_SIZE)
      ensures old(Due(path, level + 1, key, room, takes)) ==>
        Answered(st, room, takes, old(file.freeNodes)) &&
        (st == Ok ==> Onward(path, level, newKey, newChild, room, takes))
      ensures st == Ok && old(file.freeNodes) > 0 ==>
        file.freeNodes + (if newChild == 0 then 0 else 1) == old(file.freeNodes)
      ensures st == Ok && path[level] != path[|path| - 1] && old(Undercuts(path, r)) ==> Undercuts(path, r)
      ensures st == Ok && old(PathAbove(path) && Chain(c)) ==> PathAbove(path) && Chain(c)
      ensures old(file.freeNodes) > 0 ==> st != NoSpace
    {
      hide *;
      StateIs(path, ci, pos, level + 1, key, child, r, c);
      ghost var good := Splitting(path, ci, pos, level + 1, key, child);
      ghost var sized := Located(path) && Packed(h.root, 0) && key.klen == KEY_SIZE;
      if sized {
        IndexSized(key, child);
        SitedHere(file.nodes, file.live, h, file.nodeSize, path, level, IndexRec(key, child));
      }
      ghost var due := Due(path, level + 1, key, room, takes);
      if due {
        OpenAbove(path, level, key, child, room, takes);
        OpenHere(path, level, IndexRec(key, child), room, takes);
      }
      ghost var base, rs;
      st, newKey, newChild, base, rs := InsertRecord(path[level], IndexRec(key, child));
      if due {
        OnwardFrom(old(file.nodes), old(file.live), old(h), old(file.freeNodes), path, level, IndexRec(key, child),
          room, takes, st, base, rs, newKey, newChild);
      }
      if st != Ok {
        return;
      }
      if old(PathAbove(path) && Chain(c)) {
        PathAsideChain(old(file.nodes), base, file.nodes, old(file.live), file.live, old(h), h, path, level, rs,
          newChild, c);
      }
      if path[level] != path[|path| - 1] && old(Undercuts(path, r)) {
        UndercutAfter(old(file.nodes), base, file.nodes, old(file.live), file.live, old(h), h, path[level], rs,
          newChild, path[|path| - 1], r);
      }
      if sized {
        SitedAfter(old(file.nodes), base, file.nodes, old(file.live), file.live, old(h), h, file.nodeSize, path, level,
          rs, newChild);
      }
      if good {
        LinkOutcome(old(file.nodes), base, file.nodes, rows, old(h), h, old(file.live), file.live, path, ci, pos,
          level, key, child, rs, newChild);
        rows := RowsAfter(rows, level, pos, newChild);
      }
      StateIs(path, ci, pos, level, newKey, newChild, r, c);
    }

    /** No level of the descent for `p` falls back on a first child whose key is above `p`. */
    ghost predicate Covers(p: int)
      reads this`h, this`rows, file
    {
      rows == [] || Covered(file.nodes, h.root, |rows|, p)
    }

    method FirstLeaf(rec: Rec) returns (st: Status)
      requires Valid() && rows == []
      modifies file, this
      ensures st == Ok ==> Valid() && rows != [] && Records() == [rec]
      ensures st == Ok ==> Keyed(0)
      ensures SizedRec(rec, 1) ==> (st == Ok || st == NoSpace) && (st == Ok ==> Packed(h.root, 0))
      ensures Answered(st, Fits(file.nodeSize, [rec]), 1, old(file.freeNodes))
      ensures st == Ok ==> Fits(file.nodeSize, [rec])
      ensures old(file.freeNodes) > 0 ==> st != NoSpace && (st == Ok ==> file.freeNodes + 1 >= old(file.freeNodes))
    {
      hide NodeFile.Valid, Fits, TreeOk, LiveIs, Contents, Filled, Exact, SizedRec, Carried;
      file.SizeOk();
      NoneLive(rows, file.live);
      if SizedRec(rec, 1) {
        OneFits(file.nodeSize, rec);
      }
      var leaf;
      ghost var recorded;
      st, leaf, recorded := file.AllocNode();
      if st != Ok {
        return;
      }
      st := file.StoreNode(leaf, Node(Leaf, 1, 0, 0, [rec]));
      if st != Ok {
        return;
      }
      h := TreeHeader(leaf, leaf, leaf, 1);
      leafRecords := 1;
      rows := [[leaf]];
      assert file.live == {leaf};
      LeafTree(file.nodes, leaf, [rec]);
      LeafAlone(file.nodes, leaf, rec, file.nodeSize);
    }

    /** Inserts the record into the leaf at the end of `path`; a split is pending when `child` is not 0. */
    method InsertIntoLeaf(path: seq<nat>, ghost ci: seq<nat>, ghost pos: seq<nat>, rec: Rec, ghost r: Rec,
        ghost c: seq<Rec>, ghost room: bool, ghost takes: int) returns (st: Status, key: Rec, child: nat)
      requires file.Valid() && |path| > 0 && path[|path| - 1] in file.live
      modifies file, this
      ensures st == Ok ==> file.Valid() && leafRecords == old(leafRecords) && old(file.live) <= file.live
      ensures st == Ok && old(Reaches(path, ci, pos, rec)) ==>
        && Records() == InsertSorted(old(Records()), rec)
        && if child == 0 then Standing() else Splitting(path, ci, pos, |path| - 1, key, child)
      ensures st == Ok && old(Reaches(path, ci, pos, rec) && Keyed(0)) ==> Keyed(0)
      ensures old(Located(path) && Packed(h.root, 0)) && SizedRec(rec, 1) ==>
        && (st == Ok || st == NoSpace)
        && (st == Ok ==> Located(path) && PackedAfter(child != 0 && |path| == 1))
        && (st == Ok && child != 0 ==> key.klen == KEY_SIZE)
      ensures old(Open(path, |path| - 1, rec, room, takes)) ==>
        Answered(st, room, takes, old(file.freeNodes)) &&
        (st == Ok ==> Onward(path, |path| - 1, key, child, room, takes))
      ensures st == Ok && old(file.freeNodes) > 0 ==>
        file.freeNodes + (if child == 0 then 0 else 1) == old(file.freeNodes)
      ensures st == Ok && old(FallsTo(file.nodes, file.live, path[|path| - 1], r, rec.key)) ==> Undercuts(path, r)
      ensures st == Ok && old(PathAbove(path) && Landing(path, rec, c)) ==>
        PathAbove(path) && Chain(InsertSorted(c, rec))
      ensures old(file.freeNodes) > 0 ==> st != NoSpace
    {
      hide *;
      file.SizeOk();
      StateIs(path, ci, pos, 0, rec, 0, r, c);
      ReachesIs(path, ci, pos, rec, c);
      LiveCarried(file.nodes, file.live);
      var leaf := path[|path| - 1];
      ghost var good := Reaches(path, ci, pos, rec);
      ghost var sized := Located(path) && Packed(h.root, 0) && SizedRec(rec, 1);
      if sized {
        SitedHere(file.nodes, file.live, h, file.nodeSize, path, |path| - 1, rec);
      }
      ghost var open := Open(path, |path| - 1, rec, room, takes);
      if open {
        OpenHere(path, |path| - 1, rec, room, takes);
      }
      ghost var base, rs;
      st, key, child, base, rs := InsertRecord(leaf, rec);
      if open {
        OnwardFrom(old(file.nodes), old(file.live), old(h), old(file.freeNodes), path, |path| - 1, rec, room,
          takes, st, base, rs, key, child);
      }
      if st != Ok {
        return;
      }
      if old(PathAbove(path) && Landing(path, rec, c)) {
        PathLands(old(file.nodes), base, file.nodes, old(file.live), file.live, old(h), h, path, rs, rec, child, c);
      }
      if old(FallsTo(file.nodes, file.live, leaf, r, rec.key)) {
        FallsUnder(old(file.nodes), base, file.nodes, old(file.live), file.live, old(h), h, rs, child, leaf, r, rec);
      }
      if sized {
        SitedAfter(old(file.nodes), base, file.nodes, old(file.live), file.live, old(h), h, file.nodeSize, path,
          |path| - 1, rs, child);
      }
      if good {
        LeafOutcome(old(file.nodes), base, file.nodes, rows, old(h), h, old(file.live), file.live, path, ci, pos, rec,
          rs, child);
        rows := RowsAfter(rows, |path| - 1, pos, child);
      }
      StateIs(path, ci, pos, |path| - 1, key, child, r, InsertSorted(c, rec));
    }

    lemma ReachesIs(path: seq<nat>, ci: seq<nat>, pos: seq<nat>, rec: Rec, c: seq<Rec>)
      requires path != []
      ensures Reaches(path, ci, pos, rec) <==>
        StandingAt(file.nodes, rows, h, file.live) && |rows| <= MAX_DEPTH &&
        Descent(file.nodes, rows, 0, path, ci, pos, rec.key) && !HasKey(Contents(file.nodes, rows), rec.key)
      ensures Landing(path, rec, c) == Lands(file.nodes, file.live, h, path[|path| - 1], rec.key, c)
    {
    }

    /** The leaf at the end of `path` is where the record belongs in the chain `c`. */
    ghost predicate Landing(path: seq<nat>, rec: Rec, c: seq<Rec>)
      requires |path| > 0
      reads this`h, file
    {
      Lands(file.nodes, file.live, h, path[|path| - 1], rec.key, c)
    }

    /** A descent for a new key that ends, without fallback, at the leaf where the key belongs. */
    ghost predicate Reaches(path: seq<nat>, ci: seq<nat>, pos: seq<nat>, rec: Rec)
      reads this`h, this`rows, file
    {
      && Standing() && |rows| <= MAX_DEPTH
      && Descent(file.nodes, rows, 0, path, ci, pos, rec.key)
      && !HasKey(Records(), rec.key)
    }

    /** Inserts the pending index record into its parent, and so on up while parents split. */
    method PropagateSplit(path: seq<nat>, ghost ci: seq<nat>, ghost pos: seq<nat>, key0: Rec, child0: nat,
        ghost r: Rec, ghost c: seq<Rec>, ghost room: bool, ghost takes: int) returns (st: Status)
      requires file.Valid() && |path| >= 2
      requires forall d :: 0 <= d < |path| ==> path[d] in file.live
      modifies file, this
      ensures st == Ok ==> file.Valid() && leafRecords == old(leafRecords)
      ensures st == Ok && old(Splitting(path, ci, pos, |path| - 1, key0, child0)) ==>
        Standing() && Records() == old(Records())
      ensures st == Ok && old(Splitting(path, ci, pos, |path| - 1, key0, child0) && Keyed(0)) ==> Keyed(0)
      ensures old(Located(path) && Packed(h.root, 0)) && key0.klen == KEY_SIZE ==>
        (st == Ok || st == NoSpace) && (st == Ok ==> Packed(h.root, 0))
      ensures old(Due(path, |path| - 1, key0, room, takes)) ==>
        Answered(st, room, takes, old(file.freeNodes)) && (st == Ok ==> room)
      ensures st == Ok && old(Undercuts(path, r)) && LeafIsApart(path) ==> Undercuts(path, r)
      ensures st == Ok && old(PathAbove(path) && Chain(c)) ==> Chain(c)
      ensures old(file.freeNodes) >= |path| ==>
        st != NoSpace && (st == Ok ==> file.freeNodes + |path| >= old(file.freeNodes))
    {
      hide *;
      ghost var under := Undercuts(path, r) && LeafIsApart(path);
      ghost var sized := Located(path) && Packed(h.root, 0) && key0.klen == KEY_SIZE;
      ghost var good := Splitting(path, ci, pos, |path| - 1, key0, child0);
      ghost var due := Due(path, |path| - 1, key0, room, takes);
      ghost var left := takes;
      var key, child := key0, child0;
      var level: int := |path| - 2;
      while level >= 0
        invariant -1 <= level <= |path| - 2 && (level < 0 ==> |path| < 2)
        invariant file.Valid() && forall d :: 0 <= d < |path| ==> path[d] in file.live
        invariant leafRecords == old(leafRecords)
        invariant old(file.freeNodes) >= |path| ==> file.freeNodes + |path| >= old(file.freeNodes) + level + 2
        invariant good ==> Splitting(path, ci, pos, level + 1, key, child) && Records() == old(Records())
        invariant good && old(Keyed(0)) ==> Keyed(0)
        invariant sized ==> Located(path) && Packed(h.root, 0) && key.klen == KEY_SIZE
        invariant due ==> Due(path, level + 1, key, room, left) && left <= takes
        invariant due && old(file.freeNodes) >= takes ==> file.freeNodes >= left
        invariant under ==> Undercuts(path, r)
        invariant old(PathAbove(path) && Chain(c)) ==> PathAbove(path) && Chain(c)
        decreases level
      {
        if LeafIsApart(path) {
          ApartAt(path, level);
        }
        ghost var free := file.freeNodes;
        st, key, child := LinkInto(path, ci, pos, level, key, child, r, c, room, left);
        PackedIs();
        if due {
          AnsweredLater(st, room, takes, old(file.freeNodes), left, free);
          if st == Ok {
            OnwardSplit(path, level, key, child, room, left);
          }
        }
        if st != Ok || child == 0 {
          return;
        }
        left := left - 1;
        if level == 0 {
          free := file.freeNodes;
          st := CompleteRoot(path, ci, pos, key, child, r, c, room, left);
          if due {
            AnsweredLater(st, room, takes, old(file.freeNodes), left, free);
          }
          return;
        }
        level := level - 1;
      }
    }
  
    /** Insertion once the leaf is found: the leaf, the record count, and the splits on the way up. */
    method InsertAlong(path: seq<nat>, ghost ci: seq<nat>, ghost pos: seq<nat>, rec: Rec, ghost r: Rec,
        ghost c: seq<Rec>, ghost room: bool, ghost takes: int) returns (st: Status)
      requires file.Valid() && |path| > 0
      requires forall d :: 0 <= d < |path| ==> path[d] in file.live
      modifies file, this
      ensures st == Ok ==> file.Valid() && leafRecords == (old(leafRecords) + 1) % U32
      ensures st == Ok && old(Reaches(path, ci, pos, rec)) ==>
        Standing() && Records() == InsertSorted(old(Records()), rec)
      ensures st == Ok && old(Reaches(path, ci, pos, rec) && Keyed(0)) ==> Keyed(0)
      ensures old(Located(path) && Packed(h.root, 0)) && SizedRec(rec, 1) ==>
        (st == Ok || st == NoSpace) && (st == Ok ==> Packed(h.root, 0))
      ensures old(Open(path, |path| - 1, rec, room, takes)) ==>
        Answered(st, room, takes, old(file.freeNodes)) && (st == Ok ==> room)
      ensures st == Ok && old(FallsTo(file.nodes, file.live, path[|path| - 1], r, rec.key)) && LeafIsApart(path) ==>
        Undercuts(path, r)
      ensures st == Ok && old(PathAbove(path) && Landing(path, rec, c)) ==> Chain(InsertSorted(c, rec))
      ensures old(file.freeNodes) > |path| ==>
        st != NoSpace && (st == Ok ==> file.freeNodes + |path| + 1 >= old(file.freeNodes))
    {
      hide PathAbove, Chain, Landing, Undercuts, FallsTo, LeafIsApart, Packed, Keyed, SizedRec, NodeFile.Valid,
        InsertSorted, Standing, Splitting, Reaches, Records, Located, Open, Due, Answered;
      ghost var open := Open(path, |path| - 1, rec, room, takes);
      var key, child;
      st, key, child := InsertIntoLeaf(path, ci, pos, rec, r, c, room, takes);
      if st != Ok {
        return;
      }
      leafRecords := (leafRecords + 1) % U32;
      if child == 0 {
        return;
      }
      ghost var left, free := takes - 1, file.freeNodes;
      if |path| == 1 {
        st := CompleteRoot(path, ci, pos, key, child, r, InsertSorted(c, rec), room, left);
      } else {
        st := PropagateSplit(path, ci, pos, key, child, r, InsertSorted(c, rec), room, left);
      }
      if open {
        AnsweredLater(st, room, takes, old(file.freeNodes), left, free);
      }
    }

    /** What a caller can check instead of `Covers` in a tree with exact keys: the tree is at most one leaf,
        or the key is not below every stored key. */
    ghost predicate Admits(p: int)
      reads this`h, this`rows, file
    {
      |rows| <= 1 || (Records() != [] && Records()[0].key <= p)
    }

    lemma AdmitsIsCovers(p: int)
      requires Valid() && Keyed(0)
      ensures Covers(p) <==> Admits(p)
    {
      hide NodeFile.Valid, UsedBytes, WF, Flat, Covered, HeaderOk, RootOk, AllFull, Filled, Exact, Contents, LiveIs;
      if |rows| > 1 {
        RootFirst(rows, h);
        LevelsAre(file.nodes, rows, 0);
        ZeroNotLive(file.nodes, rows, file.live);
        CoveredByKeys(file.nodes, rows, file.live, p);
      } else if |rows| == 1 {
        CoveredLeaf(file.nodes, h.root, p);
      }
    }

    /** A well-formed tree's records are its leaf chain's. */
    lemma ChainOfTree()
      requires Valid() && rows != []
      ensures Chain(Records())
    {
      hide ChainHolds, WF, Flat, HeaderOk, AllFull, RootOk, LiveIs, NodeFile.Valid;
      RowChain(file.nodes, rows, file.live, h);
    }

    /** The nodes a descent for `p` visits. */
    ghost function PathFor(p: int): (path: seq<nat>)
      ensures path != []
      reads this`h, this`rows, file
    {
      Way(file.nodes, h.root, |rows|, p)
    }

    /** The leaf a descent for `p` ends at. */
    ghost function LeafFor(p: int): nat
      reads this`h, this`rows, file
    {
      var path := PathFor(p);
      path[|path| - 1]
    }

    /** The record fits the leaf a descent ends at, or each node that has to be split has halves that fit and, where
        the root is split, the two records of the new root fit. */
    ghost predicate HasRoom(rec: Rec)
      reads this`h, this`rows, file
    {
      if rows == [] then Fits(file.nodeSize, [rec])
      else
        var path := PathFor(rec.key);
        Room(file.nodes, file.nodeSize, path, |path| - 1, rec)
    }

    /** Free nodes the insertion takes. */
    ghost function NodesTaken(rec: Rec): nat
      reads this`h, this`rows, file
    {
      if rows == [] then 1
      else
        var path := PathFor(rec.key);
        Takes(file.nodes, file.nodeSize, path, |path| - 1, rec)
    }

    lemma RoomParts(rec: Rec)
      ensures rows == [] ==> HasRoom(rec) == Fits(file.nodeSize, [rec]) && NodesTaken(rec) == 1
      ensures rows != [] && Fits(file.nodeSize, InsertSorted(Recs(file.nodes, LeafFor(rec.key)), rec)) ==>
        HasRoom(rec) && NodesTaken(rec) == 0
    {
      hide Way, Fits, InsertSorted;
    }

    /** Adds a record whose key is not in the tree. The leaf chain gets it at its sorted place in any case; the
        index above stays in order exactly when no level of the descent fell back. */
    method Insert(rec: Rec) returns (st: Status)
      requires Valid()
      modifies file, this
      ensures st == Ok ==> file.Valid()
      ensures st == Ok && !HasKey(old(Records()), rec.key) && old(Covers(rec.key)) ==>
        Valid() && Records() == InsertSorted(old(Records()), rec)
      ensures st == Ok && !HasKey(old(Records()), rec.key) ==>
        (WellFormed() <==> old(Covers(rec.key))) && Chain(InsertSorted(old(Records()), rec))
      ensures st == Ok ==> leafRecords == (|old(Records())| + 1) % U32
      ensures st == Ok && old(Keyed(0) && Covers(rec.key)) && !HasKey(old(Records()), rec.key) ==> Keyed(0)
      ensures old(Packed(h.root, 0)) && SizedRec(rec, 1) ==>
        (st == Ok || st == NoSpace) && (st == Ok ==> Packed(h.root, 0))
      ensures old(|rows|) > MAX_DEPTH ==> st == Corrupt
      ensures old(|rows|) <= MAX_DEPTH ==> st == Ok || st == NoSpace || st == NodeFull
      ensures st == Ok ==> old(HasRoom(rec))
      ensures st == NodeFull ==> !old(HasRoom(rec))
      ensures st == NoSpace ==> old(file.freeNodes < NodesTaken(rec))
      ensures old(0 < |rows| <= MAX_DEPTH) ==>
        (Fits(file.nodeSize, InsertSorted(old(Recs(file.nodes, LeafFor(rec.key))), rec)) ==> st == Ok)
      ensures old(rows == [] && file.freeNodes > 0) && Fits(file.nodeSize, [rec]) ==> st == Ok
      ensures old(file.freeNodes > |rows|) ==>
        st != NoSpace && (st == Ok ==> file.freeNodes + old(|rows|) + 1 >= old(file.freeNodes))
    {
      hide Valid, Standing, WholeTree, Covers, WellFormed, Records, Packed, PackedAfter, Keyed, PathAbove, Chain,
        Landing, FallsTo, Undercut, Undercuts, LeafIsApart, Reaches, SizedRec, NodeFile.Valid, PathOk, Located,
        Followed,
        HasKey, Contents, InsertSorted, HasRoom, NodesTaken, LeafFor, Open, Answered;
      InsertParts();
      RoomParts(rec);
      PackedIs();
      if h.root == 0 {
        st := FirstLeaf(rec);
        AnsweredSo(st, old(HasRoom(rec)), old(NodesTaken(rec)), old(file.freeNodes));
        if st == Ok {
          InsertIntoNone(rec);
          InsertParts();
          ChainOfTree();
          ValidIsWellFormed();
        }
        return;
      }
      if Packed(h.root, 0) {
        ShallowEnough();
      }
      ghost var pos;
      var path, ci;
      st, path, ci, pos := Descend(rec.key);
      if st != Ok {
        return;
      }
      ghost var r := InsertReady(path, ci, pos, rec);
      InsertedLength(Records(), rec);
      CountUp(|Records()|, leafRecords);
      hide U32;
      st := InsertAlong(path, ci, pos, rec, r, Records(), old(HasRoom(rec)), old(NodesTaken(rec)));
      AnsweredSo(st, old(HasRoom(rec)), old(NodesTaken(rec)), old(file.freeNodes));
      if st == Ok && !old(Covers(rec.key)) {
        UndercutTree(path, r);
      }
      if st == Ok && old(Covers(rec.key)) && !HasKey(old(Records()), rec.key) {
        StandingValid();
        ValidIsWellFormed();
      }
    }

    lemma InsertParts()
      requires Valid()
      ensures file.Valid() && leafRecords == |Records()| % U32 && (h.root == 0 <==> rows == [])
      ensures rows == [] ==> Records() == [] && forall p: int :: Covers(p)
      ensures rows != [] ==> WholeTree()
    {
      hide NodeFile.Valid, WF, Flat, HeaderOk, RootOk, AllFull, LiveIs, Covered;
      RootMapped(file.nodes, rows, h);
      NoRecords(file.nodes);
    }

    lemma StandingValid()
      requires file.Valid() && Standing() && leafRecords == |Records()| % U32
      ensures Valid()
    {
    }

    lemma ValidIsWellFormed()
      requires Valid()
      ensures WellFormed()
    {
      hide TreeOk, LiveIs;
      assert TreeOk(file.nodes, rows, h) && LiveIs(rows, file.live);
    }

    /** The descent of an insertion either reaches the leaf where the key belongs or falls back. */
    lemma InsertReady(path: seq<nat>, ci: seq<nat>, pos: seq<nat>, rec: Rec) returns (r: Rec)
      requires Valid() && rows != [] && |path| == |rows| <= MAX_DEPTH
      requires PathOk(file.nodes, rows, path, ci, pos) && Followed(file.nodes, path, ci, rec.key)
      ensures (forall d :: 0 <= d < |path| ==> path[d] in file.live) && Located(path)
      ensures Covers(rec.key) && !HasKey(Records(), rec.key) ==> Reaches(path, ci, pos, rec)
      ensures !Covers(rec.key) ==> FallsTo(file.nodes, file.live, path[|path| - 1], r, rec.key) && LeafIsApart(path)
      ensures !HasKey(Records(), rec.key) ==> PathAbove(path) && Landing(path, rec, Records())
      ensures Open(path, |path| - 1, rec, HasRoom(rec), NodesTaken(rec))
    {
      hide NodeFile.Valid, WholeFull, Covered, HeaderOk, RootOk, PathOk, NoFallback, Followed, HasKey, Contents,
        FallsTo, Lands, LeafIsApart, IndexNode, LiveIs, Sited, Way, AscTo, Room, Takes;
      r := InsertSite(file.nodes, rows, file.live, h, path, ci, pos, rec);
      DescentSited(file.nodes, rows, file.live, h, path, ci, pos);
      DescentWay(file.nodes, rows, h, path, ci, pos, rec.key);
    }

    lemma UndercutTree(path: seq<nat>, r: Rec)
      requires |path| > 0 && Undercuts(path, r)
      ensures !WellFormed()
    {
      hide Undercut, TreeOk, LiveIs;
      forall rs: seq<seq<nat>> ensures !(TreeOk(file.nodes, rs, h) && LiveIs(rs, file.live)) {
        UndercutIsBad(file.nodes, rs, h, file.live, path[|path| - 1], r);
      }
    }

    // ---- deletion ----

    /** `usedBytes`: the bytes a node's records take, with the descriptor and the offset table. */
    static method MeasureRecords(rs: seq<Rec>) returns (used: nat)
      ensures used == UsedBytes(rs)
    {
      used := DESCRIPTOR_LEN + 2 * (|rs| + 1);
      for i := 0 to |rs|
        invariant used == DESCRIPTOR_LEN + 2 * (|rs| + 1) + SumLen(rs[..i])
      {
        assert rs[..i + 1] == rs[..i] + [rs[i]];
        SumLenCat(rs[..i], [rs[i]]);
        used := used + RecLen(rs[i]);
      }
      assert rs[..|rs|] == rs;
    }

    method Underflows(rs: seq<Rec>) returns (b: bool)
      ensures b == (UsedBytes(rs) < file.nodeSize / 2)
    {
      var used := MeasureRecords(rs);
      return used < file.nodeSize / 2;
    }

    method CombinedFits(a: seq<Rec>, b: seq<Rec>) returns (fits: bool)
      ensures fits == Fits(file.nodeSize, a + b)
    {
      var x := MeasureRecords(a);
      var y := MeasureRecords(b);
      SumLenCat(a, b);
      return x + y - DESCRIPTOR_LEN - 2 <= file.nodeSize;
    }

    /** Whether `recv` could take `donor`'s last record. The source asks this before either rotation. */
    method CanSpare(donor: seq<Rec>, recv: seq<Rec>) returns (b: bool)
      ensures b == (|donor| > 1 && UsedBytes(recv) + 2 + RecLen(donor[|donor| - 1]) <= file.nodeSize)
      ensures b <==> |donor| > 1 && Fits(file.nodeSize, recv + [donor[|donor| - 1]])
    {
      if |donor| <= 1 {
        return false;
      }
      SumLenCat(recv, [donor[|donor| - 1]]);
      assert [donor[|donor| - 1]][1..] == [];
      var used := MeasureRecords(recv);
      return used + 2 + RecLen(donor[|donor| - 1]) <= file.nodeSize;
    }

    /** A whole tree under deletion of key `e`. */
    ghost predicate Kept(e: int)
      reads this`h, this`rows, file
    {
      KeptAt(file.nodes, rows, h, file.live, e)
    }

    ghost predicate NoEmptyLeaf()
      reads this`rows, file
    {
      rows != [] ==> AllFull(file.nodes, rows[|rows| - 1])
    }

    ghost function LeafCount(): nat
      reads this`rows
    {
      LeavesOf(rows)
    }

    /** Since the image `nodes` with nodes `live` in use and `free` free ones: no node taken, nodes not in use left
        alone,
        nodes given up erased and counted as free. */
    ghost predicate SweptFrom(nodes: Img, live: set<nat>, free: nat)
      reads file
    {
      Swept(nodes, live, free, file.nodes, file.live, file.freeNodes)
    }

    lemma SweptStart()
      ensures SweptFrom(file.nodes, file.live, file.freeNodes)
    {
    }

    lemma SweptOn(nodes: Img, live: set<nat>, free: nat, nodes1: Img, live1: set<nat>, free1: nat)
      requires Swept(nodes, live, free, nodes1, live1, free1) && SweptFrom(nodes1, live1, free1)
      ensures SweptFrom(nodes, live, free)
    {
      hide Swept;
      SweptTwice(nodes, live, free, nodes1, live1, free1, file.nodes, file.live, file.freeNodes);
    }

    lemma SweptIs(nodes: Img, live: set<nat>, free: nat)
      ensures SweptFrom(nodes, live, free) <==> Swept(nodes, live, free, file.nodes, file.live, file.freeNodes)
    {
    }

    /** Drops the root while it is an index node with a single child. */
    method MaybeShrinkRoot(ghost e: int) returns (st: Status)
      requires file.Valid() && Kept(e)
      modifies file, this`h, this`rows
      ensures st == Ok && file.Valid() && Kept(e) && RootOk(file.nodes, rows)
      ensures Records() == old(Records()) && LeafCount() == old(LeafCount())
      ensures old(NoEmptyLeaf()) ==> NoEmptyLeaf()
      ensures old(RootOk(file.nodes, rows)) ==> rows == old(rows) && file.nodes == old(file.nodes)
      ensures old(Packed(h.root, 0)) ==> Packed(h.root, 0)
      ensures old(Keyed(0)) ==> Keyed(0)
      ensures st == Ok ==> SweptFrom(old(file.nodes), old(file.live), old(file.freeNodes))
    {
      hide NodeFile.Valid, UsedBytes, KeptAt, Contents, AllFull, RootOk, Filled, Exact, Swept, SweptFrom;
      SweptStart();
      while true
        invariant SweptFrom(old(file.nodes), old(file.live), old(file.freeNodes))
        invariant file.Valid() && Kept(e)
        invariant Records() == old(Records()) && LeafCount() == old(LeafCount())
        invariant old(NoEmptyLeaf()) ==> NoEmptyLeaf()
        invariant old(RootOk(file.nodes, rows)) ==> rows == old(rows) && file.nodes == old(file.nodes)
        invariant old(Packed(h.root, 0)) ==> Packed(h.root, 0)
        invariant old(Keyed(0)) ==> Keyed(0)
        decreases |rows|
      {
        var root := h.root;
        ShrinkReady(file.nodes, rows, h, e, file.live);
        var nd;
        st, nd := file.LoadNode(root);
        if nd.kind != Index || |nd.recs| != 1 {
          return;
        }
        var only := nd.recs[0].data.num;
        ghost var nodes0, live0, free0 := file.nodes, file.live, file.freeNodes;
        SweptIs(old(file.nodes), old(file.live), old(file.freeNodes));
        st := file.FreeNode(root);
        SweptFree(nodes0, live0, free0, root);
        SweptIs(nodes0, live0, free0);
        SweptOn(old(file.nodes), old(file.live), old(file.freeNodes), nodes0, live0, free0);
        ShrinkResult(nodes0, rows, h, live0, e);
        if old(Packed(h.root, 0)) {
          FilledShrink(nodes0, file.nodes, live0, file.nodeSize, root, 0, only);
        }
        h := h.(root := only, treeDepth := h.treeDepth - 1);
        rows := rows[1..];
      }
    }

    /** Both siblings fit one node, the parent takes the new key, and the node to relink can be stored. */
    ghost predicate Mergeable(p: nat, l: nat, r: nat, sep: nat)
      reads file
    {
      && Recs(file.nodes, l) + Recs(file.nodes, r) != []
      && Fits(file.nodeSize, Recs(file.nodes, l) + Recs(file.nodes, r))
      && sep + 1 < |Recs(file.nodes, p)| && Fits(file.nodeSize, MergedParent(file.nodes, p, l, r, sep))
      && r in file.nodes && (file.nodes[r].flink == 0 || file.nodes[r].flink in file.live)
    }

    lemma MergeableIs(p: nat, l: nat, r: nat, sep: nat)
      requires p in file.nodes && l in file.nodes && r in file.nodes && sep + 1 < |Recs(file.nodes, p)|
      requires l == Kid(Recs(file.nodes, p)[sep]) && r == Kid(Recs(file.nodes, p)[sep + 1])
      requires file.nodes[r].flink == 0 || file.nodes[r].flink in file.live
      ensures LinkedOn(r) && (Mergeable(p, l, r, sep) <==> Joins(file.nodes, file.nodeSize, p, sep))
      ensures Mergeable(p, l, r, sep) ==>
        Recs(file.nodes, l) + Recs(file.nodes, r) != [] &&
        Joined(file.nodes, p, sep) == MergeImg(file.nodes, p, l, r, sep)
      ensures Recs(file.nodes, l) + Recs(file.nodes, r) != [] ==>
        (Mergeable(p, l, r, sep) <==>
          Fits(file.nodeSize, Recs(file.nodes, l) + Recs(file.nodes, r)) &&
          Fits(file.nodeSize, MergedParent(file.nodes, p, l, r, sep)))
    {
      hide Fits, MergedParent, MergeImg;
    }

    /** The stores of `merge`: `r`'s records go into `l`, `r` leaves its chain and is freed, `p` forgets `r`. */
    method MergeNodes(p: nat, l: nat, r: nat, sep: nat) returns (st: Status)
      requires file.Valid() && l in file.live && r in file.live && p in file.live
      requires p in file.nodes && sep + 1 < |file.nodes[p].recs| && l != p && r != p && l != r
      requires l in file.nodes && r in file.nodes && file.nodes[r].flink != p && file.nodes[r].flink != l
      modifies file, this`h
      ensures st == Ok ==>
        file.Valid() && file.live == old(file.live) - {r} && file.freeNodes == old(file.freeNodes) + 1
      ensures st == Ok ==> Recs(old(file.nodes), l) + Recs(old(file.nodes), r) != []
      ensures st == Ok ==> file.nodes == MergeImg(old(file.nodes), p, l, r, sep)
      ensures st == Ok ==> h == MergeHeader(old(file.nodes), old(h), l, r)
      ensures old(LinkedOn(r)) ==> (st == Ok <==> old(Mergeable(p, l, r, sep)))
    {
      hide NodeFile.Valid, Fits;
      file.SizeOk();
      var parent, left, right;
      st, parent := file.LoadNode(p);
      st, left := file.LoadNode(l);
      st, right := file.LoadNode(r);
      var recs := left.recs + right.recs;
      if right.flink != 0 {
        st := Relink(right.flink, l);
        if st != Ok {
          return;
        }
      } else if left.kind == Leaf {
        h := h.(lastLeaf := l);
      }
      st := file.StoreNode(l, left.(flink := right.flink, recs := recs));
      if st != Ok {
        return;
      }
      st := file.FreeNode(r);
      if recs == [] {
        return Panic;
      }
      st := file.StoreNode(p, parent.(recs := Del(parent.recs, sep + 1)[sep := IndexRec(recs[0], l)]));
    }

    /** The stores of a rotation between `l` and `r`, records `j` and `j + 1` of `p`. */
    method RotateNodes(p: nat, l: nat, r: nat, j: nat, ls: seq<Rec>, rs: seq<Rec>) returns (st: Status)
      requires file.Valid() && p in file.nodes && l in file.nodes && r in file.nodes && l != p && r != p && l != r
      requires j + 1 < |file.nodes[p].recs| && rs != []
      modifies file`nodes
      ensures st == Ok ==> file.Valid() && file.nodes == RotateImg(old(file.nodes), p, l, r, j, ls, rs)
      ensures st == Ok <==>
        Fits(file.nodeSize, ls) && Fits(file.nodeSize, rs) &&
        Fits(file.nodeSize, old(file.nodes)[p].recs[j + 1 := IndexRec(rs[0], r)])
    {
      hide NodeFile.Valid, Fits;
      var parent, left, right;
      st, parent := file.LoadNode(p);
      st, left := file.LoadNode(l);
      st, right := file.LoadNode(r);
      st := file.StoreNode(l, left.(recs := ls));
      if st != Ok {
        return;
      }
      st := file.StoreNode(r, right.(recs := rs));
      if st != Ok {
        return;
      }
      st := file.StoreNode(p, parent.(recs := parent.recs[j + 1 := IndexRec(rs[0], r)]));
    }

    /** The tree while a deletion of key `e` stands at `path[k]`. */
    ghost predicate DeletingAt(path: seq<nat>, ci: seq<nat>, pos: seq<nat>, k: nat, e: int)
      reads this`h, this`rows, file
    {
      Deleting(file.nodes, rows, h, file.live, path, ci, pos, k, e)
    }

    /** Refreshes the index keys that name `path[level]` and its ancestors, as far as they are first records. */
    method UpdateParentKey(path: seq<nat>, ci: seq<nat>, ghost pos: seq<nat>, ghost e: int) returns (st: Status)
      requires |path| > 0 && file.Valid() && DeletingAt(path, ci, pos, |path| - 1, e) && RootOk(file.nodes, rows)
      modifies file`nodes
      ensures st == Ok ==> file.Valid() && DeletingAt(path, ci, pos, |path| - 1, e) && RootOk(file.nodes, rows)
      ensures st == Ok ==> Records() == old(Records())
      ensures st == Ok ==> forall n: nat :: |Recs(file.nodes, n)| == |Recs(old(file.nodes), n)|
      ensures st == Ok ==> Recs(file.nodes, path[|path| - 1]) == old(Recs(file.nodes, path[|path| - 1]))
      ensures st == Ok && old(Keyed(path[|path| - 1]) && Recs(file.nodes, path[|path| - 1]) != []) ==> Keyed(0)
      ensures old(Packed(h.root, path[|path| - 1])) ==> st == Ok && Packed(h.root, path[|path| - 1])
      ensures st == Ok ==> SweptFrom(old(file.nodes), old(file.live), old(file.freeNodes))
      ensures st == Ok <==> RefreshRoom(old(file.nodes), file.nodeSize, path, ci, |path| - 1)
      ensures st == Ok ==> file.nodes == Refreshed(old(file.nodes), path, ci, |path| - 1)
    {
      hide NodeFile.Valid, Fits, Deleting, RootOk, Filled, Sized, Exact, Contents, RefreshImg, Swept, SweptFrom,
        RefreshRoom, Refreshed;
      SweptStart();
      ghost var leaf := path[|path| - 1];
      ghost var sized, keyed := Packed(h.root, leaf), Keyed(leaf) && Recs(file.nodes, leaf) != [];
      var level := |path| - 1;
      while level > 0
        invariant 0 <= level < |path|
        invariant file.Valid() && DeletingAt(path, ci, pos, |path| - 1, e) && RootOk(file.nodes, rows)
        invariant SweptFrom(old(file.nodes), old(file.live), old(file.freeNodes))
        invariant Records() == old(Records())
        invariant forall n: nat :: |Recs(file.nodes, n)| == |Recs(old(file.nodes), n)|
        invariant Recs(file.nodes, leaf) == old(Recs(file.nodes, leaf))
        invariant keyed ==> Keyed(path[level]) && Recs(file.nodes, path[level]) != []
        invariant sized ==> Packed(h.root, leaf)
        invariant RefreshRoom(file.nodes, file.nodeSize, path, ci, level) ==
          RefreshRoom(old(file.nodes), file.nodeSize, path, ci, |path| - 1)
        invariant Refreshed(file.nodes, path, ci, level) == Refreshed(old(file.nodes), path, ci, |path| - 1)
      {
        file.SizeOk();
        RefreshReady(file.nodes, rows, h, e, file.live, path, ci, pos, level);
        var child, parent;
        st, child := file.LoadNode(path[level]);
        if child.recs == [] {
          NothingToRefresh(file.nodes, file.nodeSize, path, ci, level);
          return;
        }
        st, parent := file.LoadNode(path[level - 1]);
        var myIdx := ci[level - 1];
        ghost var nodes0 := file.nodes;
        SweptIs(old(file.nodes), old(file.live), old(file.freeNodes));
        if sized {
          LiveSized(nodes0, file.live, file.nodeSize, h.root, leaf, path[level]);
          FilledRefresh(nodes0, file.live, file.nodeSize, h.root, leaf, path[level - 1], myIdx, child.recs[0],
            path[level]);
        }
        RefreshResult(nodes0, rows, h, e, file.live, path, ci, pos, level);
        RefreshFurther(nodes0, file.nodeSize, path, ci, level);
        RefreshIs(nodes0, path[level - 1], myIdx, path[level]);
        st := file.StoreNode(path[level - 1],
          parent.(recs := parent.recs[myIdx := IndexRec(child.recs[0], path[level])]));
        if st != Ok {
          return;
        }
        SweptStore(nodes0, file.live, file.freeNodes, path[level - 1], file.nodes[path[level - 1]]);
        SweptIs(nodes0, file.live, file.freeNodes);
        SweptOn(old(file.nodes), old(file.live), old(file.freeNodes), nodes0, file.live, file.freeNodes);
        if myIdx != 0 {
          return;
        }
        level := level - 1;
      }
      st := Ok;
      NothingToRefresh(file.nodes, file.nodeSize, path, ci, 0);
      if keyed {
        DeletingIsKept(file.nodes, rows, h, e, file.live, path, ci, pos, |path| - 1);
        KeptParts(file.nodes, rows, h, file.live, e);
        ExactAtRoot(file.nodes, rows, e, file.live, h);
      }
    }

    /** `UpdateParentKey`, if the leaf lost its first record and has others. */
    method RefreshAbove(path: seq<nat>, ci: seq<nat>, ghost pos: seq<nat>, ghost e: int, refresh: bool)
      returns (st: Status)
      requires |path| > 0 && file.Valid() && DeletingAt(path, ci, pos, |path| - 1, e) && RootOk(file.nodes, rows)
      requires refresh ==> Recs(file.nodes, path[|path| - 1]) != []
      modifies file`nodes
      ensures st == Ok ==> file.Valid() && DeletingAt(path, ci, pos, |path| - 1, e) && RootOk(file.nodes, rows)
      ensures st == Ok ==> Records() == old(Records())
      ensures st == Ok ==> forall n: nat :: |Recs(file.nodes, n)| == |Recs(old(file.nodes), n)|
      ensures st == Ok ==> Recs(file.nodes, path[|path| - 1]) == old(Recs(file.nodes, path[|path| - 1]))
      ensures st == Ok && old(Keyed(if refresh then path[|path| - 1] else 0)) ==> Keyed(0)
      ensures !refresh ==> st == Ok && file.nodes == old(file.nodes)
      ensures old(Packed(h.root, path[|path| - 1])) ==> st == Ok && Packed(h.root, path[|path| - 1])
      ensures st == Ok ==> SweptFrom(old(file.nodes), old(file.live), old(file.freeNodes))
      ensures st == Ok <==> (refresh ==> RefreshRoom(old(file.nodes), file.nodeSize, path, ci, |path| - 1))
      ensures st == Ok && refresh ==> file.nodes == Refreshed(old(file.nodes), path, ci, |path| - 1)
    {
      hide *;
      SweptStart();
      st := Ok;
      if refresh {
        st := UpdateParentKey(path, ci, pos, e);
      }
    }

    /** The emptied node has no sibling to merge with. */
    ghost predicate Stuck(path: seq<nat>, level: nat)
      reads file
    {
      && 0 < level < |path|
      && Recs(file.nodes, path[level]) == [] && |Recs(file.nodes, path[level - 1])| == 1
    }

    /** `path[level]` underflows, and fits one node with the sibling it is tried with first. */
    ghost predicate Merges(path: seq<nat>, ci: seq<nat>, level: nat)
      reads file
    {
      0 < level < |path| && level <= |ci| &&
        MergesAt(file.nodes, file.nodeSize, path[level - 1], ci[level - 1], path[level])
    }

    /** Which way `rebalance` goes for a node whose records are `en`, at record `myIdx` of its parent. */
    method ChooseRepair(en: seq<Rec>, parent: seq<Rec>, myIdx: nat) returns (repair: Repair)
      requires myIdx < |parent|
      ensures repair == RepairFor(file.nodes, file.nodeSize, en, parent, myIdx)
      ensures repair.MergeLeft? <==>
        myIdx > 0 && Fits(file.nodeSize, Recs(file.nodes, Kid(parent[myIdx - 1])) + en)
      ensures !repair.MergeLeft? ==>
        (repair.MergeRight? <==>
          myIdx + 1 < |parent| && Fits(file.nodeSize, en + Recs(file.nodes, Kid(parent[myIdx + 1]))))
      ensures !repair.MergeLeft? && !repair.MergeRight? ==>
        (repair.TakeLeft? <==> myIdx > 0 && Spares(file.nodeSize, Recs(file.nodes, Kid(parent[myIdx - 1])), en))
      ensures repair.TakeRight? || repair.NoRepair? ==>
        (repair.TakeRight? <==>
          myIdx + 1 < |parent| && Spares(file.nodeSize, Recs(file.nodes, Kid(parent[myIdx + 1])), en))
    {
      hide UsedBytes;
      var st, left, right;
      var hasLeft, hasRight := myIdx > 0, myIdx < |parent| - 1;
      if hasLeft {
        st, left := file.LoadNode(Kid(parent[myIdx - 1]));
        var fits := CombinedFits(left.recs, en);
        if fits {
          return MergeLeft;
        }
      }
      if hasRight {
        st, right := file.LoadNode(Kid(parent[myIdx + 1]));
        var fits := CombinedFits(en, right.recs);
        if fits {
          return MergeRight;
        }
      }
      if hasLeft {
        var spare := CanSpare(left.recs, en);
        if spare {
          return TakeLeft;
        }
      }
      if hasRight {
        var spare := CanSpare(right.recs, en);
        if spare {
          return TakeRight;
        }
      }
      return NoRepair;
    }

    /** Fixes `path[level]` when it underflows: merges it with a sibling when both fit one node, otherwise
        takes a record from a sibling that can spare one; a merge goes on to the parent. */
    method Rebalance(path: seq<nat>, ci: seq<nat>, ghost pos: seq<nat>, level: nat, ghost e: int) returns (st: Status)
      requires level < |path| && file.Valid() && DeletingAt(path, ci, pos, level, e) && RootOk(file.nodes, rows)
      requires level == 0 ==> Recs(file.nodes, path[0]) != []
      modifies file, this`h, this`rows
      ensures st == Ok ==> file.Valid() && Kept(e) && RootOk(file.nodes, rows) && Records() == old(Records())
      ensures st == Ok ==> (NoEmptyLeaf() <==> !old(Stuck(path, level)))
      ensures old(Stuck(path, level)) ==> st == Ok
      ensures st == Ok ==>
        LeafCount() == old(LeafCount()) - (if level == old(|rows|) - 1 && old(Merges(path, ci, level)) then 1 else 0)
      ensures st == Ok && old(Keyed(0) && Recs(file.nodes, path[level]) != []) ==> Keyed(0)
      ensures old(Packed(h.root, path[level])) ==> st == Ok && Packed(h.root, 0)
      ensures st == Ok ==> SweptFrom(old(file.nodes), old(file.live), old(file.freeNodes))
      ensures |ci| == |path| - 1 && (st == Ok <==> MendRoom(old(file.nodes), file.nodeSize, path, ci, level))
      decreases level, 1
    {
      hide NodeFile.Valid, UsedBytes, Deleting, KeptAt, RootOk, AllFull, Filled, Exact, Contents, Fits, CanRotate,
        RepairFor, LeavesOf, Swept, SweptFrom, MendRoom, MergeRoom, LeftShifts, RightShifts;
      SweptStart();
      file.SizeOk();
      ghost var sized := Packed(h.root, path[level]);
      RebalanceFacts(file.nodes, rows, h, e, file.live, path, ci, pos, level);
      MendRoomIs(file.nodes, file.nodeSize, path, ci, level);
      if level == 0 {
        if sized {
          FilledSettled(file.nodes, file.live, file.nodeSize, h.root, path[0]);
        }
        st := MaybeShrinkRoot(e);
        return;
      }
      var en, parent;
      st, en := file.LoadNode(path[level]);
      var low := Underflows(en.recs);
      EmptyUnderflows(file.nodeSize);
      if !low {
        if sized {
          FilledSettled(file.nodes, file.live, file.nodeSize, h.root, path[level]);
        }
        return;
      }
      st, parent := file.LoadNode(path[level - 1]);
      var myIdx := ci[level - 1];
      var repair := ChooseRepair(en.recs, parent.recs, myIdx);
      if |parent.recs| == 1 {
        NoSibling(file.nodes, file.nodeSize, en.recs, parent.recs);
      }
      RepairFacts(file.nodes, rows, file.nodeSize, h, e, file.live, path, ci, pos, level);
      if sized {
        RepairSized(file.nodes, rows, file.nodeSize, h, e, file.live, path, ci, pos, level);
      }
      match repair
      case MergeLeft => st := MergeAt(path, ci, pos, level, myIdx - 1, e);
      case MergeRight => st := MergeAt(path, ci, pos, level, myIdx, e);
      case TakeLeft => st := RotateFromLeft(path, ci, pos, level, e);
      case TakeRight => st := RotateFromRight(path, ci, pos, level, e);
      case NoRepair => st := MaybeShrinkRoot(e);
    }

    /** Moves the left sibling's last record into `path[level]`. */
    method RotateFromLeft(path: seq<nat>, ci: seq<nat>, ghost pos: seq<nat>, level: nat, ghost e: int)
      returns (st: Status)
      requires 0 < level < |path| && file.Valid() && DeletingAt(path, ci, pos, level, e) && RootOk(file.nodes, rows)
      requires |ci| == |path| - 1 && ci[level - 1] > 0 && ci[level - 1] < |Recs(file.nodes, path[level - 1])|
      requires |Recs(file.nodes, Kid(Recs(file.nodes, path[level - 1])[ci[level - 1] - 1]))| > 1
      modifies file`nodes
      ensures st == Ok ==>
        file.Valid() && Kept(e) && RootOk(file.nodes, rows) && Records() == old(Records()) && NoEmptyLeaf()
      ensures st == Ok && old(Keyed(0)) ==> Keyed(0)
      ensures old(Packed(h.root, path[level]) &&
        CanRotate(file.nodes, file.nodeSize, path[level],
          Kid(Recs(file.nodes, path[level - 1])[ci[level - 1] - 1]))) ==>
        st == Ok && Packed(h.root, 0)
      ensures st == Ok ==> SweptFrom(old(file.nodes), old(file.live), old(file.freeNodes))
      ensures st == Ok <==> LeftShifts(old(file.nodes), file.nodeSize, path[level - 1], ci[level - 1])
    {
      hide NodeFile.Valid, Fits, Deleting, KeptAt, RootOk, RotateImg, Filled, AllFull, Contents, Exact, CanRotate,
        Swept;
      file.SizeOk();
      var en, parent, left;
      var myIdx := ci[level - 1];
      ghost var p, l := path[level - 1], Kid(Recs(file.nodes, path[level - 1])[myIdx - 1]);
      PairReady(file.nodes, rows, h, e, file.live, path, ci, pos, level, myIdx - 1);
      st, en := file.LoadNode(path[level]);
      st, parent := file.LoadNode(path[level - 1]);
      var leftNum := Kid(parent.recs[myIdx - 1]);
      st, left := file.LoadNode(leftNum);
      var n := |left.recs| - 1;
      var ls, rs := left.recs[..n], [left.recs[n]] + en.recs;
      assert ls + rs == left.recs + en.recs;
      if Packed(h.root, path[level]) && CanRotate(file.nodes, file.nodeSize, path[level], leftNum) {
        RotatedFilled(file.nodes, rows, file.nodeSize, h, e, file.live, path, ci, pos, level, myIdx - 1, leftNum,
          ls, rs);
      }
      RotateResult(file.nodes, rows, h, e, file.live, path, ci, pos, level, myIdx - 1, ls, rs);
      SweptRotate(file.nodes, file.live, file.freeNodes, path[level - 1], leftNum, path[level], myIdx - 1, ls, rs);
      st := RotateNodes(path[level - 1], leftNum, path[level], myIdx - 1, ls, rs);
    }

    /** Moves the right sibling's first record into `path[level]`. */
    method RotateFromRight(path: seq<nat>, ci: seq<nat>, ghost pos: seq<nat>, level: nat, ghost e: int)
      returns (st: Status)
      requires 0 < level < |path| && file.Valid() && DeletingAt(path, ci, pos, level, e) && RootOk(file.nodes, rows)
      requires |ci| == |path| - 1 && ci[level - 1] + 1 < |Recs(file.nodes, path[level - 1])|
      requires |Recs(file.nodes, Kid(Recs(file.nodes, path[level - 1])[ci[level - 1] + 1]))| > 1
      requires Recs(file.nodes, path[level]) != []
      modifies file`nodes
      ensures st == Ok ==>
        file.Valid() && Kept(e) && RootOk(file.nodes, rows) && Records() == old(Records()) && NoEmptyLeaf()
      ensures st == Ok && old(Keyed(0)) ==> Keyed(0)
      ensures old(Packed(h.root, path[level]) &&
        CanRotate(file.nodes, file.nodeSize, path[level],
          Kid(Recs(file.nodes, path[level - 1])[ci[level - 1] + 1]))) ==>
        st == Ok && Packed(h.root, 0)
      ensures st == Ok ==> SweptFrom(old(file.nodes), old(file.live), old(file.freeNodes))
      ensures st == Ok <==> RightShifts(old(file.nodes), file.nodeSize, path[level - 1], ci[level - 1])
    {
      hide NodeFile.Valid, Fits, Deleting, KeptAt, RootOk, RotateImg, Filled, AllFull, Contents, Exact, CanRotate,
        Swept;
      file.SizeOk();
      var en, parent, right;
      var myIdx := ci[level - 1];
      PairReady(file.nodes, rows, h, e, file.live, path, ci, pos, level, myIdx);
      st, en := file.LoadNode(path[level]);
      st, parent := file.LoadNode(path[level - 1]);
      var rightNum := Kid(parent.recs[myIdx + 1]);
      st, right := file.LoadNode(rightNum);
      var ls, rs := en.recs + [right.recs[0]], right.recs[1..];
      assert ls + rs == en.recs + right.recs;
      if Packed(h.root, path[level]) && CanRotate(file.nodes, file.nodeSize, path[level], rightNum) {
        RotatedFilled(file.nodes, rows, file.nodeSize, h, e, file.live, path, ci, pos, level, myIdx, rightNum, ls, rs);
      }
      RotateResult(file.nodes, rows, h, e, file.live, path, ci, pos, level, myIdx, ls, rs);
      SweptRotate(file.nodes, file.live, file.freeNodes, path[level - 1], path[level], rightNum, myIdx, ls, rs);
      st := RotateNodes(path[level - 1], path[level], rightNum, myIdx, ls, rs);
    }

    /** The children at records `sep` and `sep + 1` of node `p` fit one node together. */
    ghost predicate JoinFits(p: nat, sep: nat)
      requires sep + 1 < |Recs(file.nodes, p)|
      reads file
    {
      var rs := Recs(file.nodes, p);
      Fits(file.nodeSize, Recs(file.nodes, Kid(rs[sep])) + Recs(file.nodes, Kid(rs[sep + 1])))
    }

    /** `merge`, up to the store of the parent: the node at record `sep + 1` of the parent goes into the one at
        `sep`. */
    method MergeChildren(path: seq<nat>, ci: seq<nat>, ghost pos: seq<nat>, level: nat, sep: nat, ghost e: int)
      returns (st: Status)
      requires 0 < level < |path| && file.Valid() && DeletingAt(path, ci, pos, level, e) && RootOk(file.nodes, rows)
      requires |ci| == |path| - 1 && (sep == ci[level - 1] || sep + 1 == ci[level - 1])
      requires sep + 1 < |Recs(file.nodes, path[level - 1])|
      modifies file, this`h, this`rows
      ensures st == Ok ==>
        file.Valid() && DeletingAt(path, ci, pos, level - 1, e) && Records() == old(Records()) && NoEmptyLeaf()
      ensures st == Ok ==>
        |rows| == old(|rows|) && LeafCount() == old(LeafCount()) - (if level == old(|rows|) - 1 then 1 else 0)
      ensures st == Ok && level > 1 ==>
        RootOk(file.nodes, rows) && path[level - 1] in file.nodes && Recs(file.nodes, path[level - 1]) != []
      ensures st == Ok && old(Keyed(0) && Recs(file.nodes, path[level]) != []) ==> Keyed(0)
      ensures old(Packed(h.root, path[level]) && JoinFits(path[level - 1], sep)) ==>
        st == Ok && Packed(h.root, path[level - 1]) && (level == 1 ==> h.root == path[0])
      ensures st == Ok ==> SweptFrom(old(file.nodes), old(file.live), old(file.freeNodes))
      ensures st == Ok <==> Joins(old(file.nodes), file.nodeSize, path[level - 1], sep)
      ensures st == Ok ==> file.nodes == Joined(old(file.nodes), path[level - 1], sep)
    {
      hide Joins, Joined, Mergeable, LinkedOn, NodeFile.Valid, Fits, Deleting, RootOk, AllFull, Contents, Filled,
        Exact, MergeImg, MergeHeader,
        MergedParent, LeavesOf, WithoutNode, Off, Swept, SweptFrom;
      file.SizeOk();
      var p := path[level - 1];
      PairReady(file.nodes, rows, h, e, file.live, path, ci, pos, level, sep);
      var parent;
      st, parent := file.LoadNode(p);
      var l, r := Kid(parent.recs[sep]), Kid(parent.recs[sep + 1]);
      ghost var nodes0, live0, h0 := file.nodes, file.live, h;
      if Packed(h.root, path[level]) && JoinFits(p, sep) {
        MergedFilled(nodes0, rows, file.nodeSize, h0, e, live0, path, ci, pos, level, sep);
      }
      MergeableIs(p, l, r, sep);
      st := MergeNodes(p, l, r, sep);
      if st == Ok {
        SweptMerge(nodes0, live0, old(file.freeNodes), p, l, r, sep);
        SweptIs(nodes0, live0, old(file.freeNodes));
        MergeResult(nodes0, rows, h0, e, live0, path, ci, pos, level, sep);
        rows := WithoutNode(rows, level, Off(nodes0, rows[level - 1], pos[level - 1]) + sep + 1);
      }
    }

    /** `merge`, with what follows it at the parent. */
    method MergeAt(path: seq<nat>, ci: seq<nat>, ghost pos: seq<nat>, level: nat, sep: nat, ghost e: int)
      returns (st: Status)
      requires 0 < level < |path| && file.Valid() && DeletingAt(path, ci, pos, level, e) && RootOk(file.nodes, rows)
      requires |ci| == |path| - 1 && (sep == ci[level - 1] || sep + 1 == ci[level - 1])
      requires sep + 1 < |Recs(file.nodes, path[level - 1])|
      modifies file, this`h, this`rows
      ensures st == Ok ==>
        file.Valid() && Kept(e) && RootOk(file.nodes, rows) && Records() == old(Records()) && NoEmptyLeaf()
      ensures st == Ok ==> LeafCount() == old(LeafCount()) - (if level == old(|rows|) - 1 then 1 else 0)
      ensures st == Ok && old(Keyed(0) && Recs(file.nodes, path[level]) != []) ==> Keyed(0)
      ensures old(Packed(h.root, path[level]) && JoinFits(path[level - 1], sep)) ==> st == Ok && Packed(h.root, 0)
      ensures st == Ok ==> SweptFrom(old(file.nodes), old(file.live), old(file.freeNodes))
      ensures st == Ok <==> MergeRoom(old(file.nodes), file.nodeSize, path, ci, level, sep)
      decreases level, 0
    {
      hide NodeFile.Valid, UsedBytes, Deleting, KeptAt, RootOk, AllFull, Contents, Filled, Exact, JoinFits,
        LeavesOf, MergesAt, Swept, SweptFrom, Joins, Joined, MendRoom, MergeRoom;
      ghost var sized := Packed(h.root, path[level]) && JoinFits(path[level - 1], sep);
      DeletingIsKept(file.nodes, rows, h, e, file.live, path, ci, pos, level);
      MergeRoomIs(file.nodes, file.nodeSize, path, ci, level, sep);
      st := MergeChildren(path, ci, pos, level, sep, e);
      if st != Ok {
        return;
      }
      DeletingIsKept(file.nodes, rows, h, e, file.live, path, ci, pos, level - 1);
      ghost var nodes1, live1, free1 := file.nodes, file.live, file.freeNodes;
      SweptIs(old(file.nodes), old(file.live), old(file.freeNodes));
      if level - 1 == 0 {
        if sized {
          FilledSettled(file.nodes, file.live, file.nodeSize, h.root, path[0]);
        }
        st := MaybeShrinkRoot(e);
        SweptOn(old(file.nodes), old(file.live), old(file.freeNodes), nodes1, live1, free1);
        return;
      }
      var parent;
      st, parent := file.LoadNode(path[level - 1]);
      var low := Underflows(parent.recs);
      if !low {
        NoMending(file.nodes, file.nodeSize, path, ci, level - 1);
      }
      if low {
        st := Rebalance(path, ci, pos, level - 1, e);
        if st == Ok {
          SweptOn(old(file.nodes), old(file.live), old(file.freeNodes), nodes1, live1, free1);
        }
      } else if sized {
        FilledSettled(file.nodes, file.live, file.nodeSize, h.root, path[level - 1]);
      }
    }

    /** The record of key `p` is alone in a leaf that is its parent's only child: no sibling can take the leaf in. */
    ghost predicate Strands(p: int)
      reads this`rows, file
    {
      |rows| > 1 && Stranding(file.nodes, rows, p)
    }

    /** Some leaf under a root holds nothing but the record with key `p`. */
    ghost predicate Alone(p: int)
      reads this`rows, file
    {
      |rows| > 1 && SomeAlone(file.nodes, rows[|rows| - 1], p)
    }

    /** Without the record of key `p` the tree is at most one leaf: it is now, or it is two leaves under a root, all the
        other records fit one node, and the leaf that holds `p` underflows without it. */
    ghost predicate OneLeafWithout(p: int)
      reads this`rows, file
    {
      LeafCount() <= 1 || FoldsWithout(file.nodes, rows, file.nodeSize, p)
    }

    lemma RecordsAsc()
      requires Valid()
      ensures Asc(Records())
    {
      hide NodeFile.Valid, Flat, WF, HeaderOk, RootOk, AllFull;
      if rows == [] {
        NoRecords(file.nodes);
      } else {
        ContentsAsc(file.nodes, rows);
      }
    }

    /** A tree is at most one row exactly when it has at most one leaf. */
    lemma OneRow()
      requires Valid()
      ensures |rows| <= 1 <==> LeafCount() <= 1
    {
      hide NodeFile.Valid, Flat, WF, HeaderOk, RootOk, AllFull, Contents;
      if rows != [] {
        LeavesAre(file.nodes, rows);
      }
    }

    /** More bytes than a node holds, without the record of key `p`: the tree is not one leaf without it. */
    lemma NeverOneLeaf(p: int)
      requires Valid() && !Fits(file.nodeSize, Without(Records(), p))
      ensures !OneLeafWithout(p)
    {
      hide NodeFile.Valid, TreeOk, LiveIs, Contents, Without, Fits, LeavesOf, ShortWithout;
      OneRow();
      WithoutFits(file.nodeSize, Records(), p);
      if |rows| <= 1 {
        file.SizeOk();
        OneLeafFits(file.nodes, rows, h, file.live, file.nodeSize);
      }
    }

    /** An empty tree again: the last record's leaf is freed. */
    method DropRootLeaf(leaf: nat) returns (st: Status)
      requires file.Valid() && LiveIs(rows, file.live) && |rows| == 1 && rows[0] == [leaf]
      modifies file, this`h, this`rows
      ensures st == Ok && file.Valid() && rows == [] && h == EmptyHeader && LiveIs(rows, file.live) && Keyed(0)
      ensures file.nodeSize >= 512 ==> Packed(0, 0)
      ensures st == Ok ==> SweptFrom(old(file.nodes), old(file.live), old(file.freeNodes))
    {
      hide NodeFile.Valid, UsedBytes, Swept;
      RowsLive(rows, file.live, 0, leaf);
      file.LiveFits(leaf);
      SweptFree(file.nodes, file.live, file.freeNodes, leaf);
      st := file.FreeNode(leaf);
      h := EmptyHeader;
      rows := [];
    }

    static method FindKey(rs: seq<Rec>, p: int) returns (found: bool, x: nat)
      ensures found <==> HasKey(rs, p)
      ensures found ==> x < |rs| && rs[x].key == p
    {
      x := 0;
      while x < |rs|
        invariant x <= |rs| && forall k :: 0 <= k < x ==> rs[k].key != p
      {
        if rs[x].key == p {
          return true, x;
        }
        x := x + 1;
      }
      return false, 0;
    }

    /** The leaf a descent for `p` ends at is full enough without `p`, and `p` is not its first key. */
    ghost predicate LeafKeeps(p: int)
      reads this`h, this`rows, file
    {
      var rs := Recs(file.nodes, LeafFor(p));
      rs != [] && rs[0].key != p && UsedBytes(Without(rs, p)) >= file.nodeSize / 2
    }

    /** Whatever the deletion of `p` rewrites has room: the index nodes above its leaf, where the leaf's first key
        changes, and every node that a merge or a rotation stores, all the way up. */
    ghost predicate RoomWithout(p: int)
      reads this`h, this`rows, file
    {
      rows == [] ||
      var path := PathFor(p);
      RemoveRoom(file.nodes, file.nodeSize, path, Turns(file.nodes, path, p),
        LowerBound(Recs(file.nodes, path[|path| - 1]), p))
    }

    lemma DeletionRoom(path: seq<nat>, ci: seq<nat>, pos: seq<nat>, p: int, x: nat)
      requires Valid() && rows != [] && |path| == |rows| && PathOk(file.nodes, rows, path, ci, pos)
      requires |ci| <= |path| && Followed(file.nodes, path, ci, p)
      requires path[|path| - 1] in file.nodes && x < |Recs(file.nodes, path[|path| - 1])|
      requires Recs(file.nodes, path[|path| - 1])[x].key == p
      ensures |ci| == |path| - 1 && (RoomWithout(p) <==> RemoveRoom(file.nodes, file.nodeSize, path, ci, x))
      ensures LeafKeeps(p) ==> RoomWithout(p)
    {
      hide NodeFile.Valid, WholeFull, HeaderOk, RootOk, LiveIs, Followed, PathOk, Way, UsedBytes, Without, RemoveRoom,
        LowerBound, Turns, AscTo;
      PathLengths(file.nodes, rows, path, ci, pos);
      DescentWay(file.nodes, rows, h, path, ci, pos, p);
      FollowedTurns(file.nodes, path, ci, p);
      LeafPlace(file.nodes, path, p, x);
      if LeafKeeps(p) {
        KeepsRoom(file.nodes, file.nodeSize, path, ci, p, x);
      }
    }

    /** Removes the record with key `p`; a tree without one is left as it is. */
    method DeleteByKey(p: int) returns (st: Status)
      requires Valid()
      modifies file, this
      ensures st == Ok ==> file.Valid() && LiveIs(rows, file.live)
      ensures st == Ok ==> Records() == Without(old(Records()), p) && leafRecords == |Records()| % U32
      ensures st == Ok ==> (Valid() <==> !old(Strands(p))) && (WellFormed() <==> !old(Strands(p)))
      ensures st == Ok ==> (LeafCount() <= 1 <==> old(OneLeafWithout(p)))
      ensures st == Ok && !HasKey(old(Records()), p) ==> file.nodes == old(file.nodes) && h == old(h)
      ensures st == Ok && old(Keyed(0)) && !old(Alone(p)) ==> Keyed(0)
      ensures old(Stocked(h.root, 0)) ==> st == Ok && Valid() && Stocked(h.root, 0)
      ensures old(Strands(p)) && old(|rows|) <= MAX_DEPTH ==> st == Ok
      ensures st == Ok ==> SweptFrom(old(file.nodes), old(file.live), old(file.freeNodes))
      ensures old(|rows|) > MAX_DEPTH ==> st == Corrupt
      ensures old(|rows|) <= MAX_DEPTH ==> (st == Ok <==> !HasKey(old(Records()), p) || old(RoomWithout(p)))
      ensures old(0 < |rows| <= MAX_DEPTH && LeafKeeps(p)) ==> st == Ok
    {
      hide NodeFile.Valid, UsedBytes, Filled, Exact, WF, Flat, HeaderOk, RootOk, AllFull, PathOk, Followed, HasKey,
        Contents, Without, Stranding, PathTo, SomeAlone, FoldsWithout, SweptFrom, RoomWithout, LeafKeeps, RemoveRoom;
      SweptStart();
      RootMapped(file.nodes, rows, h);
      if h.root == 0 {
        NoneWithout(p);
        return Ok;
      }
      if Packed(h.root, 0) {
        ShallowEnough();
        NotAlone(p);
      }
      ghost var pos;
      var path, ci;
      st, path, ci, pos := Descend(p);
      if st != Ok {
        return;
      }
      var leaf := path[|path| - 1];
      LeafReached(file.nodes, rows, path, ci, pos, p);
      var en;
      st, en := file.LoadNode(leaf);
      var found, x := FindKey(en.recs, p);
      if !found {
        NothingFolds(file.nodes, rows, file.nodeSize, p);
        return;
      }
      PathLengths(file.nodes, rows, path, ci, pos);
      DeletionRoom(path, ci, pos, p, x);
      st := DeleteFrom(path, ci, pos, p, x);
    }

    /** A fixed-size tree of several leaves has no leaf of one record. */
    lemma NotAlone(p: int)
      requires Valid() && Packed(h.root, 0)
      ensures !Alone(p)
    {
      hide NodeFile.Valid, WF, Flat, HeaderOk, RootOk, AllFull, Filled, LiveIs;
      if |rows| > 1 {
        var s := rows[|rows| - 1];
        forall i | 0 <= i < |s| ensures !OnlyKey(Recs(file.nodes, s[i]), p) {
          LeafLong(file.nodes, rows, file.live, file.nodeSize, h, i);
        }
      }
    }

    /** Takes record `x` out of the leaf at the end of `path` and out of the record count. */
    method RemoveFromLeaf(path: seq<nat>, ghost ci: seq<nat>, ghost pos: seq<nat>, p: int, x: nat)
      returns (st: Status, left: seq<Rec>)
      requires Valid() && rows != [] && |path| == |rows| && PathTo(file.nodes, rows, path, ci, pos, |path| - 1)
      requires path[|path| - 1] in file.nodes && x < |file.nodes[path[|path| - 1]].recs|
      requires file.nodes[path[|path| - 1]].recs[x].key == p
      modifies file`nodes, this`leafRecords
      ensures st == Ok ==> file.Valid() && DeletingAt(path, ci, pos, |path| - 1, p) && RootOk(file.nodes, rows)
      ensures st == Ok ==> Records() == Without(old(Records()), p) && leafRecords == |Records()| % U32
      ensures st == Ok ==> left == Recs(file.nodes, path[|path| - 1]) && (NoEmptyLeaf() <==> left != [])
      ensures st == Ok && left == Del(old(Recs(file.nodes, path[|path| - 1])), x)
      ensures file.nodes == SetRecs(old(file.nodes), path[|path| - 1], left)
      ensures st == Ok && |path| > 1 ==> (Stuck(path, |path| - 1) <==> old(Strands(p)))
      ensures st == Ok && |path| == 1 && left == [] ==> Records() == [] && rows[0] == [path[0]]
      ensures st == Ok && old(Keyed(0)) ==> Keyed(if x == 0 then path[|path| - 1] else 0)
      ensures old(Packed(h.root, 0)) ==> st == Ok && Packed(h.root, path[|path| - 1])
      ensures old(Packed(h.root, 0)) && |path| > 1 ==> left != []
      ensures st == Ok ==> SweptFrom(old(file.nodes), old(file.live), old(file.freeNodes))
    {
      hide Exact, Filled, NodeFile.Valid, Fits, TreeOk, RootOk, AllFull, Contents, Without, Stranding, Deleting,
        PathTo, LiveIs, Swept;
      file.SizeOk();
      var leaf := path[|path| - 1];
      EndIsLive(file.nodes, rows, file.live, path, ci, pos);
      DelFits(file.nodeSize, file.nodes[leaf].recs, x);
      RemoveResult(file.nodes, rows, h, file.live, path, ci, pos, x);
      var en;
      st, en := file.LoadNode(leaf);
      left := Del(en.recs, x);
      if Keyed(0) {
        RemoveKeyed(file.nodes, rows, h, file.live, path, ci, pos, x);
      }
      if Packed(h.root, 0) {
        RemoveFilled(file.nodes, rows, h, file.live, file.nodeSize, path, ci, pos, x);
      }
      CountDown(|Records()|, leafRecords);
      hide U32;
      leafRecords := if leafRecords == 0 then U32 - 1 else leafRecords - 1;
      SweptStore(file.nodes, file.live, file.freeNodes, leaf, en.(recs := left));
      st := file.StoreNode(leaf, en.(recs := left));
    }

    /** An empty leaf stays out of place however the rows are drawn. */
    lemma NoOtherRows(e: int)
      requires Kept(e)
      ensures WellFormed() ==> NoEmptyLeaf()
    {
      hide Flat, WF, TreeOk, LiveIs, AllFull, HeaderOk;
      forall rs: seq<seq<nat>> | TreeOk(file.nodes, rs, h) && LiveIs(rs, file.live) ensures NoEmptyLeaf() {
        LeavesFull(file.nodes, rows, rs, h, file.live, e);
      }
    }

    /** Deletion once the record is found: the leaf, the index keys above, and rebalancing. */
    method DeleteFrom(path: seq<nat>, ci: seq<nat>, ghost pos: seq<nat>, p: int, x: nat) returns (st: Status)
      requires Valid() && rows != [] && |path| == |rows| && PathTo(file.nodes, rows, path, ci, pos, |path| - 1)
      requires path[|path| - 1] in file.nodes && x < |file.nodes[path[|path| - 1]].recs|
      requires file.nodes[path[|path| - 1]].recs[x].key == p
      modifies file, this
      ensures st == Ok ==> file.Valid() && LiveIs(rows, file.live)
      ensures st == Ok ==> Records() == Without(old(Records()), p) && leafRecords == |Records()| % U32
      ensures st == Ok ==> (Valid() <==> !old(Strands(p))) && (WellFormed() <==> !old(Strands(p)))
      ensures st == Ok ==> (LeafCount() <= 1 <==> old(OneLeafWithout(p)))
      ensures st == Ok && old(Keyed(0)) && !old(Alone(p)) ==> Keyed(0)
      ensures old(Packed(h.root, 0)) ==> st == Ok && Valid() && Packed(h.root, 0)
      ensures old(Strands(p)) ==> st == Ok
      ensures st == Ok ==> SweptFrom(old(file.nodes), old(file.live), old(file.freeNodes))
      ensures |ci| == |path| - 1 && (st == Ok <==> RemoveRoom(old(file.nodes), file.nodeSize, path, ci, x))
    {
      hide NodeFile.Valid, UsedBytes, WF, Flat, HeaderOk, RootOk, AllFull, PathOk, Contents, Without, Stranding,
        Deleting, KeptAt, Filled, PathTo, Exact, SomeAlone, FoldsWithout, MergesAt, Swept, SweptFrom,
        RemoveRoom, RefreshRoom, Refreshed, MendRoom;
      if Packed(h.root, 0) && |rows| > 1 {
        NoneStranded(file.nodes, rows, file.live, file.nodeSize, h, p);
      }
      var last := |path| - 1;
      ghost var nodes0 := file.nodes;
      AloneHere(nodes0, rows, path, ci, pos, p, x);
      RemoveRoomIs(nodes0, rows, file.nodeSize, path, ci, pos, x);
      LeavesAre(nodes0, rows);
      var left;
      st, left := RemoveFromLeaf(path, ci, pos, p, x);
      if st != Ok {
        return;
      }
      ghost var nodes1, free1 := file.nodes, file.freeNodes;
      SweptIs(old(file.nodes), old(file.live), old(file.freeNodes));
      if last == 0 {
        st := SettleRoot(path, ci, pos, p, x, left);
        SweptOn(old(file.nodes), old(file.live), old(file.freeNodes), nodes1, old(file.live), free1);
        return;
      }
      st := RefreshAbove(path, ci, pos, p, x == 0 && left != []);
      if st != Ok {
        return;
      }
      SweptOn(old(file.nodes), old(file.live), old(file.freeNodes), nodes1, old(file.live), free1);
      ghost var nodes2 := file.nodes;
      SweptIs(old(file.nodes), old(file.live), old(file.freeNodes));
      FoldsHere(nodes0, file.nodes, rows, file.nodeSize, h, file.live, path, ci, pos, p, x);
      st := Rebalance(path, ci, pos, last, p);
      if st == Ok {
        SweptOn(old(file.nodes), old(file.live), old(file.freeNodes), nodes2, old(file.live), free1);
        RebalancedTree(file.nodes, rows, h, file.live, p);
        NoOtherRows(p);
      }
    }

    /** A deletion that empties no index: the root is the leaf. */
    method SettleRoot(path: seq<nat>, ghost ci: seq<nat>, ghost pos: seq<nat>, ghost p: int, ghost x: nat,
        left: seq<Rec>) returns (st: Status)
      requires |path| == |rows| == 1 && file.Valid() && DeletingAt(path, ci, pos, 0, p) && RootOk(file.nodes, rows)
      requires left == Recs(file.nodes, path[0]) && (NoEmptyLeaf() <==> left != []) && leafRecords == |Records()| % U32
      requires left == [] ==> Records() == [] && rows[0] == [path[0]]
      modifies file, this`h, this`rows
      ensures st == Ok && Valid() && Records() == old(Records()) && LeafCount() <= 1 && Keyed(0)
      ensures old(Packed(h.root, path[0])) ==> Packed(h.root, 0)
      ensures st == Ok ==> SweptFrom(old(file.nodes), old(file.live), old(file.freeNodes))
    {
      hide NodeFile.Valid, UsedBytes, HeaderOk, RootOk, AllFull, Contents, Deleting, KeptAt, Filled, Exact, LiveIs,
        WholeFull, SweptFrom;
      SweptStart();
      SettledRoot(file.nodes, rows, h, p, file.live, path, ci, pos);
      if Packed(h.root, path[0]) {
        FilledSettled(file.nodes, file.live, file.nodeSize, h.root, path[0]);
      }
      st := Ok;
      if left == [] {
        st := DropRootLeaf(path[0]);
        NoneWithout(p);
      }
    }
  }
}
