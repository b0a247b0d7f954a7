/** The B-tree file: node images, the node bitmap, and growth of the backing fork. */
module NodeFiles {
  import opened Arith
  import opened Nodes
  import opened Rows
  import opened NodePool

  datatype Status = Ok | NoSpace | NodeFull | Corrupt | Panic

  /** Nodes a growth step asks room for. */
  const GROW_NODES := 8

  /** Whole nodes that fit a number of allocation blocks. */
  function NodesIn(blocks: nat, blockSize: nat, nodeSize: nat): nat
    requires nodeSize > 0
  {
    blocks * blockSize / nodeSize
  }

  /** The B-tree file. `Valid` takes in what the 32-bit node count of the header needs: the file cannot outgrow
      it even if it takes every free block of the volume. */
  class NodeFile {
    const nodeSize: nat
    const blockSize: nat
    /** The extents a growing fork gains always find their place, inline or in the extents-overflow tree; otherwise they
        may not. */
    const recordable: bool
    var nodes: Img
    var img: MapImg
    var totalNodes: nat
    var freeNodes: nat
    var forkBlocks: nat
    var freeBlocks: nat
    ghost var chain: seq<nat>
    ghost var live: set<nat>

    ghost predicate Valid()
      reads this
    {
      && nodeSize >= 512 && blockSize > 0
      && totalNodes == NodesIn(forkBlocks, blockSize, nodeSize)
      && NodesIn(forkBlocks + freeBlocks, blockSize, nodeSize) < U32
      && PoolOk(nodes, img, chain, live, totalNodes, freeNodes)
      && (forall n: nat :: n in live ==> n in nodes && Fits(nodeSize, nodes[n].recs))
    }

    /** The node count fits the header's 32-bit field. */
    lemma CountsFit()
      requires Valid()
      ensures totalNodes < U32
    {
      var a, b := forkBlocks * blockSize, freeBlocks * blockSize;
      assert (forkBlocks + freeBlocks) * blockSize == a + b;
      DivAdd(a, b, nodeSize, 0);
    }

    /** A live node is mapped and fits. */
    lemma LiveFits(n: nat)
      requires Valid() && n in live
      ensures n in nodes && Fits(nodeSize, nodes[n].recs)
    {
    }

    lemma SizeOk()
      requires Valid()
      ensures nodeSize >= 512 && (forall n: nat :: n in live ==> n in nodes && Fits(nodeSize, nodes[n].recs))
    {
    }

    ghost function BitMap(): seq<bool>
      reads this
    {
      Bits(img, chain)
    }

    /** A fresh B-tree file: the header node is the only node in use. */
    constructor (nodeSize: nat, blockSize: nat, forkBlocks: nat, freeBlocks: nat)
      requires nodeSize >= 512 && blockSize > 0
      requires 1 <= NodesIn(forkBlocks, blockSize, nodeSize) <= 8 * (nodeSize - 256)
      requires NodesIn(forkBlocks + freeBlocks, blockSize, nodeSize) < U32
      ensures Valid() && live == {} && freeNodes == totalNodes - 1
      ensures this.nodeSize == nodeSize && this.blockSize == blockSize
      ensures this.forkBlocks == forkBlocks && this.freeBlocks == freeBlocks
    {
      var total := NodesIn(forkBlocks, blockSize, nodeSize);
      this.nodeSize, this.blockSize, this.forkBlocks, this.freeBlocks := nodeSize, blockSize, forkBlocks, freeBlocks;
      var stale := AnyNodes(1, total);
      nodes := stale;
      img := map[0 := MapRec(0, seq(8 * (nodeSize - 256), i => i == 0))];
      totalNodes, freeNodes := total, total - 1;
      chain, live := [0], {};
      new;
      FreshPool(nodes, img, 8 * (nodeSize - 256), total);
    }

    /** A fresh B-tree file with one leaf, node 1. */
    constructor WithLeaf(nodeSize: nat, blockSize: nat, forkBlocks: nat, freeBlocks: nat, recs: seq<Rec>)
      requires nodeSize >= 512 && blockSize > 0 && Fits(nodeSize, recs)
      requires 2 <= NodesIn(forkBlocks, blockSize, nodeSize) <= 8 * (nodeSize - 256)
      requires NodesIn(forkBlocks + freeBlocks, blockSize, nodeSize) < U32
      ensures Valid() && live == {1} && 1 in nodes && nodes[1] == Node(Leaf, 1, 0, 0, recs)
      ensures freeNodes == totalNodes - 2
      ensures this.nodeSize == nodeSize && this.blockSize == blockSize
      ensures this.forkBlocks == forkBlocks && this.freeBlocks == freeBlocks
    {
      hide PoolOk, NodesIn, Fits;
      var total, len := NodesIn(forkBlocks, blockSize, nodeSize), 8 * (nodeSize - 256);
      this.nodeSize, this.blockSize, this.forkBlocks, this.freeBlocks := nodeSize, blockSize, forkBlocks, freeBlocks;
      var stale := AnyNodes(1, total);
      nodes := stale[1 := Node(Leaf, 1, 0, 0, recs)];
      img := map[0 := MapRec(0, seq(len, i => i == 0 || i == 1))];
      totalNodes, freeNodes := total, total - 2;
      chain, live := [0], {1};
      new;
      RootPool(stale, nodes, map[0 := MapRec(0, seq(len, i => i == 0))], img, len, total);
    }

    // ---- loading and storing ----

    method LoadNode(n: nat) returns (st: Status, nd: Node)
      ensures n in nodes ==> st == Ok && nd == nodes[n]
      ensures n !in nodes ==> st == Corrupt && nd == Erased
    {
      if n in nodes {
        return Ok, nodes[n];
      }
      return Corrupt, Erased;
    }

    /** A node that does not fit is left erased, as the source zeroes the image before it checks. */
    method StoreNode(n: nat, nd: Node) returns (st: Status)
      modifies this`nodes
      ensures n !in old(nodes) ==> st == Corrupt && nodes == old(nodes)
      ensures n in old(nodes) && Fits(nodeSize, nd.recs) ==> st == Ok && nodes == old(nodes)[n := nd]
      ensures n in old(nodes) && !Fits(nodeSize, nd.recs) ==> st == NodeFull && nodes == old(nodes)[n := Erased]
      ensures old(Valid()) ==> Valid()
    {
      hide PoolOk, NodesIn, Fits, Erased;
      if n !in nodes {
        return Corrupt;
      }
      if !Fits(nodeSize, nd.recs) {
        PoolStored(nodes, img, chain, live, totalNodes, freeNodes, n, Erased);
        ErasedFits(nodeSize);
        nodes := nodes[n := Erased];
        return NodeFull;
      }
      PoolStored(nodes, img, chain, live, totalNodes, freeNodes, n, nd);
      nodes := nodes[n := nd];
      return Ok;
    }

    // ---- walking the bitmap ----

    /** Sets or clears one bit, in the stretch that holds it. */
    method SetNodeBit(n: nat, used: bool) returns (st: Status)
      requires MapChain(img, chain)
      modifies this`img
      ensures st == Ok <==> n < |old(BitMap())|
      ensures st == Ok ==> MapChain(img, chain) && BitMap() == old(BitMap())[n := used]
      ensures st != Ok ==> st == Corrupt && img == old(img)
      ensures img.Keys == old(img).Keys
    {
      hide Bits, MapChain;
      var cur: nat, bitBase: nat, more := 0, 0, true;
      ghost var i := 0;
      WalkStart(img, chain);
      while more
        invariant WalkAt(img, chain, i, cur, more, bitBase) && bitBase <= n
        invariant img == old(img)
        decreases |chain| - i
      {
        WalkStep(img, chain, i, cur, bitBase);
        var m := img[cur].bits;
        if n < bitBase + |m| {
          BitsUpdate(img, chain, i, n - bitBase, used);
          img := img[cur := img[cur].(bits := m[n - bitBase := used])];
          return Ok;
        }
        bitBase := bitBase + |m|;
        cur := img[cur].flink;
        i := i + 1;
        more := cur != 0;
      }
      WalkEnd(img, chain, i, cur, bitBase);
      return Corrupt;
    }

    /** The lowest clear bit below `limit`, if any. */
    method FirstClear(limit: nat) returns (ok: bool, n: nat)
      requires MapChain(img, chain)
      ensures ok <==> !Full(limit)
      ensures ok ==> n < limit && n < |BitMap()| && !BitMap()[n]
      ensures ok ==> forall k :: 0 <= k < n ==> BitMap()[k]
    {
      hide Bits, MapChain;
      var cur: nat, bitBase: nat, more := 0, 0, true;
      ghost var i := 0;
      WalkStart(img, chain);
      while more
        invariant WalkAt(img, chain, i, cur, more, bitBase) && bitBase <= |BitMap()|
        invariant forall k :: 0 <= k < bitBase ==> BitMap()[k]
        decreases |chain| - i
      {
        WalkStep(img, chain, i, cur, bitBase);
        var m := img[cur].bits;
        for j := 0 to |m|
          invariant forall k :: 0 <= k < bitBase + j ==> BitMap()[k]
        {
          if bitBase + j >= limit {
            return false, 0;
          }
          if !m[j] {
            return true, bitBase + j;
          }
        }
        bitBase := bitBase + |m|;
        cur := img[cur].flink;
        i := i + 1;
        more := cur != 0;
      }
      WalkEnd(img, chain, i, cur, bitBase);
      return false, 0;
    }

    method MapCapacityBits() returns (bits: nat)
      requires MapChain(img, chain)
      ensures bits == |BitMap()|
    {
      hide Bits, MapChain;
      var cur: nat, more := 0, true;
      bits := 0;
      ghost var i := 0;
      WalkStart(img, chain);
      while more
        invariant WalkAt(img, chain, i, cur, more, bits)
        decreases |chain| - i
      {
        WalkStep(img, chain, i, cur, bits);
        bits := bits + |img[cur].bits|;
        cur := img[cur].flink;
        i := i + 1;
        more := cur != 0;
      }
      WalkEnd(img, chain, i, cur, bits);
    }

    // ---- growth ----

    /** The end of the map-node chain; the header node when there is no map node. */
    method LastMapNode() returns (last: nat)
      requires MapChain(img, chain)
      ensures last == chain[|chain| - 1]
    {
      assert MapLink(img, chain, 0);
      assert forall j :: 0 < j < |chain| ==> chain[j] != chain[0];
      last := 0;
      var cur := img[0].flink;
      ghost var i := 1;
      while cur != 0
        invariant 1 <= i <= |chain| && last == chain[i - 1]
        invariant cur == (if i < |chain| then chain[i] else 0)
        decreases |chain| - i
      {
        assert MapLink(img, chain, i);
        last := cur;
        cur := img[cur].flink;
        i := i + 1;
      }
    }

    /** Every bit below `cap` that the bitmap has is set. */
    ghost predicate Full(cap: nat)
      reads this
    {
      FullBelow(BitMap(), cap)
    }

    /** Appends a map node: the lowest free slot of the existing bitmap, linked last, marked used. */
    method AddMapNode(cap: nat) returns (st: Status)
      requires nodeSize >= 512 && MapChain(img, chain) && UsedOk(nodes, img, BitMap(), live, cap)
      modifies this`img, this`nodes, this`chain
      ensures st == Ok || st == NoSpace
      ensures st == NoSpace <==> old(Full(cap))
      ensures st == Ok ==> MapChain(img, chain) && UsedOk(nodes, img, BitMap(), live, cap)
      ensures st == Ok ==> Stretched(old(BitMap()), BitMap(), 8 * (nodeSize - 18))
      ensures st == Ok ==> Clear(BitMap(), cap) == old(Clear(BitMap(), cap)) - 1
      ensures st == Ok ==> old(chain) < chain && nodes.Keys <= old(nodes).Keys
      ensures st == Ok ==> forall n: nat :: n in nodes ==> nodes[n] == old(nodes)[n]
    {
      hide Bits, Clear, MapChain, UsedOk, Stretched;
      var last := LastMapNode();
      var found, slot := FirstClear(cap);
      if !found {
        return NoSpace;
      }
      ghost var img0, bits0 := img, BitMap();
      SlotFree(nodes, img, bits0, live, cap, chain, slot);
      var len := 8 * (nodeSize - 18);
      BitsAppend(img, chain, slot, len);
      nodes := nodes - {slot};
      img := img[last := img[last].(flink := slot)][slot := MapRec(0, seq(len, _ => false))];
      chain := chain + [slot];
      st := SetNodeBit(slot, true);
      StretchedBy(bits0, len, slot);
      MapNodeUsed(old(nodes), img0, img, bits0, BitMap(), live, cap, slot, len);
    }

    /** Adds map nodes until the bitmap reaches `total` nodes; says how many it added. Only the first can fail. */
    method EnsureMapCapacity(total: nat) returns (st: Status, added: nat)
      requires nodeSize >= 512 && MapChain(img, chain) && UsedOk(nodes, img, BitMap(), live, total)
      modifies this`img, this`nodes, this`chain
      ensures st == Ok || st == NoSpace
      ensures st == Ok <==> total <= |old(BitMap())| || !old(Full(total))
      ensures st == Ok ==> MapChain(img, chain) && UsedOk(nodes, img, BitMap(), live, total)
      ensures st == Ok ==> total <= |BitMap()|
      ensures st == Ok && |old(BitMap())| < total ==> !Full(total)
      ensures st == Ok && total <= |old(BitMap())| ==> BitMap() == old(BitMap())
      ensures st == Ok ==> Clear(BitMap(), total) == old(Clear(BitMap(), total)) - added
      ensures st == Ok ==> nodes.Keys <= old(nodes).Keys && forall n: nat :: n in nodes ==> nodes[n] == old(nodes)[n]
    {
      hide Bits, Clear, MapChain, UsedOk, FullBelow, Stretched;
      added := 0;
      while true
        invariant MapChain(img, chain) && UsedOk(nodes, img, BitMap(), live, total)
        invariant Clear(BitMap(), total) == old(Clear(BitMap(), total)) - added
        invariant nodes.Keys <= old(nodes).Keys && forall n: nat :: n in nodes ==> nodes[n] == old(nodes)[n]
        invariant added == 0 ==> BitMap() == old(BitMap())
        invariant added > 0 ==> |old(BitMap())| < total && !old(Full(total)) && !Full(total)
        decreases total - |BitMap()|
      {
        var capacity := MapCapacityBits();
        if capacity >= total {
          return Ok, added;
        }
        ghost var bits0 := BitMap();
        st := AddMapNode(total);
        if st != Ok {
          return st, added;
        }
        StretchedClear(bits0, BitMap(), 8 * (nodeSize - 18), total);
        added := added + 1;
      }
    }

    /** The bookkeeping of growth: `newTotal` nodes, a bitmap that reaches them, and the counters. */
    method ExtendTo(newTotal: nat) returns (st: Status)
      requires nodeSize >= 512 && totalNodes < newTotal
      requires PoolOk(nodes, img, chain, live, totalNodes, freeNodes)
      modifies this`img, this`nodes, this`chain, this`totalNodes, this`freeNodes
      ensures st == Ok || st == NoSpace
      ensures st == Ok <==> newTotal <= |old(BitMap())| || !old(Full(newTotal))
      ensures st == Ok ==>
        totalNodes == newTotal && PoolOk(nodes, img, chain, live, totalNodes, freeNodes) && !Full(totalNodes)
      ensures st == Ok ==> Carried(old(nodes), nodes, live)
    {
      hide PoolOk, MapChain, UsedOk, Bits, Clear, FullBelow, Carried;
      var added := newTotal - totalNodes;
      var stale := AnyNodes(totalNodes, newTotal);
      ghost var nodes0 := nodes;
      GrowthStarts(nodes, stale, img, chain, live, totalNodes, freeNodes, newTotal);
      nodes := nodes + stale;
      ghost var nodes1 := nodes;
      var mapNodes;
      st, mapNodes := EnsureMapCapacity(newTotal);
      if st != Ok {
        return;
      }
      totalNodes := newTotal;
      freeNodes := freeNodes + added - mapNodes;
      GrowthEnds(nodes0, nodes1, nodes, img, chain, live, totalNodes, freeNodes);
    }

    /** Blocks a growth step takes. */
    function GrowthBlocks(): (n: nat)
      requires blockSize > 0
      ensures n * blockSize >= 8 * nodeSize && (nodeSize > 0 ==> n > 0 && (n - 1) * blockSize < 8 * nodeSize)
    {
      (GROW_NODES * nodeSize + blockSize - 1) / blockSize
    }

    /** Nodes the file has after a growth step. */
    function GrownTotal(): nat
      requires blockSize > 0 && nodeSize > 0
      reads this`forkBlocks
    {
      NodesIn(forkBlocks + GrowthBlocks(), blockSize, nodeSize)
    }

    /** The volume has the blocks of a growth step, and the bitmap reaches the new nodes or has a slot for a map
        node. */
    ghost predicate Growable()
      requires blockSize > 0 && nodeSize > 0
      reads this
    {
      GrowthBlocks() <= freeBlocks && (GrownTotal() <= |BitMap()| || !Full(GrownTotal()))
    }

    /** Enlarges the fork by `GROW_NODES` nodes' worth of blocks. The new nodes hold whatever the blocks held.
        `recorded` says whether the fork's new extents could be recorded, inline or in the extents-overflow tree. */
    method GrowFork() returns (st: Status, recorded: bool)
      requires Valid()
      modifies this`img, this`nodes, this`chain, this`totalNodes, this`freeNodes, this`forkBlocks, this`freeBlocks
      ensures st == Ok || st == NoSpace
      ensures st == Ok <==> recorded && old(Growable())
      ensures recordable ==> (st == Ok <==> old(Growable()))
      ensures st == Ok ==> Valid() && !Full(totalNodes)
      ensures st == Ok ==>
        forkBlocks + freeBlocks == old(forkBlocks + freeBlocks) && forkBlocks == old(forkBlocks) + GrowthBlocks()
      ensures st == Ok ==> totalNodes == old(GrownTotal()) >= old(totalNodes) + GROW_NODES
      ensures st == Ok ==> Carried(old(nodes), nodes, live)
    {
      hide PoolOk, FullBelow, NodesIn;
      var addBlocks := GrowthBlocks();
      GrowthIsEnough(nodeSize, blockSize, forkBlocks, addBlocks);
      recorded := true;
      if !recordable {
        recorded := *;
      }
      if addBlocks > freeBlocks || !recorded {
        return NoSpace, recorded;
      }
      freeBlocks := freeBlocks - addBlocks;
      forkBlocks := forkBlocks + addBlocks;
      var newTotal := NodesIn(forkBlocks, blockSize, nodeSize);
      st := ExtendTo(newTotal);
    }

    /** A free node, erased and marked used; the fork grows first when no node is free. */
    method AllocNode() returns (st: Status, n: nat, ghost recorded: bool)
      requires Valid()
      modifies this`img, this`nodes, this`chain, this`totalNodes, this`freeNodes, this`forkBlocks, this`freeBlocks,
        this`live
      ensures st == Ok || st == NoSpace
      ensures st == Ok <==> old(freeNodes) > 0 || (recorded && old(Growable()))
      ensures recordable ==> (st == Ok <==> old(freeNodes) > 0 || old(Growable()))
      ensures st == Ok ==> Valid() && n != 0 && n !in old(live) && live == old(live) + {n}
      ensures st == Ok ==> n in nodes && nodes[n] == Erased && Carried(old(nodes), nodes, old(live))
      ensures st == Ok && old(freeNodes) > 0 ==>
        freeNodes == old(freeNodes) - 1 && forkBlocks == old(forkBlocks) && totalNodes == old(totalNodes)
      ensures st == Ok ==> n < |BitMap()| && forall k :: 0 <= k <= n ==> BitMap()[k]
      ensures st == Ok && old(freeNodes) > 0 ==>
        n < |old(BitMap())| && !old(BitMap())[n] && BitMap() == old(BitMap())[n := true]
    {
      hide PoolOk, Bits, Clear, FullBelow, NodesIn;
      PoolParts(nodes, img, chain, live, totalNodes, freeNodes);
      recorded := false;
      var ok;
      ok, n := FirstClear(totalNodes);
      if !ok {
        st, recorded := GrowFork();
        if st != Ok {
          return st, 0, recorded;
        }
        // The source looks again and would refuse here: growth always leaves a clear bit.
        PoolParts(nodes, img, chain, live, totalNodes, freeNodes);
        ok, n := FirstClear(totalNodes);
        assert ok;
      }
      st := TakeSlot(n);
    }

    /** Marks a free node used and erases it. */
    method TakeSlot(n: nat) returns (st: Status)
      requires Valid() && n < totalNodes && n < |BitMap()| && !BitMap()[n]
      modifies this`img, this`nodes, this`freeNodes, this`live
      ensures st == Ok && Valid() && n != 0 && n !in old(live) && live == old(live) + {n}
      ensures n in old(nodes) && nodes == old(nodes)[n := Erased] && freeNodes == old(freeNodes) - 1
      ensures BitMap() == old(BitMap())[n := true]
    {
      hide Bits, Clear, MapChain, UsedOk, NodesIn;
      ghost var img0 := img;
      TakeNode(nodes, img, BitMap(), live, totalNodes, n);
      assert n != 0 by { HeaderMapped(img, chain); }
      st := SetNodeBit(n, true);
      freeNodes := freeNodes - 1;
      nodes := nodes[n := Erased];
      live := live + {n};
      UsedByKeys(nodes, img0, img, BitMap(), live, totalNodes);
    }

    /** Gives node `n` back and erases it. */
    method FreeNode(n: nat) returns (st: Status)
      requires Valid() && n in live
      modifies this`img, this`nodes, this`freeNodes, this`live
      ensures st == Ok && Valid()
      ensures live == old(live) - {n} && nodes == old(nodes)[n := Erased] && freeNodes == old(freeNodes) + 1
      ensures n < |old(BitMap())| && BitMap() == old(BitMap())[n := false]
    {
      hide Bits, Clear, MapChain, UsedOk;
      GiveNode(nodes, img, BitMap(), live, totalNodes, n);
      st := SetNodeBit(n, false);
      nodes := nodes[n := Erased];
      freeNodes := freeNodes + 1;
      live := live - {n};
      UsedByKeys(nodes, old(img), img, BitMap(), live, totalNodes);
    }

    /** The unspecified contents of the nodes numbered `lo` to `hi - 1`. */
    static method AnyNodes(lo: nat, hi: nat) returns (stale: Img)
      requires lo <= hi
      ensures forall n: nat :: n in stale <==> lo <= n < hi
    {
      stale := map[];
      for n := lo to hi
        invariant forall m: nat :: m in stale <==> lo <= m < n
      {
        var nd: Node := *;
        stale := stale[n := nd];
      }
    }
  }

  /** The bits after a map node with `len` more was added: all of the new ones are clear. */
  ghost predicate Stretched(bits: seq<bool>, bits': seq<bool>, len: nat) {
    |bits'| == |bits| + len && forall k :: |bits| <= k < |bits'| ==> !bits'[k]
  }

  lemma StretchedClear(bits: seq<bool>, bits': seq<bool>, len: nat, total: nat)
    requires Stretched(bits, bits', len) && len > 0 && |bits| < total
    ensures |bits'| == |bits| + len && !FullBelow(bits', total)
  {
    assert !bits'[|bits|];
  }

  lemma StretchedBy(bits: seq<bool>, len: nat, slot: nat)
    requires slot < |bits|
    ensures Stretched(bits, (bits + seq(len, _ => false))[slot := true], len)
  {
  }

  /** A clear slot is no map node's. */
  lemma SlotFree(nodes: Img, img: MapImg, bits: seq<bool>, live: set<nat>, cap: nat, chain: seq<nat>, slot: nat)
    requires MapChain(img, chain) && UsedOk(nodes, img, bits, live, cap) && slot < cap && slot < |bits| && !bits[slot]
    ensures slot !in chain && slot !in img && chain != [] && chain[|chain| - 1] in img
  {
    assert Bit(bits, slot) == false;
    assert MapLink(img, chain, |chain| - 1);
  }

  /** The free count of a bitmap is 0 exactly when every bit is set. */
  lemma NoneFree(bits: seq<bool>, n: nat)
    ensures n <= |bits| ==> (Clear(bits, n) == 0 <==> FullBelow(bits, n))
  {
    if n <= |bits| {
      AllSet(bits, n);
    }
  }

  lemma {:induction false} AllSet(bits: seq<bool>, n: nat)
    requires n <= |bits|
    ensures Clear(bits, n) == 0 <==> FullBelow(bits, n)
  {
    if n > 0 {
      AllSet(bits, n - 1);
      assert FullBelow(bits, n) <==> FullBelow(bits, n - 1) && bits[n - 1];
    }
  }

  /** What growth starts from: the new nodes are free, and the bits that come into range clear. */
  lemma GrowthStarts(nodes: Img, stale: Img, img: MapImg, chain: seq<nat>, live: set<nat>, total: nat, free: nat,
      newTotal: nat)
    requires PoolOk(nodes, img, chain, live, total, free) && total < newTotal
    requires forall n: nat :: n in stale <==> total <= n < newTotal
    ensures MapChain(img, chain) && UsedOk(nodes + stale, img, Bits(img, chain), live, newTotal)
    ensures Clear(Bits(img, chain), newTotal) == free + (newTotal - total)
    ensures newTotal <= |Bits(img, chain)| ==> !FullBelow(Bits(img, chain), newTotal)
    ensures Carried(nodes, nodes + stale, live)
  {
    hide MapChain, Bits, Clear;
    var bits := Bits(img, chain);
    ClearGrow(bits, total, newTotal);
    GrownUsed(nodes, stale, img, bits, live, total, newTotal);
    LiveMapped(nodes, img, bits, live, total);
    hide UsedOk;
    assert newTotal <= |bits| ==> !bits[total];
  }

  lemma GrowthEnds(nodes: Img, nodes1: Img, nodes': Img, img: MapImg, chain: seq<nat>, live: set<nat>, total: nat,
      free: nat)
    requires MapChain(img, chain) && UsedOk(nodes', img, Bits(img, chain), live, total) && total <= |Bits(img, chain)|
    requires free == Clear(Bits(img, chain), total)
    requires Carried(nodes, nodes1, live) && nodes'.Keys <= nodes1.Keys && forall n: nat :: n in nodes' ==>
      nodes'[n] == nodes1[n]
    ensures PoolOk(nodes', img, chain, live, total, free) && Carried(nodes, nodes', live)
  {
    hide MapChain, Bits, Clear;
    LiveMapped(nodes', img, Bits(img, chain), live, total);
    hide UsedOk;
  }

  /** Storing a node changes no node's use. */
  lemma PoolStored(nodes: Img, img: MapImg, chain: seq<nat>, live: set<nat>, total: nat, free: nat, n: nat, nd: Node)
    requires n in nodes
    ensures PoolOk(nodes, img, chain, live, total, free) ==> PoolOk(nodes[n := nd], img, chain, live, total, free)
  {
    hide Bits, Clear, MapChain;
    assert nodes[n := nd].Keys == nodes.Keys;
  }

  lemma ErasedFits(nodeSize: nat)
    ensures nodeSize >= 512 ==> Fits(nodeSize, Erased.recs)
  {
  }

  lemma PoolParts(nodes: Img, img: MapImg, chain: seq<nat>, live: set<nat>, total: nat, free: nat)
    requires PoolOk(nodes, img, chain, live, total, free)
    ensures MapChain(img, chain) && live <= nodes.Keys && total <= |Bits(img, chain)|
    ensures free == 0 <==> FullBelow(Bits(img, chain), total)
  {
    hide Bits, MapChain, Clear, FullBelow;
    NoneFree(Bits(img, chain), total);
  }

  lemma UsedByKeys(nodes: Img, img: MapImg, img': MapImg, bits: seq<bool>, live: set<nat>, cap: nat)
    requires UsedOk(nodes, img, bits, live, cap) && img.Keys == img'.Keys
    ensures UsedOk(nodes, img', bits, live, cap)
  {
    assert forall n: nat :: n in img <==> n in img';
  }

  lemma UsedByNodes(nodes: Img, nodes': Img, img: MapImg, bits: seq<bool>, live: set<nat>, cap: nat)
    requires UsedOk(nodes, img, bits, live, cap) && nodes.Keys == nodes'.Keys
    ensures UsedOk(nodes', img, bits, live, cap)
  {
    assert forall n: nat :: n in nodes <==> n in nodes';
  }

  lemma FreshPool(nodes: Img, img: MapImg, len: nat, total: nat)
    requires 1 <= total <= len
    requires img == map[0 := MapRec(0, seq(len, i => i == 0))]
    requires forall n: nat :: n in nodes <==> 1 <= n < total
    ensures PoolOk(nodes, img, [0], {}, total, total - 1)
  {
    var bits := seq(len, i => i == 0);
    BitsOne(img, 0);
    var none := seq(len, _ => false);
    ClearGrow(none, 0, total);
    ClearSet(none, 0, total);
    assert bits == none[0 := true];
    forall n: nat ensures n in img <==> n == 0 {
    }
    forall n: nat ensures n in nodes <==> n < total && n !in img {
    }
    assert MapLink(img, [0], 0);
  }

  lemma HeaderMapped(img: MapImg, chain: seq<nat>)
    requires MapChain(img, chain)
    ensures 0 in img
  {
    assert MapLink(img, chain, 0);
  }

  /** Taking a clear bit for a tree node. */
  lemma TakeNode(nodes: Img, img: MapImg, bits: seq<bool>, live: set<nat>, cap: nat, n: nat)
    requires UsedOk(nodes, img, bits, live, cap) && n < cap && n < |bits| && !bits[n]
    ensures n in nodes && n !in live && n !in img
    ensures UsedOk(nodes[n := Erased], img, bits[n := true], live + {n}, cap)
    ensures Clear(bits, cap) > 0 && Clear(bits[n := true], cap) == Clear(bits, cap) - 1
  {
    assert !Bit(bits, n);
    ClearSet(bits, n, cap);
    ClearPositive(bits, n, cap);
    forall m | 0 <= m < cap ensures Bit(bits[n := true], m) <==> m in img || m in live + {n} {
      assert Bit(bits, m) <==> m in img || m in live;
    }
  }

  /** Giving a tree node back. */
  lemma GiveNode(nodes: Img, img: MapImg, bits: seq<bool>, live: set<nat>, cap: nat, n: nat)
    requires UsedOk(nodes, img, bits, live, cap) && n in live && cap <= |bits|
    ensures n < |bits|
    ensures UsedOk(nodes[n := Erased], img, bits[n := false], live - {n}, cap)
    ensures Clear(bits[n := false], cap) == Clear(bits, cap) + 1
  {
    assert n in nodes && Bit(bits, n);
    ClearReset(bits, n, cap);
    forall m | 0 <= m < cap ensures Bit(bits[n := false], m) <==> m in img || m in live - {n} {
      assert Bit(bits, m) <==> m in img || m in live;
    }
  }

  lemma LiveMapped(nodes: Img, img: MapImg, bits: seq<bool>, live: set<nat>, cap: nat)
    requires UsedOk(nodes, img, bits, live, cap)
    ensures live <= nodes.Keys
  {
  }

  /** Nodes gained by growth are clear in the bitmap and belong to nothing. */
  lemma GrownUsed(nodes: Img, stale: Img, img: MapImg, bits: seq<bool>, live: set<nat>, total: nat, newTotal: nat)
    requires UsedOk(nodes, img, bits, live, total) && total <= newTotal
    requires forall n: nat :: n in stale <==> total <= n < newTotal
    ensures UsedOk(nodes + stale, img, bits, live, newTotal)
    ensures forall n: nat :: n in nodes ==> (nodes + stale)[n] == nodes[n]
  {
    forall n: nat | 0 <= n < newTotal ensures Bit(bits, n) <==> n in img || n in live {
      if n >= total {
        assert !Bit(bits, n);
        assert n !in nodes;
      }
    }
  }

  lemma GrowthIsEnough(nodeSize: nat, blockSize: nat, blocks: nat, add: nat)
    requires nodeSize > 0 && blockSize > 0
    requires add == (GROW_NODES * nodeSize + blockSize - 1) / blockSize
    ensures add >= 1
    ensures NodesIn(blocks + add, blockSize, nodeSize) >= NodesIn(blocks, blockSize, nodeSize) + GROW_NODES
  {
    assert add * blockSize >= GROW_NODES * nodeSize;
    var a, b := blocks * blockSize, add * blockSize;
    assert (blocks + add) * blockSize == a + b;
    DivAdd(a, b, nodeSize, GROW_NODES);
  }

  lemma DivAdd(a: nat, b: nat, n: nat, k: nat)
    requires n > 0 && b >= k * n
    ensures (a + b) / n >= a / n + k
  {
    var q, y := a / n, (a + b) / n;
    assert a == q * n + a % n;
    assert (q + k) * n == q * n + k * n;
    assert a + b == y * n + (a + b) % n;
    assert (y + 1) * n == y * n + n;
    MulCancel(q + k, y + 1, n);
  }

  /** Node 1 in use besides the header node. */
  lemma RootPool(nodes: Img, nodes': Img, one: MapImg, two: MapImg, len: nat, total: nat)
    requires 2 <= total <= len && one == map[0 := MapRec(0, seq(len, i => i == 0))]
    requires two == map[0 := MapRec(0, seq(len, i => i == 0 || i == 1))]
    requires (forall n: nat :: n in nodes <==> 1 <= n < total) && nodes'.Keys == nodes.Keys
    ensures PoolOk(nodes', two, [0], {1}, total, total - 2)
  {
    hide Bits, Clear, UsedOk;
    FreshPool(nodes, one, len, total);
    BitsOne(one, 0);
    BitsOne(two, 0);
    var bits, bits' := Bits(one, [0]), Bits(two, [0]);
    assert bits' == bits[1 := true];
    TakeNode(nodes, one, bits, {}, total, 1);
    assert {} + {1} == {1};
    UsedByKeys(nodes[1 := Erased], one, two, bits', {1}, total);
    assert nodes[1 := Erased].Keys == nodes'.Keys;
    UsedByNodes(nodes[1 := Erased], nodes', two, bits', {1}, total);
    assert MapLink(two, [0], 0);
    assert forall n: nat :: n in two <==> n in [0];
  }
}
