/** Formatting: where the special files go, and that the empty volume starts in order. */
module Mkfs {
  import opened Nodes
  import opened NodeFiles
  import opened BTreeWriters
  import opened ExtentsWriters
  import opened NameOrder
  import opened Coverage
  import opened CatalogWriters
  import opened Bitmap
  import opened ExtentsKeys
  import opened Owners
  import opened Allocators
  import opened Catalogs
  import opened Volumes

  const BLOCK_SIZE := 4096
  const NODE_SIZE := 4096
  const CATALOG_RESERVE := 256
  const MIN_CATALOG := 2

  /** `ceil(n / BLOCK_SIZE)`. */
  function BlocksFor(n: nat): (blocks: nat)
    ensures n <= blocks * BLOCK_SIZE < n + BLOCK_SIZE
  {
    (n + BLOCK_SIZE - 1) / BLOCK_SIZE
  }

  function AtLeastOne(n: nat): nat {
    if n == 0 then 1 else n
  }

  /** Block 0, the bitmap, the extents tree, the catalog, and the last block. */
  function Reserved(total: nat, allocBlocks: nat, extBlocks: nat, catBlocks: nat): seq<Extent>
    requires total > 0
  {
    [Extent(0, 1), Extent(1, allocBlocks), Extent(1 + allocBlocks, extBlocks),
     Extent(1 + allocBlocks + extBlocks, catBlocks), Extent(total - 1, 1)]
  }

  class Builder {
    const totalBlocks: nat
    var allocStart: nat
    var allocBlocks: nat
    var extStart: nat
    var extBlocks: nat
    var catStart: nat
    var catBlocks: nat
    var nextId: nat
    var usedBlocks: nat

    constructor (totalBlocks: nat)
      ensures this.totalBlocks == totalBlocks && usedBlocks == 0
    {
      this.totalBlocks := totalBlocks;
      allocStart, allocBlocks, extStart, extBlocks, catStart, catBlocks, nextId, usedBlocks := 0, 0, 0, 0, 0, 0, 0, 0;
    }

    /** The special files lie one after the other, in bounds, the catalog clamped to what the volume can hold. */
    ghost predicate LaidOut()
      reads this
    {
      && totalBlocks > 0 && allocStart == 1 && extStart == 1 + allocBlocks && catStart == extStart + extBlocks
      && allocBlocks >= 1 && extBlocks == 2 && MIN_CATALOG <= catBlocks <= CATALOG_RESERVE
      && catStart + catBlocks + 1 <= totalBlocks && 8 * (allocBlocks * BLOCK_SIZE) >= totalBlocks
    }

    /** Refuses only a volume that cannot hold the headers, the bitmap, the extents tree and a minimal catalog. */
    method Layout() returns (ok: bool)
      requires 0 < totalBlocks < U32
      modifies this
      ensures usedBlocks == old(usedBlocks)
      ensures ok ==> LaidOut() && nextId == FIRST_USER_ID
      ensures ok ==> 8 * ((allocBlocks - 1) * BLOCK_SIZE) < totalBlocks
      ensures ok ==> catBlocks == if catStart + 256 + 1 <= totalBlocks then 256 else totalBlocks - 1 - catStart
      ensures ok <==> totalBlocks >= BlocksFor((totalBlocks + 7) / 8) + 6
    {
      var bitmapBytes := (totalBlocks + 7) / 8;
      allocStart, allocBlocks := 1, AtLeastOne(BlocksFor(bitmapBytes));
      extStart := allocStart + allocBlocks;
      extBlocks := AtLeastOne(NODE_SIZE * 2 / BLOCK_SIZE);
      catStart := extStart + extBlocks;
      catBlocks := AtLeastOne(BlocksFor(NODE_SIZE * CATALOG_RESERVE));
      var minCat := BlocksFor(NODE_SIZE * MIN_CATALOG);
      var fixedBlocks := 1 + allocBlocks + extBlocks + 1;
      if fixedBlocks + catBlocks > totalBlocks {
        if fixedBlocks + minCat > totalBlocks {
          return false;
        }
        catBlocks := totalBlocks - fixedBlocks;
      }
      nextId := FIRST_USER_ID;
      return true;
    }

    /** Marks blocks that were free, and counts them. */
    method MarkUsed(alc: Allocator, start: nat, count: nat)
      requires AllFree(alc.Map(), start, count) && alc.bits == totalBlocks
      modifies alc.bitmap, this`usedBlocks
      ensures usedBlocks == old(usedBlocks) + count
      ensures forall m: nat :: alc.Test(m) == (old(alc.Test(m)) || start <= m < start + count)
    {
      for i := start to start + count
        invariant usedBlocks == old(usedBlocks) + (i - start)
        invariant forall m: nat :: alc.Test(m) == (old(alc.Test(m)) || start <= m < i)
      {
        assert !old(alc.Map())[i];
        alc.Set(i);
        usedBlocks := usedBlocks + 1;
      }
    }

    /** An allocation bitmap with every block free. */
    method NewBitmap() returns (alc: Allocator)
      requires LaidOut()
      ensures fresh(alc) && fresh(alc.bitmap) && alc.bits == totalBlocks && alc.bits <= 8 * alc.bitmap.Length
      ensures forall i :: 0 <= i < alc.bits ==> !alc.Test(i)
    {
      var bitmap := new bv8[allocBlocks * BLOCK_SIZE](_ => 0);
      alc := new Allocator(bitmap, totalBlocks);
      forall i | 0 <= i < alc.bits ensures !alc.Test(i) {
        assert bitmap[i / 8] == 0;
      }
    }

    /** The bitmap of a fresh volume. */
    method WriteAllocationBitmap(alc: Allocator)
      requires LaidOut() && usedBlocks == 0 && alc.bits == totalBlocks && alc.bits <= 8 * alc.bitmap.Length
      requires forall i :: 0 <= i < alc.bits ==> !alc.Test(i)
      modifies alc.bitmap, this`usedBlocks
      ensures BlocksOk(alc.Map(), Reserved(totalBlocks, allocBlocks, extBlocks, catBlocks), map[])
      ensures usedBlocks == Blocks(Reserved(totalBlocks, allocBlocks, extBlocks, catBlocks)) <= totalBlocks
      ensures totalBlocks - usedBlocks == Free(alc.Map()) && usedBlocks == catStart + catBlocks + 1
      ensures forall i: nat :: i < totalBlocks ==>
        (alc.Test(i) <==> i < catStart + catBlocks || i == totalBlocks - 1)
    {
      MarkUsed(alc, 0, 1);
      MarkUsed(alc, allocStart, allocBlocks);
      MarkUsed(alc, extStart, extBlocks);
      MarkUsed(alc, catStart, catBlocks);
      MarkUsed(alc, totalBlocks - 1, 1);
      ReservedOk(alc.Map(), allocBlocks, extBlocks, catBlocks);
    }
  }

  lemma ReservedIs(total: nat, a: nat, e: nat, c: nat, i: int)
    requires total > 0
    ensures Within(Reserved(total, a, e, c), i) <==> i == 0 || 1 <= i < 1 + a + e + c || i == total - 1
  {
    var runs := Reserved(total, a, e, c);
    assert InRun(runs[0], i) || InRun(runs[1], i) || InRun(runs[2], i) || InRun(runs[3], i) || InRun(runs[4], i) ==>
      Within(runs, i);
  }

  /** The special files' blocks are in bounds and apart, and exactly the used ones. */
  lemma ReservedOk(u: seq<bool>, a: nat, e: nat, c: nat)
    requires a > 0 && e > 0 && c > 0 && 1 + a + e + c + 1 <= |u|
    requires forall i :: 0 <= i < |u| ==> (u[i] <==> i == 0 || 1 <= i < 1 + a + e + c || i == |u| - 1)
    ensures BlocksOk(u, Reserved(|u|, a, e, c), map[])
    ensures Blocks(Reserved(|u|, a, e, c)) == a + e + c + 2 <= |u|
    ensures |u| - Blocks(Reserved(|u|, a, e, c)) == Free(u)
  {
    var runs := Reserved(|u|, a, e, c);
    hide Within;
    forall i: int ensures Within(runs, i) <==> i == 0 || 1 <= i < 1 + a + e + c || i == |u| - 1 {
      ReservedIs(|u|, a, e, c, i);
    }
    ReservedApart(|u|, a, e, c);
    hide Apart, Free;
    var w := ApartSum(runs, |u|);
    assert w == u;
    ReservedCount(|u|, a, e, c);
  }

  lemma ReservedApart(total: nat, a: nat, e: nat, c: nat)
    requires 1 + a + e + c + 1 <= total
    ensures Apart(Reserved(total, a, e, c))
  {
  }

  lemma ReservedCount(total: nat, a: nat, e: nat, c: nat)
    requires total > 0
    ensures Blocks(Reserved(total, a, e, c)) == a + e + c + 2
  {
    BlocksIsSum(Reserved(total, a, e, c));
    var x, y, z, t, last := Extent(0, 1), Extent(1, a), Extent(1 + a, e), Extent(1 + a + e, c), Extent(total - 1, 1);
    var r := Reserved(total, a, e, c);
    assert r == [x] + [y] + [z] + [t] + [last];
    SumCat([x] + [y] + [z] + [t], [last]);
    SumCat([x] + [y] + [z], [t]);
    SumCat([x] + [y], [z]);
    SumCat([x], [y]);
    SumOne(x);
    SumOne(y);
    SumOne(z);
    SumOne(t);
    SumOne(last);
  }

  lemma SumOne(r: Extent)
    ensures Sum([r]) == r.count
  {
    assert [r][1..] == [];
  }

  /** The volume's name; an empty one becomes "GOTEST". */
  function LabelOf(volumeName: Name): (r: Name)
    ensures r != [] && (volumeName != [] ==> r == volumeName)
    ensures volumeName == [] ==> |r| == 6 && forall i :: 0 <= i < 6 ==> r[i] == "GOTEST"[i] as nat
  {
    if volumeName == [] then [0x47, 0x4F, 0x54, 0x45, 0x53, 0x54] else volumeName
  }

  /** The two records of a fresh catalog; `folder` and `thread` are their encoded bodies. */
  function RootRecords(volumeName: Name, binary: bool, folder: seq<nat>, thread: seq<nat>): seq<Rec> {
    [Rec(RankOf(Key(ROOT_PARENT, volumeName), binary), 8 + 2 * |volumeName|, Bytes(folder)),
     Rec(RankOf(ThreadKey(ROOT_FOLDER), binary), 8, Bytes(thread))]
  }

  /** Lengths of a folder's body and of a thread's without its name. */
  const FOLDER_LEN := 88
  const THREAD_LEN := 10

  /** The catalog's root leaf: the folder's record before the thread's, and both fit. */
  lemma CatalogRootLeaf(volumeName: Name, binary: bool, folder: seq<nat>, thread: seq<nat>)
    requires NameOk(volumeName) && |folder| == FOLDER_LEN && |thread| == THREAD_LEN + 2 * |volumeName|
    ensures Asc(RootRecords(volumeName, binary, folder, thread))
    ensures Fits(NODE_SIZE, RootRecords(volumeName, binary, folder, thread))
  {
    hide RankOf;
    LabelBeforeThread(volumeName, binary);
    var rs := RootRecords(volumeName, binary, folder, thread);
    assert rs[1..] == [rs[1]] && rs[1..][1..] == [];
    var n := |volumeName|;
    assert (8 + 2 * n) % 2 == 0;
    assert RecLen(rs[0]) == 8 + 2 * n + FOLDER_LEN && RecLen(rs[1]) == 8 + THREAD_LEN + 2 * n;
    assert SumLen(rs) == RecLen(rs[0]) + (RecLen(rs[1]) + SumLen([]));
  }

  /** The empty extents tree: a file of `blocks` blocks, and no records. */
  method WriteExtentsTree(blocks: nat, freeBlocks: nat) returns (ew: ExtentsWriter)
    requires 1 <= blocks <= CATALOG_RESERVE && blocks + freeBlocks < U32
    ensures fresh(ew) && fresh(ew.bw) && fresh(ew.bw.file) && ew.Valid() && ew.bw.Records() == []
    ensures ew.bw.file.forkBlocks == blocks
  {
    hide NodeFile.Valid, BTreeWriter.Valid;
    NodesAreBlocks(blocks);
    NodesAreBlocks(blocks + freeBlocks);
    var file := new NodeFile(NODE_SIZE, BLOCK_SIZE, blocks, freeBlocks);
    var bw := new BTreeWriter(file);
    ew := new ExtentsWriter(bw);
  }

  lemma NodesAreBlocks(blocks: nat)
    ensures NodesIn(blocks, BLOCK_SIZE, NODE_SIZE) == blocks
  {
  }

  /** The catalog tree: a file of `blocks` blocks, and a leaf with the root folder and its thread. */
  method WriteCatalogTree(blocks: nat, freeBlocks: nat, volumeName: Name, binary: bool, folder: seq<nat>,
      thread: seq<nat>)
    returns (cw: BTreeWriter)
    requires MIN_CATALOG <= blocks <= CATALOG_RESERVE && blocks + freeBlocks < U32
    requires NameOk(volumeName) && |folder| == FOLDER_LEN && |thread| == THREAD_LEN + 2 * |volumeName|
    ensures fresh(cw) && fresh(cw.file) && cw.Valid() && cw.Keyed(0) && cw.LeafCount() == 1
    ensures cw.Records() == RootRecords(volumeName, binary, folder, thread) && cw.file.forkBlocks == blocks
  {
    hide NodeFile.Valid, BTreeWriter.Valid, Fits, Asc;
    NodesAreBlocks(blocks);
    NodesAreBlocks(blocks + freeBlocks);
    var recs := RootRecords(volumeName, binary, folder, thread);
    CatalogRootLeaf(volumeName, binary, folder, thread);
    var file := new NodeFile.WithLeaf(NODE_SIZE, BLOCK_SIZE, blocks, freeBlocks, recs);
    cw := new BTreeWriter.OneLeaf(file, recs);
  }

  /** The two bodies read as the root folder and its thread. */
  ghost predicate Encodes(dec: Data -> Entry, volumeName: Name, counted: bool, folder: seq<nat>, thread: seq<nat>) {
    && dec(Bytes(folder)) == Folder(ROOT_FOLDER, 0, counted, 0)
    && dec(Bytes(thread)) == Thread(ROOT_PARENT, volumeName, true)
  }

  /** A fresh catalog's tree holds a fresh catalog's records. */
  lemma FreshHeld(v: Volume, cw: BTreeWriter, dec: Data -> Entry, volumeName: Name, folder: seq<nat>,
      thread: seq<nat>)
    requires Encodes(dec, volumeName, v.caseSensitive, folder, thread)
    requires NameOk(volumeName) && v.cat == FreshCat(volumeName, v.caseSensitive)
    requires cw.Valid() && cw.Records() == RootRecords(volumeName, v.caseSensitive, folder, thread)
    ensures HoldsCatalog(cw, v, dec)
  {
    hide RankOf, BTreeWriter.Valid, BTreeWriter.Records;
    var root, at := Key(ROOT_PARENT, volumeName), ThreadKey(ROOT_FOLDER);
    var recs := RootRecords(volumeName, v.caseSensitive, folder, thread);
    LabelBeforeThread(volumeName, v.caseSensitive);
    assert root in v.cat && at in v.cat && recs[0] in recs && recs[1] in recs;
  }

  /** The volume of an image of eight blocks or more, and where its special files lie. */
  method FormatVolume(totalBlocks: nat, name: Name, caseSensitive: bool) returns (b: Builder, v: Volume)
    requires 8 <= totalBlocks < U32 && name != []
    ensures b.totalBlocks == totalBlocks && b.LaidOut() && b.usedBlocks <= totalBlocks
    ensures b.extBlocks + (totalBlocks - b.usedBlocks) < U32 && b.catBlocks + (totalBlocks - b.usedBlocks) < U32
    ensures v.nextId == FIRST_USER_ID && fresh(v.alc.bitmap)
    ensures fresh(v) && v.Valid() && v.caseSensitive == caseSensitive && v.cat == FreshCat(name, caseSensitive)
    ensures v.overflow == []
  {
    hide Volume.Valid, FreshCat, BlocksOk, Blocks, Free;
    b := new Builder(totalBlocks);
    var laid := b.Layout();
    var alc := b.NewBitmap();
    b.WriteAllocationBitmap(alc);
    ghost var reserved := Reserved(totalBlocks, b.allocBlocks, b.extBlocks, b.catBlocks);
    var catRun := Extent(b.catStart, b.catBlocks);
    assert reserved[3] == catRun;
    v := new Volume(alc, caseSensitive, name, reserved, catRun);
    ReservedCount(totalBlocks, b.allocBlocks, b.extBlocks, b.catBlocks);
  }

  /** Formatting never refuses an image of eight blocks or more, and leaves a volume in order with the two trees that
      hold its records. */
  method Format(totalBlocks: nat, volumeName: Name, caseSensitive: bool, folder: seq<nat>, thread: seq<nat>,
      ghost dec: Data -> Entry)
    returns (ok: bool, v: Volume?, ew: ExtentsWriter?, cw: BTreeWriter?)
    requires totalBlocks < U32 && NameOk(volumeName)
    requires |folder| == FOLDER_LEN && |thread| == THREAD_LEN + 2 * |LabelOf(volumeName)|
    requires Encodes(dec, LabelOf(volumeName), caseSensitive, folder, thread)
    ensures ok <==> totalBlocks >= 8
    ensures ok ==>
      && v != null && fresh(v) && v.Valid() && v.caseSensitive == caseSensitive
      && v.cat == FreshCat(LabelOf(volumeName), caseSensitive)
    ensures ok ==> ew != null && HoldsOverflow(ew, v)
    ensures ok ==> cw != null && HoldsCatalog(cw, v, dec) && cw.Keyed(0) && cw.LeafCount() == 1
    ensures ok ==> cw.Records() == RootRecords(LabelOf(volumeName), caseSensitive, folder, thread)
  {
    hide Volume.Valid, BTreeWriter.Valid, ExtentsWriter.Valid, HoldsCatalog, RootRecords, FreshCat, BlocksOk;
    ok, v, ew, cw := totalBlocks >= 8, null, null, null;
    if !ok {
      return;
    }
    var name := LabelOf(volumeName);
    var b;
    b, v := FormatVolume(totalBlocks, name, caseSensitive);
    ew := WriteExtentsTree(b.extBlocks, totalBlocks - b.usedBlocks);
    cw := WriteCatalogTree(b.catBlocks, totalBlocks - b.usedBlocks, name, caseSensitive, folder, thread);
    FreshHeld(v, cw, dec, name, folder, thread);
  }
}
