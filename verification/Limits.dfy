/** Runs of the operations that end where their conditions say: an insertion below every key, the replacement of the
    smallest record, a deletion that strands a leaf, a split whose halves do not fit, the last CNID. */
module Limits {
  import opened Nodes
  import opened Rows
  import opened Edits
  import opened Steps
  import opened Search
  import opened Trees
  import opened Deletes
  import opened FixedSizes
  import opened ExactKeys
  import opened Inserts
  import opened Chains
  import opened Repairs
  import opened NodeFiles
  import opened Descents
  import opened BTreeWriters
  import opened ExtentsKeys
  import opened ExtentsWriters
  import opened Catalogs
  import opened Volumes
  import opened FolderTree
  import opened Mkfs

  // ---- falling back ----

  function SlotRec(k: int): Rec {
    Rec(k, 12, Slots(Pad([])))
  }

  /** Overflow records with the keys 1 to `n`. */
  function Numbered(n: nat): seq<Rec> {
    seq(n, i => SlotRec(i + 1))
  }

  lemma NumberedNext(n: nat)
    ensures Numbered(n + 1) == InsertSorted(Numbered(n), SlotRec(n + 1)) && !HasKey(Numbered(n), n + 1)
    ensures n > 0 ==> Numbered(n)[0].key == 1
  {
    LowerBoundAt(Numbered(n), n + 1, n);
  }

  lemma SlotRecOk(k: nat)
    requires k < U32
    ensures IsExtentRec(SlotRec(k)) && SizedRec(SlotRec(k), 1)
  {
  }

  lemma NumberedNone()
    ensures Numbered(0) == []
  {
  }

  lemma NumberedIs(n: nat)
    requires n < U32
    ensures AllExtentRecs(Numbered(n))
    ensures !HasSmaller(Numbered(n), 1) && !HasKey(Numbered(n), 0)
  {
    hide Pad, IsExtentRec;
    forall i | 0 <= i < n ensures IsExtentRec(Numbered(n)[i]) {
      SlotRecOk(i + 1);
    }
  }

  lemma NumberedLess(n: nat)
    requires n > 0
    ensures Without(Numbered(n), 1) == Numbered(n)[1..] && Numbered(n)[0].key == 1
  {
    hide Pad;
    WithoutAbsent(Numbered(n)[1..], 1);
    assert [] + Numbered(n)[1..] == Numbered(n)[1..];
  }

  /** The next record goes in behind the others. */
  method PutNext(bw: BTreeWriter, k: nat)
    requires bw.Valid() && bw.Keyed(0) && bw.Packed(bw.h.root, 0) && bw.Records() == Numbered(k)
    requires k + 1 < U32 && bw.file.freeNodes > MAX_DEPTH
    modifies bw, bw.file
    ensures bw.Valid() && bw.Keyed(0) && bw.Packed(bw.h.root, 0) && bw.Records() == Numbered(k + 1)
    ensures bw.file.freeNodes + MAX_DEPTH + 1 >= old(bw.file.freeNodes)
  {
    hide BTreeWriter.Valid, BTreeWriter.Covers, BTreeWriter.Keyed, BTreeWriter.Packed, BTreeWriter.Records, Numbered,
      SizedRec, Pad, HasKey, InsertSorted, NodeFile.Valid;
    NumberedNext(k);
    SlotRecOk(k + 1);
    NextCovered(bw, k);
    var st := bw.Insert(SlotRec(k + 1));
  }

  /** Eight insertions in ascending order into an empty extents tree of 512-byte nodes, more than a leaf holds. */
  method EightRecords() returns (ew: ExtentsWriter)
    ensures fresh(ew) && fresh(ew.bw) && fresh(ew.bw.file) && ew.Valid() && ew.bw.file.nodeSize == 512
    ensures ew.bw.Records() == Numbered(8) && ew.bw.file.freeNodes > MAX_DEPTH
  {
    hide NodeFile.Valid, BTreeWriter.Valid, BTreeWriter.Keyed, BTreeWriter.Packed, BTreeWriter.Records, Numbered;
    var file := new NodeFile(512, 512, 2000, 0);
    var bw := new BTreeWriter(file);
    NumberedNone();
    for k := 0 to 8
      invariant bw.file == file && bw.Valid() && bw.Keyed(0) && bw.Packed(bw.h.root, 0)
      invariant bw.Records() == Numbered(k)
      invariant fresh(bw) && fresh(file) && file.freeNodes + 65 * k >= 1999
    {
      PutNext(bw, k);
    }
    NumberedIs(8);
    ew := new ExtentsWriter(bw);
  }

  lemma NextCovered(bw: BTreeWriter, k: nat)
    requires bw.Valid() && bw.Keyed(0) && bw.Packed(bw.h.root, 0) && bw.Records() == Numbered(k)
    ensures bw.Covers(k + 1) && |bw.rows| <= MAX_DEPTH
  {
    hide BTreeWriter.Valid, BTreeWriter.Covers, BTreeWriter.Keyed, BTreeWriter.Packed, SlotRec, BTreeWriter.Records;
    if bw.rows != [] {
      bw.ShallowEnough();
    }
    bw.AdmitsIsCovers(k + 1);
    NumberedNext(k);
    if k == 0 {
      EmptyOrFull(bw);
    }
  }

  /** A tree without records has no leaves. */
  lemma EmptyOrFull(bw: BTreeWriter)
    requires bw.Valid() && bw.Keyed(0) && bw.Records() == []
    ensures bw.rows == []
  {
    hide NodeFile.Valid, WF, Flat, HeaderOk, RootOk, LiveIs, Exact, Contents;
    if bw.rows != [] {
      LevelsAre(bw.file.nodes, bw.rows, 0);
      ZeroNotLive(bw.file.nodes, bw.rows, bw.file.live);
      SmallestKey(bw.file.nodes, bw.rows, bw.file.live, 0);
    }
  }

  /** An insertion below every key: the chain is right, the tree is not well formed. */
  method InsertBelowAll() returns (st: Status, ew: ExtentsWriter)
    ensures st == Status.Ok && !ew.bw.WellFormed() && ew.bw.Chain(InsertSorted(Numbered(8), SlotRec(0)))
  {
    hide ExtentsWriter.Valid, BTreeWriter.Valid, BTreeWriter.Covers, BTreeWriter.Records, Numbered, Pad, HasKey,
      InsertSorted;
    ew := EightRecords();
    NumberedIs(8);
    SlotRecOk(0);
    ZeroNotCovered(ew);
    ew.ValidParts();
    ew.StockedIs();
    ew.DepthBound();
    st := ew.bw.Insert(SlotRec(0));
  }

  lemma ZeroNotCovered(ew: ExtentsWriter)
    requires ew.Valid() && ew.bw.file.nodeSize == 512 && ew.bw.Records() == Numbered(8)
    ensures ew.bw.Valid() && !ew.bw.Covers(0)
  {
    hide BTreeWriter.Valid, BTreeWriter.Covers, BTreeWriter.Records, BTreeWriter.Keyed, BTreeWriter.OneLeafWithout,
      BTreeWriter.LeafCount, Numbered, Pad;
    OneNotTaken(ew);
    ew.TakesIs(1);
    OneLeafFirst(ew.bw, 1);
    ew.bw.OneRow();
    ew.bw.AdmitsIsCovers(0);
    NumberedLess(8);
  }

  lemma OneLeafFirst(bw: BTreeWriter, p: int)
    requires !bw.OneLeafWithout(p)
    ensures bw.LeafCount() > 1
  {
  }

  /** Eight records do not fit a leaf, nor do seven. */
  lemma OneNotTaken(ew: ExtentsWriter)
    requires ew.Valid() && ew.bw.file.nodeSize == 512 && ew.bw.Records() == Numbered(8)
    ensures !ew.Takes(1)
  {
    hide ExtentsWriter.Valid, BTreeWriter.Records, ExtentsWriter.Takes;
    NumberedIs(8);
    NumberedLess(8);
    ew.ManyNotTaken(1);
  }

  /** The smallest record replaced by itself: the chain is as before, the tree is not well formed. */
  method ReplaceSmallest() returns (st: Status, ew: ExtentsWriter)
    ensures st == Status.Ok && !ew.bw.WellFormed() && ew.bw.Chain(Replaced(Numbered(8), SlotRec(1)))
  {
    hide ExtentsWriter.Valid, ExtentsWriter.Takes, BTreeWriter.Records, Numbered, Pad, Replaced;
    ew := EightRecords();
    SlotRecOk(1);
    OneNotTaken(ew);
    st := ew.InsertOrReplace(SlotRec(1));
  }

  // ---- stranding ----

  /** Records of a size that makes two of them too much for a leaf of 512 bytes, and one enough not to underflow. */
  function LongRec(k: int): Rec {
    Rec(k, 238, Bytes(seq(88, _ => 0)))
  }

  function LongIndex(k: int, child: nat): Rec {
    IndexRec(LongRec(k), child)
  }

  lemma LongSizes(k: int, j: int, a: nat, b: nat)
    ensures Fits(512, [LongRec(k)]) && !(UsedBytes([LongRec(k)]) < 512 / 2) && !Fits(512, [LongRec(k), LongRec(j)])
    ensures Fits(512, [LongIndex(k, a)]) && !(UsedBytes([LongIndex(k, a)]) < 512 / 2)
    ensures Fits(512, [LongIndex(k, a), LongIndex(j, b)])
  {
    OneLen(LongRec(k));
    TwoLen(LongRec(k), LongRec(j));
    OneLen(LongIndex(k, a));
    TwoLen(LongIndex(k, a), LongIndex(j, b));
  }

  lemma OneLen(r: Rec)
    ensures SumLen([r]) == RecLen(r)
  {
    hide RecLen;
    assert [r][1..] == [];
  }

  lemma TwoLen(r: Rec, q: Rec)
    ensures SumLen([r, q]) == RecLen(r) + RecLen(q)
  {
    hide RecLen;
    assert [r, q][1..] == [q];
    OneLen(q);
  }

  lemma RowOfTwo(nodes: Img, c: seq<Rec>, up: seq<nat>, down: seq<nat>, f: seq<Rec>)
    requires f == Flat(nodes, up) && |f| == 2 && down == [Kid(f[0]), Kid(f[1])]
    requires Recs(nodes, down[0]) != [] && Recs(nodes, down[0])[0].key == f[0].key
    requires Recs(nodes, down[1]) != [] && Recs(nodes, down[1])[0].key == f[1].key
    ensures IndexRow(nodes, c, up, down, 0)
  {
  }

  lemma OneNode(nodes: Img, a: nat, h: nat)
    requires NodeAt(nodes, a, h) && nodes[a].flink == 0 && nodes[a].blink == 0
    ensures Level(nodes, [a], h)
  {
    assert LinksAt(nodes, [a], 0);
  }

  lemma TwoNodes(nodes: Img, a: nat, b: nat, h: nat)
    requires a != b && NodeAt(nodes, a, h) && NodeAt(nodes, b, h)
    requires nodes[a].flink == b && nodes[a].blink == 0 && nodes[b].flink == 0 && nodes[b].blink == a
    ensures Level(nodes, [a, b], h)
  {
    assert LinksAt(nodes, [a, b], 0) && LinksAt(nodes, [a, b], 1);
  }

  /** The five nodes, told apart. */
  predicate Five(a: nat, b: nat, c: nat, d: nat, e: nat) {
    a != 0 && b != 0 && c != 0 && d != 0 && e != 0
    && a != b && a != c && a != d && a != e && b != c && b != d && b != e && c != d && c != e && d != e
  }

  /** A tree of three levels: leaves `a` and `b` of one record, index nodes `c` and `d` of one child, the root `e`. */
  predicate ThreeLevels(nodes: Img, a: nat, b: nat, c: nat, d: nat, e: nat) {
    && a in nodes && nodes[a] == Node(Leaf, 1, b, 0, [LongRec(5)])
    && b in nodes && nodes[b] == Node(Leaf, 1, 0, a, [LongRec(9)])
    && c in nodes && nodes[c] == Node(Index, 2, d, 0, [LongIndex(5, a)])
    && d in nodes && nodes[d] == Node(Index, 2, 0, c, [LongIndex(9, b)])
    && e in nodes && nodes[e] == Node(Index, 3, 0, 0, [LongIndex(5, c), LongIndex(9, d)])
  }

  function ThreeRows(a: nat, b: nat, c: nat, d: nat, e: nat): seq<seq<nat>> {
    [[e], [c, d], [a, b]]
  }

  lemma ThreeLevelsLinked(nodes: Img, a: nat, b: nat, c: nat, d: nat, e: nat)
    requires Five(a, b, c, d, e) && ThreeLevels(nodes, a, b, c, d, e)
    ensures Levels(nodes, ThreeRows(a, b, c, d, e))
  {
    hide LongRec, LongIndex;
    LongRecs();
    OneNode(nodes, e, 3);
    TwoNodes(nodes, c, d, 2);
    TwoNodes(nodes, a, b, 1);
    hide Level;
  }

  lemma ThreeLevelsFlat(nodes: Img, a: nat, b: nat, c: nat, d: nat, e: nat)
    requires ThreeLevels(nodes, a, b, c, d, e)
    ensures Flat(nodes, [e]) == [LongIndex(5, c), LongIndex(9, d)]
    ensures Flat(nodes, [c, d]) == [LongIndex(5, a), LongIndex(9, b)]
    ensures Flat(nodes, [a, b]) == [LongRec(5), LongRec(9)]
  {
    hide LongRec, LongIndex, Flat;
    FlatOne(nodes, e);
    FlatTwo(nodes, c, d);
    FlatTwo(nodes, a, b);
    assert [LongIndex(5, a)] + [LongIndex(9, b)] == [LongIndex(5, a), LongIndex(9, b)];
    assert [LongRec(5)] + [LongRec(9)] == [LongRec(5), LongRec(9)];
  }

  lemma ThreeLevelsIndexed(nodes: Img, a: nat, b: nat, c: nat, d: nat, e: nat)
    requires ThreeLevels(nodes, a, b, c, d, e)
    ensures var rows := ThreeRows(a, b, c, d, e); Indexed(nodes, rows, rows, 0)
  {
    hide LongRec, LongIndex, Flat, IndexRow;
    LongRecs();
    ThreeLevelsFlat(nodes, a, b, c, d, e);
    var recs := Contents(nodes, ThreeRows(a, b, c, d, e));
    RowOfTwo(nodes, recs, [e], [c, d], [LongIndex(5, c), LongIndex(9, d)]);
    RowOfTwo(nodes, recs, [c, d], [a, b], [LongIndex(5, a), LongIndex(9, b)]);
  }

  lemma ThreeLevelsTree(nodes: Img, a: nat, b: nat, c: nat, d: nat, e: nat)
    requires Five(a, b, c, d, e) && ThreeLevels(nodes, a, b, c, d, e)
    ensures var rows := ThreeRows(a, b, c, d, e);
      && TreeOk(nodes, rows, TreeHeader(e, a, b, 3)) && LiveIs(rows, {a, b, c, d, e})
      && Contents(nodes, rows) == [LongRec(5), LongRec(9)] && Stranding(nodes, rows, 5)
  {
    hide LongRec, LongIndex, Flat, Levels, Indexed, LiveIs, Five;
    var rows := ThreeRows(a, b, c, d, e);
    LongRecs();
    ThreeLevelsLinked(nodes, a, b, c, d, e);
    ThreeLevelsFlat(nodes, a, b, c, d, e);
    ThreeLevelsIndexed(nodes, a, b, c, d, e);
    assert rows[|rows| - 2] == [c, d] && StrandedAt(nodes, [c, d][0], 5);
    FiveLive(a, b, c, d, e);
  }

  lemma LongRecs()
    ensures LongRec(5).key == 5 && LongRec(9).key == 9
    ensures forall n: nat :: LongIndex(5, n) == Rec(5, 238, Child(n)) && LongIndex(9, n) == Rec(9, 238, Child(n))
  {
  }

  lemma FiveLive(a: nat, b: nat, c: nat, d: nat, e: nat)
    requires Five(a, b, c, d, e)
    ensures LiveIs(ThreeRows(a, b, c, d, e), {a, b, c, d, e})
  {
    var rows := [[e], [c, d], [a, b]];
    assert e in rows[0] && c in rows[1] && d in rows[1] && a in rows[2] && b in rows[2];
  }

  /** Five nodes of an empty file. */
  method FiveNodes(file: NodeFile) returns (a: nat, b: nat, c: nat, d: nat, e: nat)
    requires file.Valid() && file.live == {} && file.freeNodes >= 5
    modifies file
    ensures file.Valid() && file.live == {a, b, c, d, e} && Five(a, b, c, d, e)
  {
    hide NodeFile.Valid;
    var st;
    ghost var recorded;
    st, a, recorded := file.AllocNode();
    st, b, recorded := file.AllocNode();
    st, c, recorded := file.AllocNode();
    st, d, recorded := file.AllocNode();
    st, e, recorded := file.AllocNode();
  }

  method StoreFive(file: NodeFile, a: nat, b: nat, c: nat, d: nat, e: nat)
    requires file.Valid() && file.live == {a, b, c, d, e} && Five(a, b, c, d, e) && file.nodeSize == 512
    modifies file`nodes
    ensures file.Valid() && ThreeLevels(file.nodes, a, b, c, d, e)
  {
    hide NodeFile.Valid, LongRec, LongIndex, Fits, Five;
    LongSizes(5, 9, a, b);
    LongSizes(9, 5, b, a);
    LongSizes(5, 9, c, d);
    FiveApart(file, a, b, c, d, e);
    var st := file.StoreNode(a, Node(Leaf, 1, b, 0, [LongRec(5)]));
    st := file.StoreNode(b, Node(Leaf, 1, 0, a, [LongRec(9)]));
    st := file.StoreNode(c, Node(Index, 2, d, 0, [LongIndex(5, a)]));
    st := file.StoreNode(d, Node(Index, 2, 0, c, [LongIndex(9, b)]));
    st := file.StoreNode(e, Node(Index, 3, 0, 0, [LongIndex(5, c), LongIndex(9, d)]));
  }

  /** The tree of `ThreeLevels` in a file of its own: well formed, every record fits, and no node underflows. */
  method Stranded() returns (bw: BTreeWriter)
    ensures fresh(bw) && fresh(bw.file) && bw.Valid() && bw.Strands(5) && |bw.rows| == 3
    ensures bw.Records() == [LongRec(5), LongRec(9)]
  {
    hide NodeFile.Valid, LongRec, LongIndex, Fits, Flat, TreeOk, LiveIs, Stranding, Five, ThreeLevels, Contents;
    var file := new NodeFile(512, 512, 2000, 0);
    bw := new BTreeWriter(file);
    var a, b, c, d, e := FiveNodes(file);
    StoreFive(file, a, b, c, d, e);
    ThreeLevelsTree(file.nodes, a, b, c, d, e);
    bw.h, bw.leafRecords, bw.rows := TreeHeader(e, a, b, 3), 2, ThreeRows(a, b, c, d, e);
  }

  lemma FiveApart(file: NodeFile, a: nat, b: nat, c: nat, d: nat, e: nat)
    requires file.Valid() && file.live == {a, b, c, d, e} && Five(a, b, c, d, e)
    ensures a in file.nodes && b in file.nodes && c in file.nodes && d in file.nodes && e in file.nodes
    ensures a != b && a != c && a != d && a != e && b != c && b != d && b != e && c != d && c != e && d != e
  {
    file.SizeOk();
  }

  /** Deleting key 5 leaves an empty leaf. */
  method DeleteStranded() returns (st: Status, bw: BTreeWriter)
    ensures st == Status.Ok && bw.Records() == [LongRec(9)] && !bw.WellFormed()
  {
    hide BTreeWriter.Valid, BTreeWriter.Strands, BTreeWriter.Records, LongRec;
    bw := Stranded();
    LongRecs();
    assert [LongRec(5), LongRec(9)][1..] == [LongRec(9)] && [LongRec(9)][1..] == [];
    st := bw.DeleteByKey(5);
  }

  // ---- a split by count ----

  /** A record as a catalog holds them: a thread's key and body, or a long file name's. */
  function ThreadSized(k: int): Rec {
    Rec(k, 8, Bytes(seq(12, _ => 0)))
  }

  function FileSized(k: int): Rec {
    Rec(k, 518, Bytes(seq(248, _ => 0)))
  }

  function Mixed(files: nat): seq<Rec> {
    seq(5 + files, i requires 0 <= i => if i < 5 then ThreadSized(i) else FileSized(i))
  }

  /** Five small records and five large ones fit a node of 4096 bytes; with a sixth large one the upper half does not,
      so the split fails though the record itself is small enough for any node. */
  lemma HalvesTooBig()
    ensures Fits(4096, Mixed(5)) && Asc(Mixed(5)) && Mixed(6) == InsertSorted(Mixed(5), FileSized(10))
    ensures !Fits(4096, Mixed(6)) && !Fits(4096, Mixed(6)[|Mixed(6)| / 2..])
    ensures Fits(4096, [FileSized(10)])
  {
    hide Mixed, FileSized, SumLen, InsertSorted, Asc;
    MixedLen(5);
    MixedLen(6);
    MixedNext();
    OneLen(FileSized(10));
    assert RecLen(FileSized(10)) == 766 by { FileLen(10); }
  }

  lemma FileLen(k: int)
    ensures RecLen(FileSized(k)) == 766 && RecLen(ThreadSized(k)) == 20
  {
  }

  lemma MixedNext()
    ensures Asc(Mixed(5)) && Mixed(6) == InsertSorted(Mixed(5), FileSized(10))
  {
    hide Mixed, FileSized, InsertSorted;
    MixedKeys();
    MixedMore();
    SizedKeys();
    PutLast(Mixed(5), FileSized(10));
  }

  /** A record above all others goes last. */
  lemma PutLast(rs: seq<Rec>, r: Rec)
    requires AllBelow(rs, r.key)
    ensures InsertSorted(rs, r) == rs + [r]
  {
    LowerBoundAt(rs, r.key, |rs|);
  }

  lemma MixedKeys()
    ensures |Mixed(5)| == 10 && forall i :: 0 <= i < 10 ==> Mixed(5)[i].key == i
  {
    hide FileSized, ThreadSized;
    SizedKeys();
  }

  lemma MixedMore()
    ensures Mixed(6) == Mixed(5) + [FileSized(10)]
  {
    hide FileSized, ThreadSized;
  }

  lemma SizedKeys()
    ensures forall k: int {:trigger FileSized(k)} {:trigger ThreadSized(k)} ::
      FileSized(k).key == k && ThreadSized(k).key == k
  {
  }

  lemma MixedLen(n: nat)
    ensures |Mixed(n)| == 5 + n
    ensures SumLen(Mixed(n)) == 5 * 20 + n * 766 && SumLen(Mixed(n)[5..]) == n * 766
  {
    hide FileSized, ThreadSized, SumLen, RecLen;
    var small, large := Mixed(n)[..5], Mixed(n)[5..];
    assert Mixed(n) == small + large;
    SumLenCat(small, large);
    forall i | 0 <= i < 5 + n ensures RecLen(Mixed(n)[i]) == if i < 5 then 20 else 766 {
      FileLen(i);
    }
    SameLen(small, 20);
    SameLen(large, 766);
  }

  lemma {:induction false} SameLen(rs: seq<Rec>, len: nat)
    requires forall i :: 0 <= i < |rs| ==> RecLen(rs[i]) == len
    ensures SumLen(rs) == |rs| * len
  {
    hide RecLen;
    if rs != [] {
      assert forall i :: 0 <= i < |rs[1..]| ==> rs[1..][i] == rs[i + 1];
      SameLen(rs[1..], len);
    }
  }

  // ---- the last CNID ----

  lemma AnyCounter(cat: Cat, next: nat, files: nat, folders: nat)
    requires CatalogOk(cat, next, files, folders)
    ensures CatalogOk(cat, U32 - 1, files, folders)
  {
    hide Linked, Rooted, Counted, Files, Folders;
  }

  /** A volume in order whose next CNID is the largest there is: the folder made with it leaves the counter at 0, and
      the invariant is gone. */
  method LastFolder(v: Volume, name: Name) returns (st: Outcome)
    requires v.Valid() && name != []
    modifies v, v.alc.bitmap
    ensures st == Outcome.Done ==> !v.Valid() && v.nextId == 0
  {
    hide Volume.Valid, Volume.Sound, Volume.SpaceOk, CatalogOk, FilesOk, Created, Target;
    v.ValidIs();
    AnyCounter(v.cat, v.nextId, v.fileCount, v.folderCount);
    v.nextId := U32 - 1;
    v.ValidIs();
    st := v.MkDir([name]);
  }

  // ---- a folder in itself ----

  lemma IntoItself(cat: Cat, parts: seq<Name>, name: Name)
    requires Resolves(cat, parts) && Target(cat, parts) in cat && cat[Target(cat, parts)].Folder?
    ensures var k, to := Target(cat, parts), Target(cat, parts + [name]);
      to == Key(Id(cat[k]), name) && Under(cat, Id(cat[k]), to.parent)
  {
    var last := |parts| - 1;
    assert parts == parts[..last] + [parts[last]] && (parts + [name])[..|parts|] == parts;
    WalkCat(cat, ROOT_FOLDER, parts[..last], [parts[last]]);
    OneStep(cat, Target(cat, parts));
    var c := Id(cat[Target(cat, parts)]);
    assert Passes(cat, c, c, 0);
  }

  /** A folder renamed to a name inside itself: not refused, and it then hangs from nothing. */
  method MoveIntoItself(v: Volume, parts: seq<Name>, name: Name) returns (st: Outcome)
    requires v.Valid() && Treelike(v.cat) && name != [] && forall i :: 0 <= i < |parts| ==> parts[i] != []
    requires CanRename(v.cat, parts, parts + [name]) && v.cat[Target(v.cat, parts)].Folder?
    modifies v, v.alc.bitmap
    ensures !Refused(st) && (st == Outcome.Done ==> !Treelike(v.cat))
  {
    hide Volume.Valid, Volume.Sound, Treelike, Renamed, Target, Walk, Under;
    ghost var cat0 := v.cat;
    var all := parts + [name];
    MoveReady(v, parts, name);
    st := v.Rename(parts, all);
    if st == Outcome.Done {
      RenamedTree(cat0, v.cat, old(v.nextId), Target(cat0, parts), Target(cat0, all));
    }
  }

  /** On a fresh volume: a folder made, and moved into itself. Nothing refuses it, and where both steps are done the
      folders are no tree. */
  method FreshIntoItself(totalBlocks: nat, volumeName: Name, outer: Name, inner: Name)
    returns (st: Outcome, v: Volume)
    requires 8 <= totalBlocks < U32 && volumeName != [] && outer != [] && inner != []
    ensures !Refused(st) && (st == Outcome.Done ==> !Treelike(v.cat))
  {
    hide Volume.Valid, Volume.Sound, Treelike, Created, Target, Walk, CanMkDir, CanRename, FreshCat;
    var b;
    b, v := FormatVolume(totalBlocks, volumeName, false);
    FreshTree(volumeName);
    OuterNew(volumeName, outer);
    st := v.MkDir([outer]);
    if st == Outcome.Done {
      OuterMade(volumeName, outer, inner, v.cat);
      st := MoveIntoItself(v, [outer], inner);
    }
  }

  lemma FreshTree(volumeName: Name)
    requires volumeName != []
    ensures Treelike(FreshCat(volumeName, false))
  {
    var cat := FreshCat(volumeName, false);
    forall c: nat | HasThread(cat, c) ensures Attached(cat, c) {
      assert Climbs(cat, ROOT_FOLDER, 0);
    }
  }

  lemma OuterNew(volumeName: Name, outer: Name)
    requires volumeName != [] && outer != []
    ensures CanMkDir(FreshCat(volumeName, false), [outer])
    ensures Target(FreshCat(volumeName, false), [outer]) == Key(ROOT_FOLDER, outer)
  {
    assert [outer][..0] == [];
  }

  lemma OuterMade(volumeName: Name, outer: Name, inner: Name, cat: Cat)
    requires volumeName != [] && outer != [] && inner != []
    requires Created(FreshCat(volumeName, false), cat, Key(ROOT_FOLDER, outer), Folder(FIRST_USER_ID, 0, false, 0), 1)
    ensures Treelike(cat) && CanRename(cat, [outer], [outer] + [inner])
    ensures cat[Target(cat, [outer])].Folder?
  {
    var cat0, k, e := FreshCat(volumeName, false), Key(ROOT_FOLDER, outer), Folder(FIRST_USER_ID, 0, false, 0);
    FreshTree(volumeName);
    CreatedTree(cat0, cat, k, e, 1);
    OuterThere(volumeName, outer, inner, cat);
    assert [outer][..0] == [] && ([outer] + [inner])[..1] == [outer];
    OneStep(cat, k);
  }

  lemma OuterThere(volumeName: Name, outer: Name, inner: Name, cat: Cat)
    requires volumeName != [] && outer != [] && inner != []
    requires Created(FreshCat(volumeName, false), cat, Key(ROOT_FOLDER, outer), Folder(FIRST_USER_ID, 0, false, 0), 1)
    ensures Key(ROOT_FOLDER, outer) in cat && cat[Key(ROOT_FOLDER, outer)] == Folder(FIRST_USER_ID, 0, false, 0)
    ensures Key(FIRST_USER_ID, inner) !in cat
  {
  }

  lemma MoveReady(v: Volume, parts: seq<Name>, name: Name)
    requires v.Valid() && CanRename(v.cat, parts, parts + [name]) && v.cat[Target(v.cat, parts)].Folder? && name != []
    ensures var k, to := Target(v.cat, parts), Target(v.cat, parts + [name]);
      && Linked(v.cat) && Rooted(v.cat) && IdsBelow(v.cat, v.nextId) && IsItem(v.cat, k)
      && FolderAt(v.cat, k.parent) && FolderAt(v.cat, to.parent) && to.name != []
      && Under(v.cat, Id(v.cat[k]), to.parent)
  {
    hide Linked, Rooted, IdsBelow, Counted, Files, Folders, Volume.SpaceOk, FilesOk, Under, Walk;
    IntoItself(v.cat, parts, name);
    FolderItem(v.cat, Target(v.cat, parts));
    WalkFolder(v.cat, ROOT_FOLDER, parts[..|parts| - 1]);
    RootThere(v.cat);
  }
}
