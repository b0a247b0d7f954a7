/** The extents-overflow tree: writing, replacing, finding and deleting the continuation records of forks. */
module ExtentsWriters {
  import opened Nodes
  import opened Rows
  import opened Edits
  import opened Steps
  import opened Search
  import opened Trees
  import opened Deletes
  import opened FixedSizes
  import opened ExactKeys
  import opened NodePool
  import opened NodeFiles
  import opened Descents
  import opened BTreeWriters
  import opened ExtentsKeys
  import opened Chains
  import opened Fallback
  import opened Inserts
  import opened Repairs

  class ExtentsWriter {
    const bw: BTreeWriter

    ghost predicate Valid()
      reads this, bw, bw.file
    {
      bw.Valid() && bw.Stocked(bw.h.root, 0) && AllExtentRecs(bw.Records())
    }

    constructor (bw: BTreeWriter)
      requires bw.Valid() && bw.Stocked(bw.h.root, 0) && AllExtentRecs(bw.Records())
      ensures this.bw == bw && Valid()
    {
      this.bw := bw;
    }

    // ---- writing ----

    method DeleteKey(k: int) returns (st: Status)
      requires Valid()
      modifies bw, bw.file
      ensures st == Ok && Valid() && bw.Records() == Without(old(bw.Records()), k)
      ensures bw.LeafCount() <= 1 <==> old(bw.OneLeafWithout(k))
      ensures bw.SweptFrom(old(bw.file.nodes), old(bw.file.live), old(bw.file.freeNodes))
    {
      hide *;
      ghost var was := bw.Records();
      ValidParts();
      st := bw.DeleteByKey(k);
      ExtentRecsWithout(was, k);
      ValidAgain();
    }

    lemma ValidParts()
      requires Valid()
      ensures bw.Valid() && bw.Stocked(bw.h.root, 0) && AllExtentRecs(bw.Records())
    {
    }

    lemma ValidAgain()
      requires bw.Valid() && bw.Stocked(bw.h.root, 0) && AllExtentRecs(bw.Records())
      ensures Valid()
    {
    }

    /** Whether a record with key `k` can go in, in place of the one with its key if there is one, and leave the tree
        well formed: some stored key is smaller, or the tree is at most one leaf without the old record. */
    ghost predicate Takes(k: int)
      reads bw, bw.file
    {
      HasSmaller(bw.Records(), k) || bw.OneLeafWithout(k)
    }

    /** Inserts a record in place of the one with its key, if any. */
    method InsertOrReplace(rec: Rec) returns (st: Status)
      requires Valid() && IsExtentRec(rec)
      modifies bw, bw.file
      ensures st == Ok || st == NoSpace
      ensures old(bw.file.freeNodes) > MAX_DEPTH ==>
        st == Ok && bw.file.freeNodes + MAX_DEPTH + 1 >= old(bw.file.freeNodes)
      ensures st == Ok && old(Takes(rec.key)) ==> Valid() && bw.Records() == Replaced(old(bw.Records()), rec)
      ensures st == Ok ==> (bw.WellFormed() <==> old(Takes(rec.key))) && bw.Chain(Replaced(old(bw.Records()), rec))
    {
      hide *;
      ghost var was, takes := bw.Records(), Takes(rec.key);
      TakesIs(rec.key);
      st := DeleteKey(rec.key);
      ValidParts();
      KeyGone(was, rec.key);
      CoversAfter(was, rec.key);
      ExtentRecSized(rec);
      ExtentRecsInsert(bw.Records(), rec);
      ReplacedIs(was, rec);
      StockedIs();
      DepthBound();
      SweptFrees(old(bw.file.nodes), old(bw.file.live), old(bw.file.freeNodes));
      st := bw.Insert(rec);
      StockedIs();
      if st == Ok && takes {
        ValidAgain();
      }
    }

    lemma DepthBound()
      requires Valid()
      ensures |bw.rows| <= MAX_DEPTH
    {
      hide BTreeWriter.Valid, BTreeWriter.Packed, BTreeWriter.Keyed, BTreeWriter.Records;
      if bw.rows != [] {
        bw.ShallowEnough();
      }
    }

    /** A deletion leaves no fewer free nodes. */
    lemma SweptFrees(nodes: Img, live: set<nat>, free: nat)
      requires bw.SweptFrom(nodes, live, free)
      ensures bw.file.freeNodes >= free
    {
      NoLarger(bw.file.live, live);
    }

    lemma StockedIs()
      ensures bw.Stocked(bw.h.root, 0) <==> bw.Packed(bw.h.root, 0) && bw.Keyed(0)
    {
    }

    lemma TakesIs(k: int)
      ensures Takes(k) <==> HasSmaller(bw.Records(), k) || bw.OneLeafWithout(k)
    {
    }

    /** Once key `k` is gone, the descent for it does not fall back exactly if a smaller key was stored or one leaf is
        left. */
    lemma CoversAfter(was: seq<Rec>, k: int)
      requires Valid() && bw.Records() == Without(was, k)
      ensures bw.Covers(k) <==> HasSmaller(was, k) || bw.LeafCount() <= 1
    {
      hide Without, NodeFile.Valid, Contents, TreeOk, LiveIs, Filled, Exact, LeavesOf, HasSmaller, HasKey, Covered,
        AllExtentRecs, Asc;
      bw.RecordsAsc();
      bw.OneRow();
      bw.AdmitsIsCovers(k);
      KeyGone(was, k);
      SmallerStays(was, k);
      FirstIsSmaller(bw.Records(), k);
    }

    /** Too few records for two leaves: the tree takes any key. */
    lemma FewTaken(k: int)
      requires Valid() && |bw.Records()| < 2 * MinRecs(bw.file.nodeSize, 1)
      ensures Takes(k)
    {
      hide NodeFile.Valid, WF, Flat, Filled, Exact, HeaderOk, RootOk, AllFull, Contents, HasSmaller, MinRecs;
      bw.OneRow();
      if |bw.rows| > 1 {
        ManyRecords(bw.file.nodes, bw.rows, bw.file.live, bw.file.nodeSize, bw.h);
      }
    }

    /** More records than a leaf holds, and none of them smaller: the tree does not take the key. */
    lemma ManyNotTaken(k: int)
      requires Valid() && !HasSmaller(bw.Records(), k) && |Without(bw.Records(), k)| > Cap(bw.file.nodeSize, 1)
      ensures !Takes(k)
    {
      hide NodeFile.Valid, TreeOk, Filled, Exact, Contents, HasSmaller, Without, Cap, IsExtentRec, SizedRec, Fits,
        LeavesOf;
      ExtentRecsWithout(bw.Records(), k);
      ExtentRecsSized(Without(bw.Records(), k));
      FitsIsCap(bw.file.nodeSize, Without(bw.Records(), k), 1);
      bw.NeverOneLeaf(k);
    }

    /** Writes a list of extents from fork block `startBlock` on, in groups of eight. The first group's key decides:
        every later group finds the first one's record below its own. */
    method InsertExtentRecords(f: Fork, startBlock: nat, exts: seq<Extent>) returns (st: Status)
      requires Valid() && ForkOk(f) && Nonempty(exts) && startBlock + Sum(exts) < U32
      requires |exts| > INLINE ==> Takes(FirstKey(f, startBlock))
      modifies bw, bw.file
      ensures exts == [] ==> st == Ok && Valid() && bw.Records() == old(bw.Records())
      ensures exts != [] && st == Ok ==> (bw.WellFormed() <==> old(Takes(FirstKey(f, startBlock))))
      ensures st == Ok || st == NoSpace
      ensures old(bw.file.freeNodes) >= (MAX_DEPTH + 1) * |exts| ==> st == Ok
      ensures st == Ok && old(Takes(FirstKey(f, startBlock))) ==>
        Valid() && bw.Records() == ReplaceAll(old(bw.Records()), Groups(f, startBlock, exts))
    {
      hide Valid, Takes, BTreeWriter.Records, BTreeWriter.WellFormed, Groups, ReplaceAll, Replaced, GroupRec,
        FirstKey, Sum, Nonempty, HasKey, HasSmaller, IsExtentRec, ForkOk, SpillAt;
      var block: nat, i: nat := startBlock, 0;
      ghost var was, first := bw.Records(), FirstKey(f, startBlock);
      ghost var takes := Takes(first);
      SpillStarts(was, f, startBlock, exts);
      while i < |exts|
        invariant i <= |exts| && block < U32
        invariant old(bw.file.freeNodes) >= (MAX_DEPTH + 1) * |exts| ==>
          bw.file.freeNodes + (MAX_DEPTH + 1) * i >= old(bw.file.freeNodes)
        invariant i == 0 ==> Valid() && bw.Records() == was && Takes(first) == takes
        invariant i == 0 || takes ==> Valid() && SpillAt(was, bw.Records(), f, startBlock, exts, i, block)
        invariant i > 0 && !takes ==> i == |exts| && !bw.WellFormed()
      {
        var end := if i + INLINE > |exts| then |exts| else i + INLINE;
        var group := exts[i..end];
        SpillReady(was, bw.Records(), f, startBlock, exts, i, block, end);
        TakesIs(FirstKey(f, block));
        ghost var recs := bw.Records();
        st := InsertOrReplace(GroupRec(f, block, group));
        if st != Ok {
          return;
        }
        SpillNext(was, recs, f, startBlock, exts, i, block, end);
        block := AddCounts(block, group);
        i := end;
      }
      if exts == [] || takes {
        SpillEnds(was, bw.Records(), f, startBlock, exts, block);
        ValidParts();
        bw.ValidIsWellFormed();
      }
      st := Ok;
    }

    /** `block += e.BlockCount` over a group, in 32 bits. */
    static method AddCounts(start: nat, group: seq<Extent>) returns (block: nat)
      requires start < U32
      ensures block < U32 && block == (start + Sum(group)) % U32
    {
      block := start;
      for i := 0 to |group|
        invariant block < U32 && block == (start + Sum(group[..i])) % U32
      {
        assert group[..i + 1] == group[..i] + [group[i]];
        SumCat(group[..i], [group[i]]);
        assert [group[i]][1..] == [];
        block := (block + group[i].count) % U32;
      }
      assert group[..|group|] == group;
    }

    // ---- reading ----

    /** One leaf of a search for the fork's runs from block `start` on; `done` when a record of a later file turned
        up. */
    static method ScanLeaf(recs: seq<Rec>, f: Fork, start: nat) returns (done: bool, runs: seq<Extent>)
      requires AllExtentRecs(recs) && ForkOk(f)
      ensures runs == RunsFrom(recs[..Seen(recs, f)], f, start)
      ensures done <==> Seen(recs, f) < |recs|
    {
      runs := [];
      var i := 0;
      SeenFrom(recs, f, 0);
      while i < |recs|
        invariant 0 <= i <= |recs| && runs == RunsFrom(recs[..i], f, start)
        invariant i <= Seen(recs, f)
      {
        var r := recs[i];
        assert IsExtentRec(r);
        var k := KeyOf(r.key);
        OfForkIsFields(r, f);
        RunsFromNext(recs, i, f, start);
        SeenFrom(recs, f, i);
        if k.fileID != f.fileID || k.forkType != f.forkType {
          if k.fileID > f.fileID {
            return true, runs;
          }
        } else if k.startBlock >= start {
          runs := runs + RunsOf(r);
        }
        i := i + 1;
      }
      assert recs[..|recs|] == recs;
      return false, runs;
    }

    /** The runs of a fork recorded from block `start` on: a descent to the first leaf that can hold them, then
        the leaf chain until a later file. */
    method OverflowExtents(f: Fork, start: nat) returns (st: Status, out: seq<Extent>)
      requires Valid() && ForkOk(f) && start < U32
      ensures bw.LeafCount() <= NODE_CEILING ==> st == Ok && out == RunsFrom(bw.Records(), f, start)
    {
      hide Bits, Clear, PoolOk, NodesIn, WF, Flat, HeaderOk, RootOk, AllFull, Filled, Exact, Contents, PathOk,
        Followed, Fits, RunsFrom, Rank, ForkNumber, ForkOk, LiveIs, Whole, IsExtentRec, AllExtentRecs;
      out := [];
      var p := Rank(ExtentsKey(f.forkType, f.fileID, start));
      RootMapped(bw.file.nodes, bw.rows, bw.h);
      NoRecords(bw.file.nodes);
      RunsAbove([], f, start);
      if bw.h.root == 0 {
        return Ok, [];
      }
      bw.ShallowEnough();
      var path, ci;
      ghost var pos;
      st, path, ci, pos := bw.Descend(p);
      PathLengths(bw.file.nodes, bw.rows, path, ci, pos);
      var leaf := path[|path| - 1];
      ghost var s := bw.rows[|bw.rows| - 1];
      ghost var i: nat := pos[|path| - 1];
      LeafStart(bw.file.nodes, bw.rows, path, ci, pos, f, start);
      ghost var first := i;
      var maxNodes := MaxNodes(bw.file.totalNodes);
      assert bw.LeafCount() == |s|;
      ChainShort(bw.file.nodes, bw.rows, bw.file.live, bw.file.totalNodes) by { bw.NodesBelow(); }
      var steps: nat := 0;
      while leaf != 0
        invariant i <= |s| && (leaf != 0 ==> i < |s| && leaf == s[i])
        invariant leaf == 0 && bw.LeafCount() <= NODE_CEILING ==> i == |s|
        invariant out == RunsFrom(Flat(bw.file.nodes, s[..i]), f, start)
        invariant (leaf != 0 ==> steps < maxNodes) && steps == i - first
        invariant st == Ok
        decreases maxNodes - steps
      {
        NextLeaf(bw.file.nodes, bw.rows, i);
        var nd;
        st, nd := bw.file.LoadNode(leaf);
        LeafExtentRecs(bw.file.nodes, bw.rows, i);
        var done, runs := ScanLeaf(nd.recs, f, start);
        ghost var seen := Seen(nd.recs, f);
        out := out + runs;
        SeenFrom(nd.recs, f, 0);
        if done {
          SeenIsLater(nd.recs, f);
          ScanEnds(bw.file.nodes, bw.rows, i, seen, f, start);
          return;
        }
        assert nd.recs[..seen] == nd.recs;
        ScanGoesOn(bw.file.nodes, s, i, f, start);
        steps := steps + 1;
        i := i + 1;
        if steps >= maxNodes {
          leaf := 0;
        } else {
          leaf := nd.flink;
        }
      }
      ContentsIs(bw.file.nodes, bw.rows);
      assert s[..|s|] == s;
    }

    /** The runs before the fork's blocks are covered: `resolveForkExtents`, from the tree's runs on. */
    static method TakeUpto(more: seq<Extent>, covered: nat, total: nat) returns (runs: seq<Extent>)
      ensures runs == Upto(more, covered, total)
    {
      hide Upto;
      runs := [];
      var c: nat := covered;
      UptoFrom(more, 0, c, total);
      for i := 0 to |more|
        invariant Upto(more, covered, total) == runs + Upto(more[i..], c, total)
      {
        UptoFrom(more, i, c, total);
        c := (c + more[i].count) % U32;
        Assoc(runs, [more[i]], if c >= total then [] else Upto(more[i + 1..], c, total));
        runs := runs + [more[i]];
        if c >= total {
          assert runs + [] == runs;
          return;
        }
      }
      UptoFrom(more, |more|, c, total);
    }

    /** A fork's extents: those of its descriptor, and, if they do not cover it, those the tree has for it. */
    method ResolveFork(f: Fork, inline: seq<Extent>, total: nat) returns (st: Status, exts: seq<Extent>)
      requires Valid() && ForkOk(f)
      ensures bw.LeafCount() <= NODE_CEILING ==> st == Ok && exts == Resolve(inline, total, bw.Records(), f)
    {
      hide Valid, BTreeWriter.Records, Used, Sum, RunsFrom, Upto;
      exts := Used(inline);
      var covered := Sum(exts) % U32;
      if covered >= total {
        return Ok, exts;
      }
      var more;
      st, more := OverflowExtents(f, covered);
      var runs := TakeUpto(more, covered, total);
      exts := exts + runs;
    }

    // ---- deleting a fork's records ----

    /** The keys and the runs of a fork's records in one leaf. */
    static method CollectLeaf(recs: seq<Rec>, f: Fork) returns (keys: seq<int>, runs: seq<Extent>)
      requires AllExtentRecs(recs) && ForkOk(f)
      ensures keys == Keys(Select(recs, f)) && runs == AllRuns(Select(recs, f))
    {
      keys, runs := [], [];
      for i := 0 to |recs|
        invariant keys == Keys(Select(recs[..i], f)) && runs == AllRuns(Select(recs[..i], f))
      {
        var r := recs[i];
        assert IsExtentRec(r);
        var k := KeyOf(r.key);
        OfForkIsFields(r, f);
        SelectNext(recs, i, f);
        assert Select(recs[..i], f) + [] == Select(recs[..i], f);
        if k.fileID == f.fileID && k.forkType == f.forkType {
          KeysRunsCat(Select(recs[..i], f), [r]);
          KeysRunsOne(r);
          keys := keys + [r.key];
          runs := runs + RunsOf(r);
        }
      }
      assert recs[..|recs|] == recs;
    }

    /** `sort.Slice` by the key order. */
    static method SortKeys(keys: seq<int>) returns (sorted: seq<int>)
      ensures Ascending(sorted)
      ensures forall k :: k in sorted <==> k in keys
    {
      sorted := [];
      for n := 0 to |keys|
        invariant Ascending(sorted)
        invariant forall k :: k in sorted <==> k in keys[..n]
      {
        assert keys[..n + 1] == keys[..n] + [keys[n]];
        sorted := PutKey(sorted, keys[n]);
      }
      assert keys[..|keys|] == keys;
    }

    static method PutKey(keys: seq<int>, k: int) returns (r: seq<int>)
      requires Ascending(keys)
      ensures Ascending(r)
      ensures forall x :: x in r <==> x == k || x in keys
    {
      var p := 0;
      while p < |keys| && keys[p] <= k
        invariant 0 <= p <= |keys|
        invariant forall i :: 0 <= i < p ==> keys[i] <= k
      {
        p := p + 1;
      }
      r := keys[..p] + [k] + keys[p..];
      PutAt(keys, p, k);
    }

    /** Removes every record of a fork, and says which runs they recorded. The keys are collected first:
        each deletion may restructure the tree. */
    method DeleteAllForFork(f: Fork) returns (st: Status, freed: seq<Extent>)
      requires Valid() && ForkOk(f)
      modifies bw, bw.file
      ensures st == Ok && Valid()
      ensures bw.Records() == Others(old(bw.Records()), f)
      ensures freed == AllRuns(Select(old(bw.Records()), f))
      ensures bw.SweptFrom(old(bw.file.nodes), old(bw.file.live), old(bw.file.freeNodes))
    {
      hide *;
      bw.SweptStart();
      ghost var was := bw.Records();
      var keys;
      st, keys, freed := CollectFork(f);
      var sorted := SortKeys(keys);
      NothingDropped(was);
      for j := 0 to |sorted|
        invariant st == Ok && Valid() && bw.Records() == Drop(was, sorted[..j])
        invariant bw.SweptFrom(old(bw.file.nodes), old(bw.file.live), old(bw.file.freeNodes))
      {
        DropNext(was, sorted, j);
        ghost var nodes1, live1, free1 := bw.file.nodes, bw.file.live, bw.file.freeNodes;
        bw.SweptIs(old(bw.file.nodes), old(bw.file.live), old(bw.file.freeNodes));
        st := DeleteKey(sorted[j]);
        bw.SweptOn(old(bw.file.nodes), old(bw.file.live), old(bw.file.freeNodes), nodes1, live1, free1);
      }
      assert sorted[..|sorted|] == sorted;
      DropFork(was, sorted, f);
    }

    /** Scans the leaf chain for a fork's records. */
    method CollectFork(f: Fork) returns (st: Status, keys: seq<int>, runs: seq<Extent>)
      requires Valid() && ForkOk(f)
      ensures st == Ok && keys == Keys(Select(bw.Records(), f)) && runs == AllRuns(Select(bw.Records(), f))
    {
      hide Bits, Clear, PoolOk, NodesIn, WF, Flat, HeaderOk, RootOk, AllFull, Filled, Exact, Contents, Fits, Select,
        Keys, AllRuns;
      NoneSelected(f);
      st, keys, runs := Ok, [], [];
      RootMapped(bw.file.nodes, bw.rows, bw.h);
      NoRecords(bw.file.nodes);
      if bw.h.root == 0 {
        return;
      }
      FirstInChain(bw.file.nodes, bw.rows, bw.h);
      ghost var s := bw.rows[|bw.rows| - 1];
      ghost var i: nat := 0;
      FlatEnds(bw.file.nodes, s);
      var leaf := bw.h.firstLeaf;
      while leaf != 0
        invariant i <= |s| && leaf == (if i < |s| then s[i] else 0) && (i < |s| ==> leaf != 0)
        invariant keys == Keys(Select(Flat(bw.file.nodes, s[..i]), f))
        invariant runs == AllRuns(Select(Flat(bw.file.nodes, s[..i]), f))
        invariant st == Ok
        decreases |s| - i
      {
        NextLeaf(bw.file.nodes, bw.rows, i);
        var nd;
        st, nd := bw.file.LoadNode(leaf);
        LeafExtentRecs(bw.file.nodes, bw.rows, i);
        var ks, rs := CollectLeaf(nd.recs, f);
        SelectMore(Flat(bw.file.nodes, s[..i]), nd.recs, f);
        keys, runs := keys + ks, runs + rs;
        i := i + 1;
        leaf := nd.flink;
      }
      ContentsIs(bw.file.nodes, bw.rows);
      assert s[..|s|] == s;
    }
  }

  ghost predicate Ascending(keys: seq<int>) {
    forall i, j :: 0 <= i < j < |keys| ==> keys[i] <= keys[j]
  }

  ghost predicate AllExtentRecs(recs: seq<Rec>) {
    forall i :: 0 <= i < |recs| ==> IsExtentRec(recs[i])
  }

  ghost predicate HasSmaller(recs: seq<Rec>, k: int) {
    exists x :: 0 <= x < |recs| && recs[x].key < k
  }

  function FirstKey(f: Fork, block: nat): nat {
    Rank(ExtentsKey(f.forkType, f.fileID, block))
  }

  lemma ExtentRecsWithout(recs: seq<Rec>, k: int)
    requires AllExtentRecs(recs)
    ensures AllExtentRecs(Without(recs, k))
  {
    WithoutMembers(recs, k);
    var w := Without(recs, k);
    forall i | 0 <= i < |w| ensures IsExtentRec(w[i]) {
      assert w[i] in w;
    }
  }

  lemma ExtentRecsInsert(recs: seq<Rec>, rec: Rec)
    requires AllExtentRecs(recs) && IsExtentRec(rec)
    ensures AllExtentRecs(InsertSorted(recs, rec))
  {
    hide IsExtentRec, LowerBound;
  }

  lemma KeyGone(recs: seq<Rec>, k: int)
    ensures !HasKey(Without(recs, k), k)
  {
    WithoutMembers(recs, k);
    var w := Without(recs, k);
    forall i | 0 <= i < |w| ensures w[i].key != k {
      assert w[i] in w;
    }
  }

  /** Taking key `k` out leaves the smaller keys. */
  lemma SmallerStays(recs: seq<Rec>, k: int)
    ensures HasSmaller(Without(recs, k), k) <==> HasSmaller(recs, k)
  {
    hide Without;
    WithoutMembers(recs, k);
    var w := Without(recs, k);
    if x :| 0 <= x < |recs| && recs[x].key < k {
      assert recs[x] in w;
    }
    if x :| 0 <= x < |w| && w[x].key < k {
      assert w[x] in recs;
    }
  }

  lemma FirstIsSmaller(recs: seq<Rec>, k: int)
    requires Asc(recs) && !HasKey(recs, k)
    ensures HasSmaller(recs, k) <==> recs != [] && recs[0].key <= k
  {
    if x :| 0 <= x < |recs| && recs[x].key < k {
      assert x > 0 ==> recs[0].key < recs[x].key;
    }
  }

  lemma ExtentRecsSized(recs: seq<Rec>)
    requires AllExtentRecs(recs)
    ensures Sized(recs, 1)
  {
  }

  lemma ReplaceAllStep(recs: seq<Rec>, gs: seq<Rec>)
    requires gs != []
    ensures ReplaceAll(recs, gs) == ReplaceAll(Replaced(recs, gs[0]), gs[1..])
  {
  }

  lemma UptoFrom(more: seq<Extent>, i: nat, c: nat, total: nat)
    requires i <= |more|
    ensures more[0..] == more
    ensures i == |more| ==> Upto(more[i..], c, total) == []
    ensures i < |more| ==>
      var next := (c + more[i].count) % U32;
      Upto(more[i..], c, total) == [more[i]] + (if next >= total then [] else Upto(more[i + 1..], next, total))
  {
    if i < |more| {
      assert more[i..][0] == more[i] && more[i..][1..] == more[i + 1..];
    }
  }

  lemma PutAt(keys: seq<int>, p: nat, k: int)
    requires Ascending(keys) && p <= |keys| && (forall i :: 0 <= i < p ==> keys[i] <= k)
    requires p < |keys| ==> k < keys[p]
    ensures Ascending(keys[..p] + [k] + keys[p..])
    ensures forall x :: x in keys[..p] + [k] + keys[p..] <==> x == k || x in keys
  {
    var r := keys[..p] + [k] + keys[p..];
    assert forall i :: 0 <= i < |r| ==> r[i] == if i < p then keys[i] else if i == p then k else keys[i - 1];
    assert forall i :: p <= i < |keys| ==> k < keys[i];
    PutMembers(keys, p, k);
  }

  lemma PutMembers(keys: seq<int>, p: nat, k: int)
    requires p <= |keys|
    ensures forall x :: x in keys[..p] + [k] + keys[p..] <==> x == k || x in keys
  {
    assert keys == keys[..p] + keys[p..];
  }

  // ---- writing groups ----

  /** The groups of `exts[..i]` are written, up to fork block `block`: the first one's record is there, and writing the
      rest gives what writing them all gives. */
  ghost predicate SpillAt(was: seq<Rec>, recs: seq<Rec>, f: Fork, start: nat, exts: seq<Extent>, i: nat, block: nat) {
    && i <= |exts| && block == start + Sum(exts[..i])
    && (i > 0 ==> start < block && HasKey(recs, FirstKey(f, start)))
    && ReplaceAll(recs, Groups(f, block, exts[i..])) == ReplaceAll(was, Groups(f, start, exts))
  }

  lemma SpillStarts(was: seq<Rec>, f: Fork, start: nat, exts: seq<Extent>)
    ensures SpillAt(was, was, f, start, exts, 0, start)
  {
    assert exts[..0] == [] && exts[0..] == exts;
  }

  /** The next group: a record of the tree's kind, its key above the first group's. */
  lemma SpillReady(was: seq<Rec>, recs: seq<Rec>, f: Fork, start: nat, exts: seq<Extent>, i: nat, block: nat, end: nat)
    requires SpillAt(was, recs, f, start, exts, i, block) && ForkOk(f) && block < U32
    requires i < |exts| && end == (if i + INLINE > |exts| then |exts| else i + INLINE)
    ensures |exts[i..end]| <= INLINE
    ensures var r := GroupRec(f, block, exts[i..end]); IsExtentRec(r) && r.key == FirstKey(f, block)
    ensures i == 0 ==> block == start
    ensures i > 0 ==> HasSmaller(recs, FirstKey(f, block))
  {
    hide Groups, ReplaceAll;
    if i > 0 {
      var x :| 0 <= x < |recs| && recs[x].key == FirstKey(f, start);
      assert recs[x].key < FirstKey(f, block);
    } else {
      assert exts[..0] == [];
    }
  }

  lemma SpillNext(was: seq<Rec>, recs: seq<Rec>, f: Fork, start: nat, exts: seq<Extent>, i: nat, block: nat, end: nat)
    requires SpillAt(was, recs, f, start, exts, i, block) && Nonempty(exts) && start + Sum(exts) < U32
    requires i < |exts| && end == (if i + INLINE > |exts| then |exts| else i + INLINE)
    ensures |exts[i..end]| <= INLINE && (block + Sum(exts[i..end])) % U32 == block + Sum(exts[i..end]) < U32
    ensures SpillAt(was, Replaced(recs, GroupRec(f, block, exts[i..end])), f, start, exts, end,
      block + Sum(exts[i..end]))
  {
    hide Groups, ReplaceAll, GroupRec, Sum, HasKey, FirstKey, Replaced;
    var group := exts[i..end];
    var r := GroupRec(f, block, group);
    assert exts[..end] == exts[..i] + group;
    SumCat(exts[..i], group);
    SumPositive(group);
    assert exts == exts[..end] + exts[end..];
    SumCat(exts[..end], exts[end..]);
    Below32(block + Sum(group));
    GroupsStep(f, block, exts, i, end);
    ReplaceAllStep(recs, Groups(f, block, exts[i..]));
    FirstStays(recs, f, start, i, block, group);
  }

  /** The first group's record is there once it is written, and stays. */
  lemma FirstStays(recs: seq<Rec>, f: Fork, start: nat, i: nat, block: nat, group: seq<Extent>)
    requires |group| <= INLINE && if i == 0 then block == start else start < block && HasKey(recs, FirstKey(f, start))
    ensures HasKey(Replaced(recs, GroupRec(f, block, group)), FirstKey(f, start))
  {
    hide Without;
    var r := GroupRec(f, block, group);
    var w, k := Without(recs, r.key), FirstKey(f, start);
    var n := LowerBound(w, r.key);
    WithoutMembers(recs, r.key);
    if i == 0 {
      assert InsertSorted(w, r)[n] == r;
    } else {
      var x :| 0 <= x < |recs| && recs[x].key == k;
      assert recs[x] in w;
      var y :| 0 <= y < |w| && w[y] == recs[x];
      assert InsertSorted(w, r)[if y < n then y else y + 1] == w[y];
    }
  }

  lemma SpillEnds(was: seq<Rec>, recs: seq<Rec>, f: Fork, start: nat, exts: seq<Extent>, block: nat)
    requires SpillAt(was, recs, f, start, exts, |exts|, block)
    ensures recs == ReplaceAll(was, Groups(f, start, exts)) && (exts == [] ==> Groups(f, start, exts) == [])
  {
    assert exts[|exts|..] == [];
  }

  lemma ReplacedIs(recs: seq<Rec>, r: Rec)
    ensures Replaced(recs, r) == InsertSorted(Without(recs, r.key), r)
  {
  }

  lemma GroupsStep(f: Fork, block: nat, exts: seq<Extent>, i: nat, end: nat)
    requires i < |exts| && end == (if i + INLINE > |exts| then |exts| else i + INLINE)
    ensures |exts[i..end]| <= INLINE
    ensures var group := exts[i..end];
      Groups(f, block, exts[i..]) == [GroupRec(f, block, group)] + Groups(f, (block + Sum(group)) % U32, exts[end..])
  {
    var rest := exts[i..];
    var n := GroupLen(rest);
    assert rest[..n] == exts[i..end] && rest[n..] == exts[end..];
  }

  lemma ExtentRecSized(rec: Rec)
    requires IsExtentRec(rec)
    ensures SizedRec(rec, 1)
  {
  }

  // ---- scanning ----

  /** The key belongs to a later file. */
  predicate IsLater(r: Rec, f: Fork) {
    r.key >= 0 && KeyOf(r.key).fileID > f.fileID
  }

  /** The records before the first of a later file. */
  function Seen(recs: seq<Rec>, f: Fork): (n: nat)
    ensures n <= |recs|
  {
    Until(recs, (r: Rec) => IsLater(r, f))
  }

  lemma SeenFrom(recs: seq<Rec>, f: Fork, i: nat)
    requires i <= Seen(recs, f)
    ensures i < |recs| ==> (IsLater(recs[i], f) <==> i == Seen(recs, f))
  {
    hide IsLater;
    UntilFrom(recs, (r: Rec) => IsLater(r, f), i);
  }

  lemma SeenIsLater(recs: seq<Rec>, f: Fork)
    requires ForkOk(f) && Seen(recs, f) < |recs|
    ensures (ForkNumber(f) + 1) * U32 <= recs[Seen(recs, f)].key
  {
    SeenFrom(recs, f, Seen(recs, f));
    LaterFile(recs[Seen(recs, f)].key, f);
  }

  lemma RunsFromNext(recs: seq<Rec>, i: nat, f: Fork, start: nat)
    requires i < |recs|
    ensures RunsFrom(recs[..i + 1], f, start) == RunsFrom(recs[..i], f, start) + RunsHere(recs[i], f, start)
  {
    hide RunsHere;
    assert recs[..i + 1] == recs[..i] + [recs[i]];
    RunsFromCat(recs[..i], [recs[i]], f, start);
    assert [recs[i]][1..] == [];
  }

  lemma LaterFile(k: nat, f: Fork)
    requires ForkOk(f) && KeyOf(k).fileID > f.fileID
    ensures (ForkNumber(f) + 1) * U32 <= k
  {
    var q := k / U32;
    assert q / 0x100 >= f.fileID + 1;
    assert q >= (f.fileID + 1) * 0x100;
    assert k >= q * U32;
  }

  lemma {:induction false} RunsBelow(recs: seq<Rec>, f: Fork, start: nat)
    requires start < U32 && AllBelow(recs, ForkNumber(f) * U32 + start)
    ensures RunsFrom(recs, f, start) == []
  {
    if recs != [] {
      hide ForkNumber;
      assert recs[0].key == recs[0].key / U32 * U32 + recs[0].key % U32;
      RunsBelow(recs[1..], f, start);
    }
  }

  lemma {:induction false} RunsAbove(recs: seq<Rec>, f: Fork, start: nat)
    requires forall j :: 0 <= j < |recs| ==> (ForkNumber(f) + 1) * U32 <= recs[j].key
    ensures RunsFrom(recs, f, start) == []
  {
    if recs != [] {
      hide ForkNumber;
      assert recs[0].key == recs[0].key / U32 * U32 + recs[0].key % U32;
      RunsAbove(recs[1..], f, start);
    }
  }

  /** Nothing left of the leaf the descent reaches belongs to the search. */
  lemma LeafStart(nodes: Img, rows: seq<seq<nat>>, path: seq<nat>, ci: seq<nat>, pos: seq<nat>, f: Fork, start: nat)
    requires start < U32 && ForkOk(f)
    requires rows != [] && WholeFull(nodes, rows, 0) && PathOk(nodes, rows, path, ci, pos) && |path| == |rows|
    requires |ci| <= |path| && Followed(nodes, path, ci, Rank(ExtentsKey(f.forkType, f.fileID, start)))
    ensures |pos| == |path| && pos[|path| - 1] < |rows[|rows| - 1]|
    ensures path[|path| - 1] == rows[|rows| - 1][pos[|path| - 1]]
    ensures path[|path| - 1] != 0
    ensures RunsFrom(Flat(nodes, rows[|rows| - 1][..pos[|path| - 1]]), f, start) == []
  {
    hide Flat, WF, AllFull, PathOk, Followed, RunsFrom;
    PathLengths(nodes, rows, path, ci, pos);
    LeftOfLeaf(nodes, rows, path, ci, pos, Rank(ExtentsKey(f.forkType, f.fileID, start)));
    NextLeaf(nodes, rows, pos[|path| - 1]);
    RunsBelow(Flat(nodes, rows[|rows| - 1][..pos[|path| - 1]]), f, start);
  }

  lemma LeafExtentRecs(nodes: Img, rows: seq<seq<nat>>, i: nat)
    requires rows != [] && i < |rows[|rows| - 1]| && AllExtentRecs(Contents(nodes, rows))
    ensures AllExtentRecs(Recs(nodes, rows[|rows| - 1][i]))
  {
    hide Flat, IsExtentRec;
    var s := rows[|rows| - 1];
    FlatAt(nodes, s, i);
    var c, fa, rs := Contents(nodes, rows), Flat(nodes, s[..i]), Recs(nodes, s[i]);
    assert forall j :: 0 <= j < |rs| ==> rs[j] == c[|fa| + j];
  }

  /** From a record of a later file on, nothing belongs to the search. */
  lemma ScanEnds(nodes: Img, rows: seq<seq<nat>>, i: nat, seen: nat, f: Fork, start: nat)
    requires rows != [] && Whole(nodes, rows, 0) && i < |rows[|rows| - 1]|
    requires seen < |Recs(nodes, rows[|rows| - 1][i])|
    requires (ForkNumber(f) + 1) * U32 <= Recs(nodes, rows[|rows| - 1][i])[seen].key
    ensures var s := rows[|rows| - 1];
      RunsFrom(Flat(nodes, s[..i]), f, start) + RunsFrom(Recs(nodes, s[i])[..seen], f, start) ==
        RunsFrom(Contents(nodes, rows), f, start)
  {
    hide Flat, WF, RunsFrom;
    var s := rows[|rows| - 1];
    FlatAt(nodes, s, i);
    ContentsAsc(nodes, rows);
    var c, fa, rs := Contents(nodes, rows), Flat(nodes, s[..i]), Recs(nodes, s[i]);
    var rest := c[|fa| + seen..];
    assert c == fa + rs[..seen] + rest;
    assert c[|fa| + seen] == rs[seen];
    forall j | 0 <= j < |rest| ensures rs[seen].key <= rest[j].key {
      assert rest[j] == c[|fa| + seen + j];
    }
    RunsAbove(rest, f, start);
    RunsFromCat(fa + rs[..seen], rest, f, start);
    RunsFromCat(fa, rs[..seen], f, start);
  }

  lemma ScanGoesOn(nodes: Img, s: seq<nat>, i: nat, f: Fork, start: nat)
    requires i < |s|
    ensures RunsFrom(Flat(nodes, s[..i + 1]), f, start) ==
      RunsFrom(Flat(nodes, s[..i]), f, start) + RunsFrom(Recs(nodes, s[i]), f, start)
  {
    hide Flat, RunsFrom;
    FlatAt(nodes, s, i);
    RunsFromCat(Flat(nodes, s[..i]), Recs(nodes, s[i]), f, start);
  }

  // ---- collecting and dropping ----

  function Keys(recs: seq<Rec>): seq<int> {
    if recs == [] then [] else [recs[0].key] + Keys(recs[1..])
  }

  lemma {:induction false} KeysRunsCat(a: seq<Rec>, b: seq<Rec>)
    ensures Keys(a + b) == Keys(a) + Keys(b) && AllRuns(a + b) == AllRuns(a) + AllRuns(b)
  {
    hide RunsOf;
    if a == [] {
      assert a + b == b;
    } else {
      KeysRunsCat(a[1..], b);
      assert (a + b)[1..] == a[1..] + b && (a + b)[0] == a[0];
      Assoc([a[0].key], Keys(a[1..]), Keys(b));
      Assoc(RunsOf(a[0]), AllRuns(a[1..]), AllRuns(b));
    }
  }

  lemma KeysRunsOne(r: Rec)
    ensures Keys([r]) == [r.key] && AllRuns([r]) == RunsOf(r)
  {
    hide RunsOf;
    assert [r][1..] == [];
  }

  lemma SelectNext(recs: seq<Rec>, i: nat, f: Fork)
    requires i < |recs|
    ensures Select(recs[..i + 1], f) == Select(recs[..i], f) + IfOf(recs[i], f)
  {
    hide IfOf, Select;
    assert recs[..i + 1] == recs[..i] + [recs[i]];
    SelectCat(recs[..i], [recs[i]], f);
    OneRec(recs[i], f, 0);
  }

  lemma SelectMore(a: seq<Rec>, b: seq<Rec>, f: Fork)
    ensures Keys(Select(a + b, f)) == Keys(Select(a, f)) + Keys(Select(b, f))
    ensures AllRuns(Select(a + b, f)) == AllRuns(Select(a, f)) + AllRuns(Select(b, f))
  {
    hide Select, Keys, AllRuns;
    SelectCat(a, b, f);
    KeysRunsCat(Select(a, f), Select(b, f));
  }

  lemma NoneSelected(f: Fork)
    ensures Select([], f) == [] && Keys([]) == [] && AllRuns([]) == []
  {
  }

  /** The records whose key is not in `ks`. */
  function Drop(recs: seq<Rec>, ks: seq<int>): seq<Rec> {
    if recs == [] then [] else (if recs[0].key in ks then [] else [recs[0]]) + Drop(recs[1..], ks)
  }

  lemma {:induction false} DropNothing(recs: seq<Rec>)
    ensures Drop(recs, []) == recs
  {
    if recs != [] {
      DropNothing(recs[1..]);
    }
  }

  lemma NothingDropped(recs: seq<Rec>)
    ensures forall ks: seq<int> :: Drop(recs, ks[..0]) == recs
  {
    DropNothing(recs);
    assert forall ks: seq<int> :: ks[..0] == [];
  }

  lemma {:induction false} DropOne(recs: seq<Rec>, ks: seq<int>, k: int)
    ensures Without(Drop(recs, ks), k) == Drop(recs, ks + [k])
  {
    if recs != [] {
      DropOne(recs[1..], ks, k);
      var head := if recs[0].key in ks then [] else [recs[0]];
      WithoutCat(head, Drop(recs[1..], ks), k);
      assert [recs[0]][1..] == [];
    }
  }

  lemma DropNext(recs: seq<Rec>, ks: seq<int>, j: nat)
    requires j < |ks|
    ensures Without(Drop(recs, ks[..j]), ks[j]) == Drop(recs, ks[..j + 1])
  {
    DropOne(recs, ks[..j], ks[j]);
    assert ks[..j + 1] == ks[..j] + [ks[j]];
  }

  lemma {:induction false} KeysOfFork(recs: seq<Rec>, f: Fork)
    ensures forall k :: k in Keys(Select(recs, f)) ==> k / U32 == ForkNumber(f)
    ensures forall x :: x in recs && OfFork(x, f) ==> x.key in Keys(Select(recs, f))
  {
    if recs != [] {
      hide ForkNumber;
      KeysOfFork(recs[1..], f);
      KeysRunsCat(IfOf(recs[0], f), Select(recs[1..], f));
      KeysRunsOne(recs[0]);
      assert recs == [recs[0]] + recs[1..];
    }
  }

  lemma {:induction false} DropOthers(recs: seq<Rec>, ks: seq<int>, f: Fork)
    requires forall x :: x in recs ==> (x.key in ks <==> OfFork(x, f))
    ensures Drop(recs, ks) == Others(recs, f)
  {
    if recs != [] {
      hide OfFork;
      DropOthers(recs[1..], ks, f);
      assert recs[0] in recs;
    }
  }

  /** Dropping the fork's keys leaves the other forks' records. */
  lemma DropFork(recs: seq<Rec>, ks: seq<int>, f: Fork)
    requires forall k :: k in ks <==> k in Keys(Select(recs, f))
    ensures Drop(recs, ks) == Others(recs, f)
  {
    hide Drop, Others, Select, Keys;
    KeysOfFork(recs, f);
    DropOthers(recs, ks, f);
  }
}
