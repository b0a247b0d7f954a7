/** Which keys the volume's operations put into its two trees, and what that does to the trees: an insertion keeps a
    tree well formed exactly if no level of its descent falls back, and falls back exactly below every stored key. */
module Coverage {
  import opened Nodes
  import opened Rows
  import opened Edits
  import opened Steps
  import opened Search
  import opened Trees
  import opened Deletes
  import opened Fallback
  import opened Chains
  import opened Repairs
  import opened NodeFiles
  import opened BTreeWriters
  import opened ExtentsKeys
  import opened ExtentsWriters
  import opened Owners
  import opened Catalogs
  import opened Volumes
  import opened NameOrder

  // ---- replacing the smallest record ----

  lemma StrandsAlone(bw: BTreeWriter, p: int)
    requires bw.Valid() && bw.Strands(p)
    ensures bw.Alone(p)
  {
    hide NodeFile.Valid, Flat, WF, HeaderOk, AllFull, RootOk, LiveIs, Off;
    var up, s := bw.rows[|bw.rows| - 2], bw.rows[|bw.rows| - 1];
    var i :| 0 <= i < |up| && StrandedAt(bw.file.nodes, up[i], p);
    NextNode(bw.file.nodes, bw.rows, 0, |bw.rows| - 2, i, 0);
    assert OnlyKey(Recs(bw.file.nodes, s[Off(bw.file.nodes, up, i)]), p);
  }

  lemma FirstPlace(recs: seq<Rec>, r: Rec)
    requires AllAbove(recs, r.key)
    ensures InsertSorted(recs, r) == [r] + recs && !HasKey(recs, r.key)
  {
    InsertFirst(recs, r);
  }

  /** Deletes the record of key `p` and inserts one that comes first: the tree stays well formed exactly if it is at
      most one leaf without the old record. */
  method ReplaceFirst(bw: BTreeWriter, p: int, rec: Rec) returns (st: Status)
    requires bw.Valid() && bw.Keyed(0) && !bw.Alone(p) && AllAbove(Without(bw.Records(), p), rec.key)
    modifies bw, bw.file
    ensures st == Status.Ok ==>
      (bw.WellFormed() <==> old(bw.OneLeafWithout(p))) && bw.Chain([rec] + Without(old(bw.Records()), p))
    ensures st == Status.Ok && old(bw.OneLeafWithout(p)) ==>
      bw.Valid() && bw.Keyed(0) && bw.Records() == [rec] + Without(old(bw.Records()), p)
  {
    hide *;
    ghost var left := Without(bw.Records(), p);
    NotStranded(bw, p);
    st := bw.DeleteByKey(p);
    if st != Status.Ok {
      return;
    }
    FirstPlace(left, rec);
    FirstCovered(bw, rec.key);
    st := bw.Insert(rec);
  }

  lemma NotStranded(bw: BTreeWriter, p: int)
    requires bw.Valid() && !bw.Alone(p)
    ensures !bw.Strands(p)
  {
    hide BTreeWriter.Valid, BTreeWriter.Strands, BTreeWriter.Alone;
    if bw.Strands(p) {
      StrandsAlone(bw, p);
    }
  }

  /** A key below every stored one: the descent does not fall back exactly if there is at most one leaf. */
  lemma FirstCovered(bw: BTreeWriter, k: int)
    requires bw.Valid() && bw.Keyed(0) && AllAbove(bw.Records(), k)
    ensures bw.Covers(k) <==> bw.LeafCount() <= 1
  {
    hide BTreeWriter.Valid, BTreeWriter.Keyed, BTreeWriter.Covers, BTreeWriter.Records, BTreeWriter.LeafCount;
    bw.AdmitsIsCovers(k);
    bw.OneRow();
  }

  // ---- the extents tree ----

  /** The writer's tree holds the volume's overflow records. */
  ghost predicate HoldsOverflow(ew: ExtentsWriter, v: Volume)
    reads ew, ew.bw, ew.bw.file, v`overflow
  {
    ew.Valid() && ew.bw.Records() == v.overflow
  }

  /** Every record of a file with a smaller CNID, or of the catalog, is below. */
  lemma OwnersBelow(recs: seq<Rec>, forks: Forks, c: nat, block: nat)
    requires Owned(recs, forks) && (forall d: nat :: d in forks ==> d < c) && CatalogFork.fileID < c
    ensures recs != [] ==> HasSmaller(recs, FirstKey(DataFork(c), block))
  {
    if recs != [] {
      assert HasOwner(recs[0], forks);
      var d: nat := recs[0].key / U32 / 0x100;
      assert recs[0].key / U32 == d * 0x100;
      assert recs[0].key < (d * 0x100 + 1) * U32 <= c * 0x100 * U32;
    }
  }

  /** The groups of a new file always go in: its CNID is above those of all records, or there are none. */
  lemma NewFileTaken(v: Volume, ew: ExtentsWriter, block: nat)
    requires v.Sound() && HoldsOverflow(ew, v)
    ensures ew.Takes(FirstKey(DataFork(v.nextId), block))
  {
    hide ExtentsWriter.Valid, Volume.Sound, FirstKey, HasSmaller;
    ForksBelow(v);
    OwnersBelow(v.overflow, v.forks, v.nextId, block);
    if v.overflow == [] {
      NoneTaken(ew, FirstKey(DataFork(v.nextId), block));
    }
  }

  lemma NoneTaken(ew: ExtentsWriter, k: int)
    requires ew.Valid() && ew.bw.Records() == []
    ensures ew.Takes(k)
  {
    hide BTreeWriter.Valid, BTreeWriter.Records, ExtentsWriter.Takes;
    CapOk(ew);
    ew.FewTaken(k);
  }

  lemma CapOk(ew: ExtentsWriter)
    requires ew.Valid()
    ensures ew.bw.file.nodeSize >= 512
  {
  }

  lemma ForksBelow(v: Volume)
    requires v.Sound()
    ensures Owned(v.overflow, v.forks) && FIRST_FILE <= v.nextId < U32 && forall d: nat :: d in v.forks ==> d < v.nextId
  {
    hide BlocksOk, CatForkOk, HasOwner, Asc, ForkSpilled, Counted, Files, Folders, FileOk, ThreadLinked, ItemLinked,
      FolderAt;
    forall d: nat | d in v.forks ensures d < v.nextId {
      assert FileThread(v.cat, d);
      ThreadId(v.cat, v.nextId, d);
    }
  }

  /** `createFile`'s spill: only space can run out, and the tree keeps up with the volume's overflow records. */
  method SpillNewFile(v: Volume, ew: ExtentsWriter, runs: seq<Extent>) returns (st: Status)
    requires v.Sound() && HoldsOverflow(ew, v) && |runs| > INLINE && Nonempty(runs) && Sum(runs) < U32
    modifies ew.bw, ew.bw.file
    ensures st == Status.Ok || st == Status.NoSpace
    ensures st == Status.Ok ==> ew.Valid() && ew.bw.Records() == AfterGrowth(v.overflow, DataFork(v.nextId), [], runs)
  {
    hide *;
    HoldsIs(ew, v);
    SpillParts(v, runs);
    NewFileTaken(v, ew, Sum(Inline(runs)));
    st := ew.InsertExtentRecords(DataFork(v.nextId), Sum(Inline(runs)), Overflow(runs));
  }

  lemma HoldsIs(ew: ExtentsWriter, v: Volume)
    ensures HoldsOverflow(ew, v) <==> ew.Valid() && ew.bw.Records() == v.overflow
  {
  }

  lemma SpillParts(v: Volume, runs: seq<Extent>)
    requires v.Sound() && |runs| > INLINE && Nonempty(runs) && Sum(runs) < U32
    ensures ForkOk(DataFork(v.nextId)) && Nonempty(Overflow(runs)) && Overflow(runs) != []
    ensures Sum(Inline(runs)) + Sum(Overflow(runs)) < U32
    ensures AfterGrowth(v.overflow, DataFork(v.nextId), [], runs) ==
      ReplaceAll(v.overflow, Groups(DataFork(v.nextId), Sum(Inline(runs)), Overflow(runs)))
  {
    hide Volume.Sound, Sum, Nonempty, Groups, ReplaceAll;
    ForksBelow(v);
    InlineParts(runs);
    assert [] + runs == runs;
  }

  /** In every state between operations, and for every file, the descent through the overflow tree and the walk along
      its leaves give the runs the file was allocated. */
  method FileRuns(v: Volume, ew: ExtentsWriter, k: Key) returns (st: Status, runs: seq<Extent>)
    requires v.Sound() && HoldsOverflow(ew, v) && k in v.cat && v.cat[k].File? && ew.bw.LeafCount() <= NODE_CEILING
    ensures st == Status.Ok && v.cat[k].cnid in v.forks && runs == v.forks[v.cat[k].cnid]
  {
    hide *;
    HoldsIs(ew, v);
    FileParts(v, k);
    st, runs := ew.ResolveFork(DataFork(v.cat[k].cnid), v.cat[k].inline, v.cat[k].total);
  }

  lemma FileParts(v: Volume, k: Key)
    requires v.Sound() && k in v.cat && v.cat[k].File?
    ensures v.cat[k].cnid in v.forks && ForkOk(DataFork(v.cat[k].cnid))
    ensures Resolve(v.cat[k].inline, v.cat[k].total, v.overflow, DataFork(v.cat[k].cnid)) == v.forks[v.cat[k].cnid]
  {
    hide BlocksOk, CatForkOk, Owned, Asc, ForkSpilled, CatalogOk, FilesOk, Resolve;
    FilesReadBack(v.cat, v.forks, v.overflow, v.catFork, k);
  }

  /** The first key of the groups a growing catalog fork writes. */
  function CatalogGroup(catFork: seq<Extent>): nat {
    FirstKey(CatalogFork, Sum(Inline(catFork)))
  }

  /** Nothing in the overflow tree is below the catalog's first group. */
  lemma CatalogIsFirst(recs: seq<Rec>, forks: Forks, catFork: seq<Extent>, runs: seq<Extent>)
    requires SpillsOk(recs, forks, catFork) && Nonempty(catFork + runs) && Sum(catFork + runs) < U32
    ensures !HasSmaller(recs, CatalogGroup(catFork + runs))
  {
    hide Select, ForkNumber, Sum, Groups, Inline, Overflow, Nonempty, OfFork, HasOwner, Asc, ForkSpilled, FirstKey;
    var k := CatalogGroup(catFork + runs);
    forall x | x in recs ensures k <= x.key {
      if OfFork(x, CatalogFork) {
        CatalogRecords(recs, catFork, runs, x);
      } else {
        FilesAbove(forks, x, catFork + runs);
      }
    }
    assert forall i :: 0 <= i < |recs| ==> recs[i] in recs;
  }

  lemma FilesAbove(forks: Forks, x: Rec, all: seq<Extent>)
    requires HasOwner(x, forks) && !OfFork(x, CatalogFork) && (forall c: nat :: c in forks ==> FIRST_FILE <= c)
    requires Nonempty(all) && Sum(all) < U32
    ensures CatalogGroup(all) <= x.key
  {
    hide Sum, Inline, Overflow, Nonempty;
    InlineParts(all);
    var c: nat := x.key / U32 / 0x100;
    assert x.key / U32 == c * 0x100;
    assert c == CatalogFork.fileID ==> DataFork(c) == CatalogFork;
    assert c * 0x100 * U32 <= x.key;
    assert c >= FIRST_FILE;
  }

  lemma CatalogRecords(recs: seq<Rec>, catFork: seq<Extent>, runs: seq<Extent>, x: Rec)
    requires ForkSpilled(recs, CatalogFork, catFork) && Nonempty(catFork + runs) && Sum(catFork + runs) < U32
    requires x in recs && OfFork(x, CatalogFork)
    ensures CatalogGroup(catFork + runs) <= x.key
  {
    hide Sum, Groups, Nonempty, OfFork, Select;
    var a, b := Inline(catFork), Overflow(catFork);
    InlineParts(catFork);
    Selected(recs, CatalogFork, x);
    if b == [] {
      NoExtents(CatalogFork, Sum(a));
    } else {
      assert Inline(catFork + runs) == a;
      GroupsAsc(CatalogFork, Sum(a), b);
    }
  }

  lemma {:induction false} Selected(recs: seq<Rec>, f: Fork, x: Rec)
    requires x in recs && OfFork(x, f)
    ensures x in Select(recs, f)
  {
    hide OfFork;
    if recs[0] != x {
      Selected(recs[1..], f, x);
    }
  }

  /** The spill of a growing catalog fork: its first group comes first in the overflow tree, which therefore stays well
      formed exactly if it is at most one leaf without that group. */
  method SpillCatalog(v: Volume, ew: ExtentsWriter, runs: seq<Extent>) returns (st: Status)
    requires v.SpaceOk() && HoldsOverflow(ew, v) && Nonempty(runs) && Sum(v.catFork + runs) < U32
    requires |v.catFork + runs| > INLINE
    requires |v.catFork + runs| > 2 * INLINE ==> ew.bw.OneLeafWithout(CatalogGroup(v.catFork + runs))
    modifies ew.bw, ew.bw.file
    ensures st == Status.Ok ==> (ew.bw.WellFormed() <==> old(ew.bw.OneLeafWithout(CatalogGroup(v.catFork + runs))))
    ensures st == Status.Ok || st == Status.NoSpace
    ensures st == Status.Ok && old(ew.bw.OneLeafWithout(CatalogGroup(v.catFork + runs))) ==>
      ew.Valid() && ew.bw.Records() == AfterGrowth(v.overflow, CatalogFork, v.catFork, runs)
  {
    hide *;
    HoldsIs(ew, v);
    CatalogParts(v, runs);
    ew.TakesIs(CatalogGroup(v.catFork + runs));
    st := ew.InsertExtentRecords(CatalogFork, Sum(Inline(v.catFork + runs)), Overflow(v.catFork + runs));
  }

  lemma CatalogParts(v: Volume, runs: seq<Extent>)
    requires v.SpaceOk() && Nonempty(runs) && Sum(v.catFork + runs) < U32 && |v.catFork + runs| > INLINE
    ensures var all := v.catFork + runs;
      && ForkOk(CatalogFork) && Nonempty(Overflow(all)) && Overflow(all) != []
      && Sum(Inline(all)) + Sum(Overflow(all)) < U32
      && CatalogGroup(all) == FirstKey(CatalogFork, Sum(Inline(all)))
      && !HasSmaller(v.overflow, CatalogGroup(all))
      && |Overflow(all)| == |all| - INLINE
      && AfterGrowth(v.overflow, CatalogFork, v.catFork, runs) ==
        ReplaceAll(v.overflow, Groups(CatalogFork, Sum(Inline(all)), Overflow(all)))
  {
    hide BlocksOk, CatForkOk, Owned, Asc, Spilled, Sum, Groups, ReplaceAll, FirstKey, HasSmaller;
    InlineParts(v.catFork + runs);
    CatalogIsFirst(v.overflow, v.forks, v.catFork, runs);
  }
}
