/** The catalog tree as the catalog's map: insertion, deletion and patching of records, and the steps of the file
    operations on the tree. */
module CatalogWriters {
  import opened Nodes
  import opened Rows
  import opened Edits
  import opened Steps
  import opened Search
  import opened LeafEdits
  import opened Trees
  import opened Deletes
  import opened FixedSizes
  import opened ExactKeys
  import opened Fallback
  import opened Chains
  import opened Descents
  import opened Inserts
  import opened Repairs
  import opened NodeFiles
  import opened BTreeWriters
  import opened ExtentsKeys
  import opened ExtentsWriters
  import opened Catalogs
  import opened Volumes
  import opened NameOrder
  import opened Coverage

  class CatalogWriter {
    const bw: BTreeWriter
    const binary: bool

    constructor (bw: BTreeWriter, binary: bool)
      ensures this.bw == bw && this.binary == binary
    {
      this.bw, this.binary := bw, binary;
    }

    /** The tree holds the catalog, its index keys exact. */
    ghost predicate Shows(cat: Cat, dec: Data -> Entry)
      reads bw, bw.file
    {
      bw.Valid() && bw.Keyed(0) && Represents(bw.Records(), cat, binary, dec)
    }

    /** Changes the data of the record with key `p` in place, its length kept: the tree stays as it is, and only that
        record changes. Refused exactly if there is none. */
    method PatchRecord(p: int, f: Data -> Data) returns (st: Status)
      requires bw.Valid() && forall d: Data :: DataLen(f(d)) == DataLen(d)
      modifies bw.file`nodes
      ensures bw.Valid() && (old(bw.Keyed(0)) ==> bw.Keyed(0))
      ensures old(|bw.rows|) <= MAX_DEPTH ==> (st == Status.Ok <==> HasKey(old(bw.Records()), p))
      ensures bw.Records() == if st == Status.Ok then PatchAt(old(bw.Records()), p, f) else old(bw.Records())
    {
      hide NodeFile.Valid, WF, Flat, HeaderOk, RootOk, AllFull, PathOk, Followed, HasKey, Contents, LiveIs, Exact,
        PatchAt,
        PathTo, Stranding, Without, UsedBytes;
      var path, ci;
      ghost var pos;
      NothingThere(p);
      st, path, ci, pos := bw.Descend(p);
      if st != Status.Ok {
        return;
      }
      var leaf := path[|path| - 1];
      LeafReached(bw.file.nodes, bw.rows, path, ci, pos, p);
      var en;
      st, en := bw.file.LoadNode(leaf);
      var found, x := BTreeWriter.FindKey(en.recs, p);
      if !found {
        return Status.Corrupt;
      }
      PatchInLeaf(bw.file.nodes, bw.rows, bw.h, bw.file.live, bw.file.nodeSize, path, ci, pos, x, f) by {
        bw.file.SizeOk();
      }
      st := bw.file.StoreNode(leaf, en.(recs := en.recs[x := en.recs[x].(data := f(en.recs[x].data))]));
    }

    lemma NothingThere(p: int)
      requires bw.Valid()
      ensures bw.h.root == 0 ==> !HasKey(bw.Records(), p)
      ensures bw.h.root != 0 ==> bw.WholeTree()
    {
      hide BTreeWriter.Valid, BTreeWriter.Records, BTreeWriter.WholeTree;
      bw.InsertParts();
    }

    /** Inserts a record of a key the tree has none of, under a folder of the catalog or as a thread. */
    method InsertRecord(ghost cat: Cat, ghost dec: Data -> Entry, ghost root: Key, ghost k: Key, rec: Rec)
      returns (st: Status)
      requires Shows(cat, dec) && root in cat && root.parent == ROOT_PARENT
      requires NameOk(k.name) && k.parent > ROOT_PARENT && rec.key == RankOf(k, binary)
      requires !HasKey(bw.Records(), rec.key)
      modifies bw, bw.file
      ensures st == Status.Ok ==> k !in cat && Shows(cat[k := dec(rec.data)], dec)
      ensures st == Status.Ok ==> bw.Records() == InsertSorted(old(bw.Records()), rec)
      ensures old(|bw.rows| <= MAX_DEPTH && bw.HasRoom(rec) && bw.NodesTaken(rec) <= bw.file.freeNodes) ==>
        st == Status.Ok
    {
      hide *;
      ShowsIs(cat, dec);
      bw.RecordsAsc();
      ItemCovered(bw, cat, binary, dec, root, k);
      HoldsInsert(bw.Records(), cat, binary, dec, k, rec);
      st := bw.Insert(rec);
      ShowsIs(cat[k := dec(rec.data)], dec);
    }

    lemma ShowsIs(cat: Cat, dec: Data -> Entry)
      ensures Shows(cat, dec) <==> bw.Valid() && bw.Keyed(0) && Represents(bw.Records(), cat, binary, dec)
    {
    }

    /** The tree's side of `Volume.AddItem`: the record and the thread of a new item go in, and the parent's record is
        patched; the tree then holds the catalog with the item in it. */
    method AddItem(ghost cat: Cat, ghost next: nat, ghost dec: Data -> Entry, ghost k: Key, rec: Rec, thread: Rec,
        parent: int, f: Data -> Data, ghost fd: int) returns (st: Status)
      requires Shows(cat, dec) && Linked(cat) && Rooted(cat) && IdsBelow(cat, next) && NameOk(k.name)
      requires Newcomer(cat, next, k, dec(rec.data))
      requires rec.key == RankOf(k, binary) && !HasKey(bw.Records(), rec.key)
      requires thread.key == RankOf(ThreadKey(next), binary) && dec(thread.data) == ThreadTo(k, dec(rec.data))
      requires parent == RankOf(FolderKey(cat, k.parent), binary) && Adjusts(f, dec, fd)
      modifies bw, bw.file
      ensures st == Status.Ok ==>
        var a := Added(cat, k, dec(rec.data));
        FolderAt(a, k.parent) && FolderKey(a, k.parent) in a && Shows(Patched(a, k.parent, 1, fd), dec)
    {
      hide *;
      ghost var e := dec(rec.data);
      ghost var root := RootKey(cat, next);
      ShowsIs(cat, dec);
      bw.RecordsAsc();
      AddReady(bw.Records(), cat, next, binary, dec, root, k, rec, thread);
      st := InsertRecord(cat, dec, root, k, rec);
      if st != Status.Ok {
        return;
      }
      st := InsertRecord(cat[k := e], dec, root, ThreadKey(next), thread);
      if st != Status.Ok {
        return;
      }
      AddedIs(cat, next, k, e, dec(thread.data));
      ghost var a := Added(cat, k, e);
      ShowsIs(a, dec);
      ParentPatched(bw.Records(), a, binary, dec, k.parent, f, fd);
      st := PatchRecord(parent, f);
      ShowsIs(Patched(a, k.parent, 1, fd), dec);
    }

    /** Removes the record of a key. */
    method DeleteRecord(ghost cat: Cat, ghost dec: Data -> Entry, ghost k: Key, p: int) returns (st: Status)
      requires Shows(cat, dec) && k in cat && p == RankOf(k, binary) && !bw.Alone(p)
      modifies bw, bw.file
      ensures st == Status.Ok ==> Shows(cat - {k}, dec)
      ensures old(|bw.rows| <= MAX_DEPTH && bw.RoomWithout(p)) ==> st == Status.Ok
    {
      hide *;
      ShowsIs(cat, dec);
      NotStranded(bw, p);
      HoldsDelete(bw.Records(), cat, binary, dec, k);
      st := bw.DeleteByKey(p);
      ShowsIs(cat - {k}, dec);
    }
  }

  /** An item for key `k` with the next CNID, its folder there. */
  ghost predicate Newcomer(cat: Cat, next: nat, k: Key, e: Entry) {
    !e.Thread? && e.cnid == next && k.name != [] && FolderAt(cat, k.parent) && FolderKey(cat, k.parent) in cat
  }

  /** The patch keeps lengths, and adds one to a folder's valence and `fd` to its folder count. */
  ghost predicate Adjusts(f: Data -> Data, dec: Data -> Entry, fd: int) {
    forall d: Data :: DataLen(f(d)) == DataLen(d) && dec(f(d)) == PatchedEntry(dec(d), 1, fd)
  }

  lemma AddReady(recs: seq<Rec>, cat: Cat, next: nat, binary: bool, dec: Data -> Entry, root: Key, k: Key, rec: Rec,
      thread: Rec)
    requires Represents(recs, cat, binary, dec) && Linked(cat) && Rooted(cat) && IdsBelow(cat, next) && Asc(recs)
    requires Newcomer(cat, next, k, dec(rec.data)) && NameOk(k.name) && root in cat && root.parent == ROOT_PARENT
    requires rec.key == RankOf(k, binary) && !HasKey(recs, rec.key) && thread.key == RankOf(ThreadKey(next), binary)
    ensures k.parent > ROOT_PARENT && next > ROOT_PARENT && NameOk(ThreadKey(next).name) && k != root
    ensures ThreadKey(next).parent == next && root in cat[k := dec(rec.data)]
    ensures !HasKey(InsertSorted(recs, rec), thread.key)
  {
    hide RankOf, InsertSorted, HasKey, Stored, Ranked, Asc;
    NothingUses(cat, next);
    ParentId(cat, next, k.parent);
    InsertedAsc(recs, rec);
    forall x | x in InsertSorted(recs, rec) ensures x.key != thread.key {
      if x == rec {
        OtherFolder(k, ThreadKey(next), binary);
      } else {
        assert Ranked(x.key, cat, binary);
        RankedElsewhere(x.key, cat, next, binary);
      }
    }
    NoneWithKey(InsertSorted(recs, rec), thread.key);
  }

  lemma OtherFolder(j: Key, k: Key, binary: bool)
    requires NameOk(j.name) && NameOk(k.name) && j.parent != k.parent
    ensures RankOf(j, binary) != RankOf(k, binary)
  {
    hide RankOf;
    if j.parent < k.parent {
      ParentFirst(j, k, binary);
    } else {
      ParentFirst(k, j, binary);
    }
  }

  lemma RankedElsewhere(p: int, cat: Cat, next: nat, binary: bool)
    requires Ranked(p, cat, binary) && forall k :: k in cat ==> k.parent != next && NameOk(k.name)
    ensures p != RankOf(ThreadKey(next), binary)
  {
    hide RankOf;
    var k :| k in cat && p == RankOf(k, binary);
    OtherFolder(k, ThreadKey(next), binary);
  }

  /** Record and thread in, the parent is where it was. */
  lemma AddedIs(cat: Cat, next: nat, k: Key, e: Entry, t: Entry)
    requires Newcomer(cat, next, k, e) && Linked(cat) && Rooted(cat) && IdsBelow(cat, next) && k !in cat
    requires t == ThreadTo(k, e)
    ensures cat[k := e][ThreadKey(next) := t] == Added(cat, k, e)
    ensures FolderAt(Added(cat, k, e), k.parent) && FolderKey(Added(cat, k, e), k.parent) == FolderKey(cat, k.parent)
    ensures FolderKey(cat, k.parent) in Added(cat, k, e)
  {
    ParentId(cat, next, k.parent);
  }

  /** The parent's record patched: the catalog with the parent's counts raised. */
  lemma ParentPatched(recs: seq<Rec>, a: Cat, binary: bool, dec: Data -> Entry, p: nat, f: Data -> Data, fd: int)
    requires Represents(recs, a, binary, dec) && FolderAt(a, p) && FolderKey(a, p) in a && Adjusts(f, dec, fd)
    ensures forall d: Data :: DataLen(f(d)) == DataLen(d)
    ensures Represents(PatchAt(recs, RankOf(FolderKey(a, p), binary), f), Patched(a, p, 1, fd), binary, dec)
  {
    hide RankOf, PatchAt, Represents, PatchedEntry;
    HoldsPatch(recs, a, binary, dec, FolderKey(a, p), f, PatchedEntry(a[FolderKey(a, p)], 1, fd));
  }

  // ---- patching ----

  lemma PatchIsUpdate(c: seq<Rec>, x: nat, f: Data -> Data)
    requires Asc(c) && x < |c|
    ensures PatchAt(c, c[x].key, f) == c[x := c[x].(data := f(c[x].data))]
  {
    hide PatchAt;
    PatchMembers(c, c[x].key, f);
    assert forall i :: 0 <= i < |c| && i != x ==> c[i].key != c[x].key;
  }

  /** What patching a record of the leaf at the end of a descent leaves. */
  lemma PatchInLeaf(nodes: Img, rows: seq<seq<nat>>, h: TreeHeader, live: set<nat>, nodeSize: nat, path: seq<nat>,
      ci: seq<nat>, pos: seq<nat>, x: nat, f: Data -> Data)
    requires rows != [] && TreeOk(nodes, rows, h) && LiveIs(rows, live)
    requires PathOk(nodes, rows, path, ci, pos) && |path| == |rows|
    requires path[|path| - 1] in nodes && x < |nodes[path[|path| - 1]].recs|
    requires forall d: Data :: DataLen(f(d)) == DataLen(d)
    requires forall n: nat :: n in live ==> n in nodes && Fits(nodeSize, nodes[n].recs)
    ensures var leaf := path[|path| - 1];
      var r := nodes[leaf].recs[x];
      var nodes' := SetRecs(nodes, leaf, nodes[leaf].recs[x := r.(data := f(r.data))]);
      && TreeOk(nodes', rows, h) && Contents(nodes', rows) == PatchAt(Contents(nodes, rows), r.key, f)
      && |Contents(nodes', rows)| == |Contents(nodes, rows)| && Fits(nodeSize, Recs(nodes', leaf))
      && (Exact(nodes, live, 0) ==> Exact(nodes', live, 0))
  {
    hide WF, Flat, AllFull, PathOk, Asc, SameKeys, PatchAt, LiveIs, Exact, UsedBytes, RootOk, HeaderOk;
    PathLengths(nodes, rows, path, ci, pos);
    PathLive(nodes, rows, live, path, ci, pos);
    var last := |path| - 1;
    var s, i, leaf := rows[last], pos[last], path[last];
    var rs, r := nodes[leaf].recs, nodes[leaf].recs[x];
    var rs' := rs[x := r.(data := f(r.data))];
    PatchedKeys(rs, x, f);
    LeafRewrite(nodes, rows, i, rs');
    RootAside(nodes, rows, i, rs');
    FlatAt(nodes, s, i);
    WholeAsc(nodes, rows, 0);
    var fa, fb := Flat(nodes, s[..i]), Flat(nodes, s[i + 1..]);
    PatchIsUpdate(Contents(nodes, rows), |fa| + x, f);
    assert fa + rs' + fb == (fa + rs + fb)[|fa| + x := rs'[x]];
    PatchMembers(Contents(nodes, rows), r.key, f);
    if Exact(nodes, live, 0) {
      LevelOf(nodes, rows, 0, last);
      LevelsAre(nodes, rows, 0);
      ZeroNotLive(nodes, rows, live);
      assert NodeAt(nodes, s[i], 1);
      ExactRewrite(nodes, live, leaf, rs');
    }
  }

  lemma PatchedKeys(rs: seq<Rec>, x: nat, f: Data -> Data)
    requires x < |rs| && forall d: Data :: DataLen(f(d)) == DataLen(d)
    ensures SameKeys(rs, rs[x := rs[x].(data := f(rs[x].data))])
    ensures UsedBytes(rs[x := rs[x].(data := f(rs[x].data))]) == UsedBytes(rs)
  {
    var r' := rs[x].(data := f(rs[x].data));
    assert rs == rs[..x] + ([rs[x]] + rs[x + 1..]);
    assert rs[x := r'] == rs[..x] + ([r'] + rs[x + 1..]);
    SumLenCat(rs[..x], [rs[x]] + rs[x + 1..]);
    SumLenCat(rs[..x], [r'] + rs[x + 1..]);
  }

  lemma ExactRewrite(nodes: Img, live: set<nat>, leaf: nat, rs: seq<Rec>)
    requires Exact(nodes, live, 0) && 0 !in live && leaf in nodes && nodes[leaf].kind == Leaf && nodes[leaf].height == 1
    requires SameKeys(nodes[leaf].recs, rs)
    ensures Exact(SetRecs(nodes, leaf, rs), live, 0)
  {
    forall m: nat, j | m in live && IndexNode(nodes, m) && 0 <= j < |Recs(nodes, m)|
      ensures Kid(Recs(nodes, m)[j]) != 0 {
      assert ExactNode(nodes, live, m, 0);
      assert ExactRec(nodes, live, Recs(nodes, m)[j], 0);
    }
    hide Exact;
    ExactStep(nodes, SetRecs(nodes, leaf, rs), live, live, 0, 0, {leaf}, 0);
  }

  // ---- what the tree holds ----

  function RankOf(k: Key, binary: bool): nat {
    CatalogRank(CatalogKey(k.parent, k.name), binary)
  }

  /** Some record with key `p` reads as the entry `e`. */
  ghost predicate Stored(recs: seq<Rec>, p: int, e: Entry, dec: Data -> Entry) {
    exists x :: x in recs && x.key == p && dec(x.data) == e
  }

  /** Every entry of the catalog is in a record, read by `dec`. */
  ghost predicate Shown(recs: seq<Rec>, cat: Cat, binary: bool, dec: Data -> Entry) {
    forall k :: k in cat ==> NameOk(k.name) && Stored(recs, RankOf(k, binary), cat[k], dec)
  }

  /** The key of a record is the rank of a key of the catalog. */
  ghost predicate Ranked(p: int, cat: Cat, binary: bool) {
    exists k :: k in cat && p == RankOf(k, binary)
  }

  ghost predicate AllRanked(recs: seq<Rec>, cat: Cat, binary: bool) {
    forall x :: x in recs ==> Ranked(x.key, cat, binary)
  }

  /** No two keys of the catalog compare equal. */
  ghost predicate Distinct(cat: Cat, binary: bool) {
    forall j, k :: j in cat && k in cat && RankOf(j, binary) == RankOf(k, binary) ==> j == k
  }

  /** The records are those of the catalog: one for each entry, under the rank of its key. */
  ghost predicate Represents(recs: seq<Rec>, cat: Cat, binary: bool, dec: Data -> Entry) {
    Shown(recs, cat, binary, dec) && AllRanked(recs, cat, binary) && Distinct(cat, binary)
  }

  /** The tree holds the volume's catalog. */
  ghost predicate HoldsCatalog(cw: BTreeWriter, v: Volume, dec: Data -> Entry)
    reads cw, cw.file, v
  {
    cw.Valid() && Represents(cw.Records(), v.cat, v.caseSensitive, dec)
  }

  lemma StoredKey(recs: seq<Rec>, p: int, e: Entry, dec: Data -> Entry)
    requires Stored(recs, p, e, dec)
    ensures HasKey(recs, p)
  {
    var x :| x in recs && x.key == p;
    var i :| 0 <= i < |recs| && recs[i] == x;
  }

  /** An entry stays in its record, whatever other records come or go. */
  lemma StillStored(recs: seq<Rec>, recs': seq<Rec>, p: int, q: int, e: Entry, dec: Data -> Entry)
    requires Stored(recs, q, e, dec) && p != q && forall x :: x in recs && x.key != p ==> x in recs'
    ensures Stored(recs', q, e, dec)
  {
    var x :| x in recs && x.key == q && dec(x.data) == e;
    assert x in recs';
  }

  lemma RankedMore(p: int, cat: Cat, cat': Cat, binary: bool)
    requires Ranked(p, cat, binary) && forall k :: k in cat ==> k in cat'
    ensures Ranked(p, cat', binary)
  {
    hide RankOf;
    var k :| k in cat && p == RankOf(k, binary);
    assert k in cat';
  }

  lemma RankedLess(p: int, cat: Cat, k: Key, binary: bool)
    requires Ranked(p, cat, binary) && p != RankOf(k, binary)
    ensures Ranked(p, cat - {k}, binary)
  {
    hide RankOf;
    var j :| j in cat && p == RankOf(j, binary);
    assert j in cat - {k};
  }

  /** A key that no record has is new to the catalog, and compares equal to none of its keys. */
  lemma NewKey(recs: seq<Rec>, cat: Cat, binary: bool, dec: Data -> Entry, k: Key)
    requires Represents(recs, cat, binary, dec) && !HasKey(recs, RankOf(k, binary))
    ensures k !in cat && forall j :: j in cat ==> RankOf(j, binary) != RankOf(k, binary)
  {
    hide RankOf, NameOk, HasKey, Stored;
    forall j | j in cat ensures RankOf(j, binary) != RankOf(k, binary) {
      StoredKey(recs, RankOf(j, binary), cat[j], dec);
    }
  }

  lemma HoldsInsert(recs: seq<Rec>, cat: Cat, binary: bool, dec: Data -> Entry, k: Key, rec: Rec)
    requires Represents(recs, cat, binary, dec) && Asc(recs) && NameOk(k.name) && rec.key == RankOf(k, binary)
    requires !HasKey(recs, rec.key)
    ensures k !in cat && Represents(InsertSorted(recs, rec), cat[k := dec(rec.data)], binary, dec)
  {
    hide RankOf, NameOk, InsertSorted, HasKey, Asc, Stored, Ranked;
    NewKey(recs, cat, binary, dec, k);
    InsertedAsc(recs, rec);
    var recs', cat' := InsertSorted(recs, rec), cat[k := dec(rec.data)];
    StoredHere(recs', rec, dec);
    forall j | j in cat ensures Stored(recs', RankOf(j, binary), cat[j], dec) {
      StillStored(recs, recs', rec.key, RankOf(j, binary), cat[j], dec);
    }
    RankedHere(k, cat', binary);
    forall x | x in recs ensures Ranked(x.key, cat', binary) {
      RankedMore(x.key, cat, cat', binary);
    }
  }

  lemma StoredHere(recs: seq<Rec>, r: Rec, dec: Data -> Entry)
    requires r in recs
    ensures Stored(recs, r.key, dec(r.data), dec)
  {
  }

  lemma RankedHere(k: Key, cat: Cat, binary: bool)
    requires k in cat
    ensures Ranked(RankOf(k, binary), cat, binary)
  {
    hide RankOf;
  }

  lemma HoldsDelete(recs: seq<Rec>, cat: Cat, binary: bool, dec: Data -> Entry, k: Key)
    requires Represents(recs, cat, binary, dec) && k in cat
    ensures Represents(Without(recs, RankOf(k, binary)), cat - {k}, binary, dec)
  {
    hide RankOf, NameOk, Without, Stored, Ranked;
    var p := RankOf(k, binary);
    WithoutMembers(recs, p);
    var recs' := Without(recs, p);
    forall j | j in cat && j != k ensures Stored(recs', RankOf(j, binary), cat[j], dec) {
      StillStored(recs, recs', p, RankOf(j, binary), cat[j], dec);
    }
    forall x | x in recs' ensures Ranked(x.key, cat - {k}, binary) {
      RankedLess(x.key, cat, k, binary);
    }
  }

  /** The records with the data of key `p` changed by `f`. */
  function PatchAt(recs: seq<Rec>, p: int, f: Data -> Data): seq<Rec> {
    if recs == [] then [] else [PatchedRec(recs[0], p, f)] + PatchAt(recs[1..], p, f)
  }

  function PatchedRec(r: Rec, p: int, f: Data -> Data): Rec {
    if r.key == p then r.(data := f(r.data)) else r
  }

  lemma {:induction false} PatchMembers(recs: seq<Rec>, p: int, f: Data -> Data)
    ensures |PatchAt(recs, p, f)| == |recs|
    ensures forall i :: 0 <= i < |recs| ==> PatchAt(recs, p, f)[i] == PatchedRec(recs[i], p, f)
  {
    hide PatchedRec;
    if recs != [] {
      PatchMembers(recs[1..], p, f);
    }
  }

  lemma PatchIn(recs: seq<Rec>, p: int, f: Data -> Data)
    ensures forall x :: x in recs ==> PatchedRec(x, p, f) in PatchAt(recs, p, f)
    ensures forall x :: x in PatchAt(recs, p, f) ==> exists y :: y in recs && x == PatchedRec(y, p, f)
  {
    hide PatchedRec, PatchAt;
    PatchMembers(recs, p, f);
    var recs' := PatchAt(recs, p, f);
    forall x | x in recs ensures PatchedRec(x, p, f) in recs' {
      var i :| 0 <= i < |recs| && recs[i] == x;
      assert recs'[i] in recs';
    }
    forall x | x in recs' ensures exists y :: y in recs && x == PatchedRec(y, p, f) {
      var i :| 0 <= i < |recs'| && recs'[i] == x;
      assert recs[i] in recs;
    }
  }

  lemma HoldsPatch(recs: seq<Rec>, cat: Cat, binary: bool, dec: Data -> Entry, k: Key, f: Data -> Data, e: Entry)
    requires Represents(recs, cat, binary, dec) && k in cat
    requires forall d: Data :: dec(d) == cat[k] ==> dec(f(d)) == e
    ensures Represents(PatchAt(recs, RankOf(k, binary), f), cat[k := e], binary, dec)
  {
    hide RankOf, NameOk, PatchAt, Stored, Ranked;
    var p := RankOf(k, binary);
    PatchIn(recs, p, f);
    var recs', cat' := PatchAt(recs, p, f), cat[k := e];
    StoredPatched(recs, recs', p, cat[k], e, f, dec);
    forall j | j in cat && j != k ensures Stored(recs', RankOf(j, binary), cat[j], dec) {
      StillStored(recs, recs', p, RankOf(j, binary), cat[j], dec);
    }
    forall x | x in recs' ensures Ranked(x.key, cat', binary) {
      var y :| y in recs && x == PatchedRec(y, p, f);
      RankedMore(y.key, cat, cat', binary);
    }
  }

  lemma StoredPatched(recs: seq<Rec>, recs': seq<Rec>, p: int, was: Entry, e: Entry, f: Data -> Data,
      dec: Data -> Entry)
    requires Stored(recs, p, was, dec) && forall x :: x in recs ==> PatchedRec(x, p, f) in recs'
    requires forall d: Data :: dec(d) == was ==> dec(f(d)) == e
    ensures Stored(recs', p, e, dec)
  {
    var x :| x in recs && x.key == p && dec(x.data) == was;
    assert PatchedRec(x, p, f) in recs';
  }

  lemma ParentFirst(j: Key, k: Key, binary: bool)
    requires NameOk(j.name) && NameOk(k.name) && j.parent < k.parent
    ensures RankOf(j, binary) < RankOf(k, binary)
  {
    CatalogRankOrder(CatalogKey(j.parent, j.name), CatalogKey(k.parent, k.name), binary);
  }

  /** Every record but the root folder's has a parent above the root folder's. */
  lemma ParentsAbove(cat: Cat, next: nat, root: Key, k: Key)
    requires Linked(cat) && Rooted(cat) && IdsBelow(cat, next)
    requires root in cat && root.parent == ROOT_PARENT && k in cat && k != root
    ensures k.parent > ROOT_PARENT
  {
    if cat[k].Thread? {
      ThreadIsKeyed(cat, k);
      ThreadId(cat, next, k.parent);
    } else if Id(cat[k]) == ROOT_FOLDER {
      RootIs(cat, next, root, root);
      SameId(cat, k, root);
    } else {
      ParentId(cat, next, k.parent);
    }
  }

  /** A record under any folder, and any thread, goes in without fallback: the root folder's record comes before it. */
  lemma ItemCovered(cw: BTreeWriter, cat: Cat, binary: bool, dec: Data -> Entry, root: Key, k: Key)
    requires cw.Valid() && cw.Keyed(0) && Represents(cw.Records(), cat, binary, dec)
    requires root in cat && root.parent == ROOT_PARENT && NameOk(k.name) && k.parent > ROOT_PARENT
    ensures cw.Covers(RankOf(k, binary))
  {
    hide BTreeWriter.Valid, BTreeWriter.Covers, BTreeWriter.Records, BTreeWriter.Keyed, RankOf, NameOk;
    cw.AdmitsIsCovers(RankOf(k, binary));
    cw.RecordsAsc();
    ParentFirst(root, k, binary);
    StoredKey(cw.Records(), RankOf(root, binary), cat[root], dec);
    FirstBelow(cw.Records(), RankOf(root, binary));
  }

  lemma FirstBelow(recs: seq<Rec>, k: int)
    requires Asc(recs) && HasKey(recs, k)
    ensures recs != [] && recs[0].key <= k
  {
  }

  /** Whatever the volume's new name, the root folder's record comes before all others. */
  lemma RootComesFirst(v: Volume, cw: BTreeWriter, dec: Data -> Entry, root: Key, volumeName: Name)
    requires v.Sound() && HoldsCatalog(cw, v, dec) && root in v.cat && root.parent == ROOT_PARENT && NameOk(volumeName)
    ensures AllAbove(Without(cw.Records(), RankOf(root, v.caseSensitive)),
      RankOf(Key(ROOT_PARENT, volumeName), v.caseSensitive))
  {
    hide BTreeWriter.Valid, BTreeWriter.Records, RankOf, Counted, Files, Folders, NameOk, Linked, Rooted, IdsBelow,
      Volume.SpaceOk, FilesOk, Without;
    var p, k := RankOf(root, v.caseSensitive), RankOf(Key(ROOT_PARENT, volumeName), v.caseSensitive);
    var recs := cw.Records();
    WithoutMembers(recs, p);
    var w := Without(recs, p);
    forall i | 0 <= i < |w| ensures k < w[i].key {
      assert w[i] in w && w[i] in recs;
      assert Ranked(w[i].key, v.cat, v.caseSensitive);
      var j :| j in v.cat && w[i].key == RankOf(j, v.caseSensitive);
      ParentsAbove(v.cat, v.nextId, root, j);
      ParentFirst(Key(ROOT_PARENT, volumeName), j, v.caseSensitive);
    }
  }

  /** The first step of `SetLabel`, the old name's record removed: the record under the new name will come before all
      others, so what follows is `ReplaceFirst` with the root folder's thread. */
  method DropLabel(v: Volume, cw: BTreeWriter, ghost dec: Data -> Entry, root: Key, volumeName: Name)
    returns (st: Status)
    requires v.Sound() && HoldsCatalog(cw, v, dec) && cw.Keyed(0) && !cw.Alone(RankOf(root, v.caseSensitive))
    requires root in v.cat && root.parent == ROOT_PARENT && NameOk(volumeName)
    modifies cw, cw.file
    ensures st == Status.Ok ==> cw.Valid() && cw.Keyed(0)
    ensures st == Status.Ok ==> cw.Records() == Without(old(cw.Records()), RankOf(root, v.caseSensitive))
    ensures st == Status.Ok ==>
      forall q: int :: AllAbove(Without(cw.Records(), q), RankOf(Key(ROOT_PARENT, volumeName), v.caseSensitive))
    ensures st == Status.Ok ==> (cw.LeafCount() <= 1 <==> old(cw.OneLeafWithout(RankOf(root, v.caseSensitive))))
  {
    hide *;
    CatalogValid(cw, v, dec);
    RootComesFirst(v, cw, dec, root, volumeName);
    NotStranded(cw, RankOf(root, v.caseSensitive));
    StillBelow(RankOf(Key(ROOT_PARENT, volumeName), v.caseSensitive),
      Without(cw.Records(), RankOf(root, v.caseSensitive)));
    st := cw.DeleteByKey(RankOf(root, v.caseSensitive));
  }

  lemma StillBelow(k: int, recs: seq<Rec>)
    requires AllAbove(recs, k)
    ensures forall q: int :: AllAbove(Without(recs, q), k)
  {
    hide Without;
    forall q: int, i | 0 <= i < |Without(recs, q)| ensures k < Without(recs, q)[i].key {
      WithoutMembers(recs, q);
      assert Without(recs, q)[i] in recs;
    }
  }

  /** `SetLabel` on a catalog of one leaf: the root folder and its thread come back under the new name, first, and the
      tree stays in order. */
  method Relabel(v: Volume, cw: BTreeWriter, ghost dec: Data -> Entry, root: Key, volumeName: Name, body: Rec,
      thread: Rec) returns (st: Status)
    requires v.Sound() && HoldsCatalog(cw, v, dec) && cw.Keyed(0) && cw.LeafCount() <= 1
    requires root in v.cat && root.parent == ROOT_PARENT && NameOk(volumeName)
    requires body.key == RankOf(Key(ROOT_PARENT, volumeName), v.caseSensitive)
    requires thread.key == RankOf(ThreadKey(ROOT_FOLDER), v.caseSensitive)
    modifies cw, cw.file
    ensures st == Status.Ok ==> cw.Valid() && cw.Keyed(0)
    ensures st == Status.Ok ==>
      var left := Without(Without(old(cw.Records()), RankOf(root, v.caseSensitive)), thread.key);
      cw.Records() == InsertSorted([body] + left, thread)
  {
    hide *;
    CatalogValid(cw, v, dec);
    OneLeafIs(cw);
    ghost var left := Without(cw.Records(), RankOf(root, v.caseSensitive));
    st := DropLabel(v, cw, dec, root, volumeName);
    if st != Status.Ok {
      return;
    }
    OneLeafIs(cw);
    st := ReplaceFirst(cw, thread.key, body);
    if st != Status.Ok {
      return;
    }
    LabelBeforeThread(volumeName, v.caseSensitive);
    SecondCovered(cw, body, thread, Without(left, thread.key));
    ThreadGone(body, thread, left);
    st := cw.Insert(thread);
  }

  lemma OneLeafIs(cw: BTreeWriter)
    requires cw.Valid()
    ensures cw.LeafCount() <= 1 ==> forall p: int :: !cw.Alone(p) && cw.OneLeafWithout(p)
  {
    hide BTreeWriter.Valid;
    cw.OneRow();
  }

  lemma SecondCovered(cw: BTreeWriter, body: Rec, thread: Rec, others: seq<Rec>)
    requires cw.Valid() && cw.Keyed(0) && cw.Records() == [body] + others && body.key < thread.key
    ensures cw.Covers(thread.key)
  {
    hide BTreeWriter.Valid, BTreeWriter.Covers, BTreeWriter.Records, BTreeWriter.Keyed;
    cw.AdmitsIsCovers(thread.key);
  }

  lemma LabelBeforeThread(volumeName: Name, binary: bool)
    requires NameOk(volumeName)
    ensures RankOf(Key(ROOT_PARENT, volumeName), binary) < RankOf(ThreadKey(ROOT_FOLDER), binary)
  {
    ParentFirst(Key(ROOT_PARENT, volumeName), ThreadKey(ROOT_FOLDER), binary);
  }

  lemma ThreadGone(body: Rec, thread: Rec, left: seq<Rec>)
    requires body.key < thread.key
    ensures !HasKey([body] + Without(left, thread.key), thread.key)
  {
    KeyGone(left, thread.key);
  }

  lemma CatalogValid(cw: BTreeWriter, v: Volume, dec: Data -> Entry)
    requires HoldsCatalog(cw, v, dec)
    ensures cw.Valid()
  {
  }
}
