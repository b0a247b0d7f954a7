/** Looking up a catalog key, and listing a folder: a descent, then the leaf chain. */
module CatalogReaders {
  import opened Arith
  import opened Nodes
  import opened Rows
  import opened Edits
  import opened Steps
  import opened Search
  import opened Trees
  import opened Deletes
  import opened Fallback
  import opened Chains
  import opened NodePool
  import opened NodeFiles
  import opened Descents
  import opened Repairs
  import opened BTreeWriters
  import opened NameOrder

  const RECORD_FOLDER := 1
  const RECORD_FILE := 2

  /** The parent CNID of a ranked key. */
  function ParentOf(key: int): int {
    key / Weight(MAX_NAME)
  }

  function FirstKey(parent: nat): nat {
    parent * Weight(MAX_NAME)
  }

  /** The records of one folder lie together: `ParentOf` gives a ranked key's parent, and between two records of a
      folder there are only its own. This is why a listing may stop at the first later folder. */
  lemma FolderTogether(recs: seq<Rec>, keys: seq<CatalogKey>, binary: bool, i: nat, j: nat, l: nat)
    requires Asc(recs) && |keys| == |recs| && i <= j <= l < |recs|
    requires forall x :: 0 <= x < |recs| ==> NameOk(keys[x].name) && recs[x].key == CatalogRank(keys[x], binary)
    ensures ParentOf(recs[i].key) == keys[i].parent && ParentOf(recs[l].key) == keys[l].parent
    ensures keys[i].parent <= keys[j].parent <= keys[l].parent
    ensures keys[i].parent == keys[l].parent ==> ParentOf(recs[j].key) == keys[j].parent == keys[i].parent
  {
    hide CatalogRank, Weight;
    ParentOfRank(keys[i], binary);
    ParentOfRank(keys[j], binary);
    ParentOfRank(keys[l], binary);
    ParentsOrdered(keys[i], keys[j], binary);
    ParentsOrdered(keys[j], keys[l], binary);
  }

  lemma ParentsOrdered(a: CatalogKey, b: CatalogKey, binary: bool)
    requires NameOk(a.name) && NameOk(b.name)
    ensures CatalogRank(a, binary) <= CatalogRank(b, binary) ==> a.parent <= b.parent
  {
    hide CatalogRank;
    CatalogRankOrder(b, a, binary);
  }

  /** The record is a folder's or a file's, and long enough to be read. */
  predicate IsEntry(d: Data) {
    match d
    case Bytes(b) => |b| >= 2 &&
      (if b[0] * 0x100 + b[1] == RECORD_FOLDER then |b| >= 14 else b[0] * 0x100 + b[1] == RECORD_FILE && |b| >= 168)
    case _ => false
  }

  function ChildHere(r: Rec, parent: nat): seq<Rec> {
    if ParentOf(r.key) == parent && IsEntry(r.data) then [r] else []
  }

  /** The entries of a folder, in key order. */
  function ChildRecs(recs: seq<Rec>, parent: nat): seq<Rec> {
    if recs == [] then [] else ChildHere(recs[0], parent) + ChildRecs(recs[1..], parent)
  }

  /** The records before the first of a later folder. */
  function Seen(recs: seq<Rec>, parent: nat): (n: nat)
    ensures n <= |recs|
  {
    Until(recs, (r: Rec) => ParentOf(r.key) > parent)
  }

  lemma SeenFrom(recs: seq<Rec>, parent: nat, i: nat)
    requires i <= Seen(recs, parent)
    ensures i < |recs| ==> (ParentOf(recs[i].key) > parent <==> i == Seen(recs, parent))
  {
    hide ParentOf;
    UntilFrom(recs, (r: Rec) => ParentOf(r.key) > parent, i);
  }

  class CatalogReader {
    const bw: BTreeWriter

    constructor (bw: BTreeWriter)
      ensures this.bw == bw
    {
      this.bw := bw;
    }

    /** Shallow enough to descend, small enough to walk. */
    ghost predicate Reachable()
      reads bw`rows
    {
      |bw.rows| <= MAX_DEPTH && bw.LeafCount() <= NODE_CEILING
    }

    /** One leaf of a listing; `done` when a later folder's record turned up. */
    static method ScanChildren(recs: seq<Rec>, parent: nat) returns (done: bool, out: seq<Rec>)
      ensures out == ChildRecs(recs[..Seen(recs, parent)], parent)
      ensures done <==> Seen(recs, parent) < |recs|
    {
      out := [];
      var i := 0;
      while i < |recs|
        invariant 0 <= i <= Seen(recs, parent) && out == ChildRecs(recs[..i], parent)
      {
        ChildRecsNext(recs, i, parent);
        SeenFrom(recs, parent, i);
        assert out + [] == out;
        var k := ParentOf(recs[i].key);
        if k > parent {
          return true, out;
        }
        if k == parent && IsEntry(recs[i].data) {
          out := out + [recs[i]];
        }
        i := i + 1;
      }
      assert recs[..|recs|] == recs;
      return false, out;
    }

    /** The entries of a folder. */
    method ListChildren(parent: nat) returns (st: Status, out: seq<Rec>)
      requires bw.Valid()
      ensures Reachable() ==> st == Ok && out == ChildRecs(bw.Records(), parent)
    {
      hide Bits, Clear, PoolOk, NodesIn, WF, Flat, HeaderOk, RootOk, AllFull, Contents, PathOk, Followed, Fits,
        ChildRecs, FirstKey, ParentOf, LiveIs, Whole;
      out := [];
      RootMapped(bw.file.nodes, bw.rows, bw.h);
      NoRecords(bw.file.nodes);
      ChildrenBelow([], parent);
      if bw.h.root == 0 {
        return Ok, [];
      }
      var path, ci;
      ghost var pos;
      st, path, ci, pos := bw.Descend(FirstKey(parent));
      if st != Ok {
        return;
      }
      PathLengths(bw.file.nodes, bw.rows, path, ci, pos);
      var leaf := path[|path| - 1];
      ghost var s := bw.rows[|bw.rows| - 1];
      ghost var i: nat := pos[|path| - 1];
      ListStart(bw.file.nodes, bw.rows, path, ci, pos, parent);
      ghost var first := i;
      var maxNodes := MaxNodes(bw.file.totalNodes);
      assert bw.LeafCount() == |s|;
      bw.NodesBelow();
      ChainShort(bw.file.nodes, bw.rows, bw.file.live, bw.file.totalNodes);
      var steps: nat := 0;
      while leaf != 0
        invariant i <= |s| && (leaf != 0 ==> i < |s| && leaf == s[i])
        invariant leaf == 0 && bw.LeafCount() <= NODE_CEILING ==> i == |s|
        invariant out == ChildRecs(Flat(bw.file.nodes, s[..i]), parent)
        invariant (leaf != 0 ==> steps < maxNodes) && steps == i - first
        invariant st == Ok
        decreases maxNodes - steps
      {
        NextLeaf(bw.file.nodes, bw.rows, i);
        var nd;
        st, nd := bw.file.LoadNode(leaf);
        var done, more := ScanChildren(nd.recs, parent);
        ghost var seen := Seen(nd.recs, parent);
        out := out + more;
        if done {
          SeenFrom(nd.recs, parent, seen);
          ListEnds(bw.file.nodes, bw.rows, i, seen, parent);
          return;
        }
        assert nd.recs[..seen] == nd.recs;
        ListGoesOn(bw.file.nodes, s, i, parent);
        steps := steps + 1;
        i := i + 1;
        leaf := if steps >= maxNodes then 0 else nd.flink;
      }
      ContentsIs(bw.file.nodes, bw.rows);
      assert s[..|s|] == s;
    }

    /** One leaf of a lookup for a record that satisfies `m`, in the folder of key `p`. */
    static method ScanFor(recs: seq<Rec>, p: nat, m: Rec -> bool) returns (found: bool, done: bool, x: nat)
      ensures found ==> x < |recs| && m(recs[x])
      ensures !found && !done ==> !HasMatch(recs, m)
      ensures !found && done ==>
        x < |recs| && ParentOf(recs[x].key) > ParentOf(p) && forall j :: 0 <= j < x ==> !m(recs[j])
    {
      x := 0;
      while x < |recs|
        invariant x <= |recs| && forall j :: 0 <= j < x ==> !m(recs[j])
      {
        if m(recs[x]) {
          return true, false, x;
        }
        if ParentOf(recs[x].key) > ParentOf(p) {
          return false, true, x;
        }
        x := x + 1;
      }
      return false, false, x;
    }

    /** A record in the folder of the ranked key `p` that satisfies `m`, the test of the names: found exactly if there
        is one, so long as none sorts below `p`. */
    method Lookup(p: nat, m: Rec -> bool) returns (st: Status, found: bool, rec: Rec)
      requires bw.Valid() && InFolder(m, ParentOf(p))
      ensures Reachable() ==> st == Ok
      ensures Reachable() && NoneBelow(bw.Records(), m, p) ==> (found <==> HasMatch(bw.Records(), m))
      ensures st == Ok && found ==> rec in bw.Records() && m(rec)
    {
      hide Bits, Clear, PoolOk, NodesIn, WF, Flat, HeaderOk, RootOk, AllFull, Contents, PathOk, Followed, Fits,
        ParentOf, LiveIs, Whole, HasMatch, InFolder, NoneBelow;
      found, rec := false, Rec(0, 0, Bytes([]));
      RootMapped(bw.file.nodes, bw.rows, bw.h);
      NoneThere(bw.file.nodes, m);
      if bw.h.root == 0 {
        return Ok, false, rec;
      }
      var path, ci;
      ghost var pos;
      st, path, ci, pos := bw.Descend(p);
      if st != Ok {
        return;
      }
      PathLengths(bw.file.nodes, bw.rows, path, ci, pos);
      LookupStart(bw.file.nodes, bw.rows, path, ci, pos, p, m);
      var leaf := path[|path| - 1];
      ghost var s := bw.rows[|bw.rows| - 1];
      ghost var i: nat := pos[|path| - 1];
      ghost var low := NoneBelow(bw.Records(), m, p);
      ghost var first := i;
      var maxNodes := MaxNodes(bw.file.totalNodes);
      assert bw.LeafCount() == |s|;
      bw.NodesBelow();
      ChainShort(bw.file.nodes, bw.rows, bw.file.live, bw.file.totalNodes);
      var steps: nat := 0;
      while leaf != 0
        invariant i <= |s| && (leaf != 0 ==> i < |s| && leaf == s[i])
        invariant leaf == 0 && bw.LeafCount() <= NODE_CEILING ==> i == |s|
        invariant low ==> !HasMatch(Flat(bw.file.nodes, s[..i]), m)
        invariant (leaf != 0 ==> steps < maxNodes) && steps == i - first
        invariant st == Ok && !found
        decreases maxNodes - steps
      {
        NextLeaf(bw.file.nodes, bw.rows, i);
        var nd;
        st, nd := bw.file.LoadNode(leaf);
        var done, x;
        found, done, x := ScanFor(nd.recs, p, m);
        if found {
          FoundHere(bw.file.nodes, bw.rows, i, x, m);
          rec := nd.recs[x];
          return;
        }
        if done {
          if low {
            PastIt(bw.file.nodes, bw.rows, i, x, p, m);
          }
          return;
        }
        if low {
          NoMatchNext(bw.file.nodes, s, i, m);
        }
        steps := steps + 1;
        i := i + 1;
        leaf := if steps >= maxNodes then 0 else nd.flink;
      }
      ContentsIs(bw.file.nodes, bw.rows);
      assert s[..|s|] == s;
    }
  }

  // ---- matching ----

  predicate HasMatch(recs: seq<Rec>, m: Rec -> bool) {
    exists j :: 0 <= j < |recs| && m(recs[j])
  }

  /** The test is of records in one folder. */
  ghost predicate InFolder(m: Rec -> bool, parent: int) {
    forall r: Rec :: m(r) ==> ParentOf(r.key) == parent
  }

  /** No match sorts below `p`. */
  ghost predicate NoneBelow(recs: seq<Rec>, m: Rec -> bool, p: int) {
    forall j :: 0 <= j < |recs| && m(recs[j]) ==> p <= recs[j].key
  }

  /** Names matched as keys are, as in the binary mode: nothing sorts below, and a match is the key. */
  lemma KeyMatch(recs: seq<Rec>, m: Rec -> bool, p: nat)
    requires forall r: Rec :: m(r) <==> r.key == p
    ensures InFolder(m, ParentOf(p)) && NoneBelow(recs, m, p) && (HasMatch(recs, m) <==> HasKey(recs, p))
  {
    hide ParentOf;
  }

  lemma {:induction false} ChildRecsCat(a: seq<Rec>, b: seq<Rec>, parent: nat)
    ensures ChildRecs(a + b, parent) == ChildRecs(a, parent) + ChildRecs(b, parent)
  {
    hide ChildHere;
    if a == [] {
      assert a + b == b;
    } else {
      ChildRecsCat(a[1..], b, parent);
      assert (a + b)[1..] == a[1..] + b && (a + b)[0] == a[0];
      assert (ChildHere(a[0], parent) + ChildRecs(a[1..], parent)) + ChildRecs(b, parent)
          == ChildHere(a[0], parent) + (ChildRecs(a[1..], parent) + ChildRecs(b, parent));
    }
  }

  lemma ChildRecsNext(recs: seq<Rec>, i: nat, parent: nat)
    requires i < |recs|
    ensures ChildRecs(recs[..i + 1], parent) == ChildRecs(recs[..i], parent) + ChildHere(recs[i], parent)
  {
    hide ChildHere;
    assert recs[..i + 1] == recs[..i] + [recs[i]];
    ChildRecsCat(recs[..i], [recs[i]], parent);
    assert [recs[i]][1..] == [];
  }

  lemma NoneThere(nodes: Img, m: Rec -> bool)
    ensures !HasMatch(Contents(nodes, []), m)
  {
  }

  lemma {:induction false} ChildrenBelow(recs: seq<Rec>, parent: nat)
    requires forall j :: 0 <= j < |recs| ==> ParentOf(recs[j].key) < parent
    ensures ChildRecs(recs, parent) == []
  {
    if recs != [] {
      hide ParentOf;
      ChildrenBelow(recs[1..], parent);
    }
  }

  lemma {:induction false} ChildrenAbove(recs: seq<Rec>, parent: nat)
    requires forall j :: 0 <= j < |recs| ==> ParentOf(recs[j].key) > parent
    ensures ChildRecs(recs, parent) == []
  {
    if recs != [] {
      hide ParentOf;
      ChildrenAbove(recs[1..], parent);
    }
  }

  lemma ParentMonotone(a: int, b: int)
    requires a <= b
    ensures ParentOf(a) <= ParentOf(b)
  {
    hide Weight;
    var w := Weight(MAX_NAME);
    DivMonotone(a, b, w);
  }

  lemma DivMonotone(a: int, b: int, w: nat)
    requires a <= b && w > 0
    ensures a / w <= b / w
  {
    var x, y := a / w, b / w;
    assert a == x * w + a % w && b == y * w + b % w;
    assert (y + 1) * w == y * w + w;
    if y < x {
      MulMono(y + 1, x, w);
    }
  }

  lemma BelowFirst(k: int, parent: nat)
    requires k < FirstKey(parent)
    ensures ParentOf(k) < parent
  {
    hide Weight;
    var w := Weight(MAX_NAME);
    var x := k / w;
    assert k == x * w + k % w;
    if x >= parent {
      MulMono(parent, x, w);
    }
  }

  lemma ListStart(nodes: Img, rows: seq<seq<nat>>, path: seq<nat>, ci: seq<nat>, pos: seq<nat>, parent: nat)
    requires rows != [] && WholeFull(nodes, rows, 0) && PathOk(nodes, rows, path, ci, pos) && |path| == |rows|
    requires |ci| <= |path| && Followed(nodes, path, ci, FirstKey(parent))
    ensures |pos| == |path| && pos[|path| - 1] < |rows[|rows| - 1]|
    ensures path[|path| - 1] == rows[|rows| - 1][pos[|path| - 1]]
    ensures path[|path| - 1] != 0
    ensures ChildRecs(Flat(nodes, rows[|rows| - 1][..pos[|path| - 1]]), parent) == []
  {
    hide Flat, WF, AllFull, PathOk, Followed, ChildRecs, FirstKey, ParentOf;
    PathLengths(nodes, rows, path, ci, pos);
    LeftOfLeaf(nodes, rows, path, ci, pos, FirstKey(parent));
    NextLeaf(nodes, rows, pos[|path| - 1]);
    var fa := Flat(nodes, rows[|rows| - 1][..pos[|path| - 1]]);
    forall j | 0 <= j < |fa| ensures ParentOf(fa[j].key) < parent {
      BelowFirst(fa[j].key, parent);
    }
    ChildrenBelow(fa, parent);
  }

  /** From a record of a later folder on, nothing belongs to the listing. */
  lemma ListEnds(nodes: Img, rows: seq<seq<nat>>, i: nat, seen: nat, parent: nat)
    requires rows != [] && Whole(nodes, rows, 0) && i < |rows[|rows| - 1]|
    requires seen < |Recs(nodes, rows[|rows| - 1][i])| && ParentOf(Recs(nodes, rows[|rows| - 1][i])[seen].key) > parent
    ensures var s := rows[|rows| - 1];
      ChildRecs(Flat(nodes, s[..i]), parent) + ChildRecs(Recs(nodes, s[i])[..seen], parent) ==
        ChildRecs(Contents(nodes, rows), parent)
  {
    hide Flat, WF, ChildRecs, ParentOf;
    var s := rows[|rows| - 1];
    FlatAt(nodes, s, i);
    ContentsAsc(nodes, rows);
    var c, fa, rs := Contents(nodes, rows), Flat(nodes, s[..i]), Recs(nodes, s[i]);
    var rest := c[|fa| + seen..];
    assert c == fa + rs[..seen] + rest;
    assert c[|fa| + seen] == rs[seen];
    forall j | 0 <= j < |rest| ensures ParentOf(rest[j].key) > parent {
      assert rest[j] == c[|fa| + seen + j];
      ParentMonotone(rs[seen].key, rest[j].key);
    }
    ChildrenAbove(rest, parent);
    ChildRecsCat(fa + rs[..seen], rest, parent);
    ChildRecsCat(fa, rs[..seen], parent);
  }

  lemma ListGoesOn(nodes: Img, s: seq<nat>, i: nat, parent: nat)
    requires i < |s|
    ensures ChildRecs(Flat(nodes, s[..i + 1]), parent) ==
      ChildRecs(Flat(nodes, s[..i]), parent) + ChildRecs(Recs(nodes, s[i]), parent)
  {
    hide Flat, ChildRecs;
    FlatAt(nodes, s, i);
    ChildRecsCat(Flat(nodes, s[..i]), Recs(nodes, s[i]), parent);
  }

  /** The leaves left of the one a descent reaches hold no match, if none sorts below. */
  lemma NoneLeft(nodes: Img, rows: seq<seq<nat>>, i: nat, p: int, m: Rec -> bool)
    requires rows != [] && i < |rows[|rows| - 1]| && AllBelow(Flat(nodes, rows[|rows| - 1][..i]), p)
    requires NoneBelow(Contents(nodes, rows), m, p)
    ensures !HasMatch(Flat(nodes, rows[|rows| - 1][..i]), m)
  {
    hide Flat;
    FlatAt(nodes, rows[|rows| - 1], i);
    var c, fa := Contents(nodes, rows), Flat(nodes, rows[|rows| - 1][..i]);
    assert forall j :: 0 <= j < |fa| ==> c[j] == fa[j];
  }

  lemma LookupStart(nodes: Img, rows: seq<seq<nat>>, path: seq<nat>, ci: seq<nat>, pos: seq<nat>, p: int,
      m: Rec -> bool)
    requires rows != [] && WholeFull(nodes, rows, 0) && PathOk(nodes, rows, path, ci, pos) && |path| == |rows|
    requires |ci| <= |path| && Followed(nodes, path, ci, p)
    ensures |pos| == |path| && pos[|path| - 1] < |rows[|rows| - 1]|
    ensures path[|path| - 1] == rows[|rows| - 1][pos[|path| - 1]]
    ensures path[|path| - 1] != 0
    ensures NoneBelow(Contents(nodes, rows), m, p) ==>
      !HasMatch(Flat(nodes, rows[|rows| - 1][..pos[|path| - 1]]), m)
  {
    hide Flat, WF, AllFull, PathOk, Followed, HasMatch, NoneBelow, Contents;
    PathLengths(nodes, rows, path, ci, pos);
    LeftOfLeaf(nodes, rows, path, ci, pos, p);
    NextLeaf(nodes, rows, pos[|path| - 1]);
    if NoneBelow(Contents(nodes, rows), m, p) {
      NoneLeft(nodes, rows, pos[|path| - 1], p, m);
    }
  }

  lemma NoMatchNext(nodes: Img, s: seq<nat>, i: nat, m: Rec -> bool)
    requires i < |s| && !HasMatch(Flat(nodes, s[..i]), m) && !HasMatch(Recs(nodes, s[i]), m)
    ensures !HasMatch(Flat(nodes, s[..i + 1]), m)
  {
    hide Flat;
    FlatAt(nodes, s, i);
    var fa, rs := Flat(nodes, s[..i]), Recs(nodes, s[i]);
    forall j | 0 <= j < |fa + rs| ensures !m((fa + rs)[j]) {
      assert (fa + rs)[j] == if j < |fa| then fa[j] else rs[j - |fa|];
    }
  }

  lemma FoundHere(nodes: Img, rows: seq<seq<nat>>, i: nat, x: nat, m: Rec -> bool)
    requires rows != [] && i < |rows[|rows| - 1]| && x < |Recs(nodes, rows[|rows| - 1][i])|
    requires m(Recs(nodes, rows[|rows| - 1][i])[x])
    ensures Recs(nodes, rows[|rows| - 1][i])[x] in Contents(nodes, rows) && HasMatch(Contents(nodes, rows), m)
  {
    hide Flat;
    LeafRecord(nodes, rows[|rows| - 1], i, x);
  }

  /** Beyond a later folder's record no match can come. */
  lemma PastIt(nodes: Img, rows: seq<seq<nat>>, i: nat, x: nat, p: int, m: Rec -> bool)
    requires rows != [] && Whole(nodes, rows, 0) && i < |rows[|rows| - 1]| && InFolder(m, ParentOf(p))
    requires var rs := Recs(nodes, rows[|rows| - 1][i]);
      x < |rs| && ParentOf(rs[x].key) > ParentOf(p) && forall j :: 0 <= j < x ==> !m(rs[j])
    requires !HasMatch(Flat(nodes, rows[|rows| - 1][..i]), m)
    ensures !HasMatch(Contents(nodes, rows), m)
  {
    hide Flat, WF, ParentOf;
    var s := rows[|rows| - 1];
    FlatAt(nodes, s, i);
    ContentsAsc(nodes, rows);
    var c, fa, rs := Contents(nodes, rows), Flat(nodes, s[..i]), Recs(nodes, s[i]);
    assert c[|fa| + x] == rs[x];
    forall j | 0 <= j < |c| ensures !m(c[j]) {
      if j < |fa| {
        assert c[j] == fa[j];
      } else if j < |fa| + x {
        assert c[j] == rs[j - |fa|];
      } else {
        ParentMonotone(rs[x].key, c[j].key);
      }
    }
  }
}
