/** What a listing of a folder shows of the catalog the tree holds. */
module Listings {
  import opened Nodes
  import opened NodeFiles
  import opened BTreeWriters
  import opened ExtentsWriters
  import opened Repairs
  import opened NameOrder
  import opened CatalogReaders
  import opened Catalogs
  import opened Volumes
  import opened CatalogWriters

  /** The record types of the HFS Plus catalog, and the bytes a record needs to be read: a folder's is of type 1, a
      file's of type 2, the threads' of types 3 and 4. */
  predicate BodyOf(d: Data, e: Entry) {
    && d.Bytes? && |d.bytes| >= 2 && d.bytes[0] == 0
    && match e
       case Folder(_, _, _, _) => d.bytes[1] == 1 && |d.bytes| >= 14
       case File(_, _, _) => d.bytes[1] == 2 && |d.bytes| >= 168
       case Thread(_, _, folder) => d.bytes[1] == if folder then 3 else 4
  }

  ghost predicate Bodies(recs: seq<Rec>, dec: Data -> Entry) {
    forall x :: x in recs ==> BodyOf(x.data, dec(x.data))
  }

  /** A record for each child of the folder and nothing else, in key order. */
  ghost predicate Lists(out: seq<Rec>, cat: Cat, binary: bool, dec: Data -> Entry, p: nat) {
    && Asc(out) && |out| == |Children(cat, p)|
    && (forall x :: x in out ==> ShowsChild(x, cat, binary, dec, p))
    && (forall k :: k in Children(cat, p) ==> Stored(out, RankOf(k, binary), cat[k], dec))
  }

  /** The record is that of a file or folder in folder `p`. */
  ghost predicate ShowsChild(x: Rec, cat: Cat, binary: bool, dec: Data -> Entry, p: nat) {
    exists k :: k in cat && k.parent == p && !cat[k].Thread? && x.key == RankOf(k, binary) && dec(x.data) == cat[k]
  }

  lemma {:induction false} ChildRecsMembers(recs: seq<Rec>, p: nat)
    ensures forall x :: x in ChildRecs(recs, p) <==> x in recs && ParentOf(x.key) == p && IsEntry(x.data)
  {
    hide ParentOf, IsEntry;
    if recs != [] {
      ChildRecsMembers(recs[1..], p);
      assert recs == [recs[0]] + recs[1..];
    }
  }

  lemma {:induction false} ChildRecsAsc(recs: seq<Rec>, p: nat)
    requires Asc(recs)
    ensures Asc(ChildRecs(recs, p))
  {
    hide ParentOf, IsEntry;
    if recs != [] {
      ChildRecsAsc(recs[1..], p);
      ChildRecsMembers(recs[1..], p);
      var rest := ChildRecs(recs[1..], p);
      forall i | 0 <= i < |rest| ensures recs[0].key < rest[i].key {
        assert rest[i] in recs[1..];
      }
    }
  }

  lemma ParentShown(k: Key, binary: bool)
    requires NameOk(k.name)
    ensures ParentOf(RankOf(k, binary)) == k.parent
  {
    hide CatalogRank, Weight;
    ParentOfRank(CatalogKey(k.parent, k.name), binary);
  }

  /** Each record stands for one entry of the catalog. */
  lemma EntryOf(recs: seq<Rec>, cat: Cat, binary: bool, dec: Data -> Entry, x: Rec) returns (k: Key)
    requires Represents(recs, cat, binary, dec) && Asc(recs) && x in recs
    ensures k in cat && NameOk(k.name) && x.key == RankOf(k, binary) && dec(x.data) == cat[k]
  {
    hide RankOf, NameOk, Asc;
    assert Ranked(x.key, cat, binary);
    k :| k in cat && x.key == RankOf(k, binary);
    assert Stored(recs, RankOf(k, binary), cat[k], dec);
    var y :| y in recs && y.key == RankOf(k, binary) && dec(y.data) == cat[k];
    SameRecord(recs, x, y);
  }

  lemma SameRecord(recs: seq<Rec>, x: Rec, y: Rec)
    requires Asc(recs) && x in recs && y in recs && x.key == y.key
    ensures x == y
  {
  }

  lemma ChildShown(recs: seq<Rec>, cat: Cat, binary: bool, dec: Data -> Entry, p: nat, x: Rec)
    requires Represents(recs, cat, binary, dec) && Bodies(recs, dec) && Asc(recs) && x in ChildRecs(recs, p)
    ensures ShowsChild(x, cat, binary, dec, p)
  {
    hide RankOf, NameOk, Asc, Represents, ParentOf, ChildRecs;
    ChildRecsMembers(recs, p);
    var k := EntryOf(recs, cat, binary, dec, x);
    ParentShown(k, binary);
    assert BodyOf(x.data, dec(x.data));
  }

  lemma ChildListed(recs: seq<Rec>, cat: Cat, binary: bool, dec: Data -> Entry, p: nat, k: Key)
    requires Represents(recs, cat, binary, dec) && Bodies(recs, dec) && k in Children(cat, p)
    ensures Stored(ChildRecs(recs, p), RankOf(k, binary), cat[k], dec)
  {
    hide RankOf, NameOk, ParentOf, ChildRecs;
    ChildRecsMembers(recs, p);
    assert Stored(recs, RankOf(k, binary), cat[k], dec);
    var x :| x in recs && x.key == RankOf(k, binary) && dec(x.data) == cat[k];
    ParentShown(k, binary);
    assert BodyOf(x.data, dec(x.data));
    assert x in ChildRecs(recs, p);
  }

  ghost predicate RankedIn(x: Rec, keys: set<Key>, binary: bool) {
    exists k :: k in keys && x.key == RankOf(k, binary)
  }

  /** As many records as keys, when each record has one of the keys, each key a record, and no two the same. */
  lemma {:induction false} AsMany(out: seq<Rec>, keys: set<Key>, binary: bool)
    requires Asc(out) && forall x :: x in out ==> RankedIn(x, keys, binary)
    requires forall k :: k in keys ==> HasKey(out, RankOf(k, binary))
    requires forall j, k :: j in keys && k in keys && RankOf(j, binary) == RankOf(k, binary) ==> j == k
    ensures |out| == |keys|
    decreases |out|
  {
    hide RankOf;
    if out == [] {
      assert forall k :: k !in keys;
    } else {
      var n := |out| - 1;
      var rest := out[..n];
      assert RankedIn(out[n], keys, binary);
      var k :| k in keys && out[n].key == RankOf(k, binary);
      forall x | x in rest ensures RankedIn(x, keys - {k}, binary) {
        assert RankedIn(x, keys, binary);
        var j :| j in keys && x.key == RankOf(j, binary);
        assert j in keys - {k};
      }
      forall j | j in keys - {k} ensures HasKey(rest, RankOf(j, binary)) {
        var i :| 0 <= i < |out| && out[i].key == RankOf(j, binary);
        assert i != n && rest[i] == out[i];
      }
      AsMany(rest, keys - {k}, binary);
    }
  }

  /** A listing shows exactly the children of the folder. */
  lemma ListingIs(recs: seq<Rec>, cat: Cat, binary: bool, dec: Data -> Entry, p: nat)
    requires Represents(recs, cat, binary, dec) && Bodies(recs, dec) && Asc(recs)
    ensures Lists(ChildRecs(recs, p), cat, binary, dec, p)
  {
    hide RankOf, NameOk, Asc, ChildRecs, Bodies;
    var out, keys := ChildRecs(recs, p), Children(cat, p);
    ChildRecsAsc(recs, p);
    forall x | x in out ensures ShowsChild(x, cat, binary, dec, p) && RankedIn(x, keys, binary) {
      ChildShown(recs, cat, binary, dec, p, x);
      var k :| k in cat && k.parent == p && !cat[k].Thread? && x.key == RankOf(k, binary) && dec(x.data) == cat[k];
      assert k in keys;
    }
    forall k | k in keys ensures Stored(out, RankOf(k, binary), cat[k], dec) && HasKey(out, RankOf(k, binary)) {
      ChildListed(recs, cat, binary, dec, p, k);
      StoredKey(out, RankOf(k, binary), cat[k], dec);
    }
    AsMany(out, keys, binary);
  }

  /** `ListDir`, and the test of `DeleteDir`: the listing of a folder in a tree that holds a catalog. */
  method ListFolder(cr: CatalogReader, ghost cat: Cat, binary: bool, ghost dec: Data -> Entry, p: nat)
    returns (st: Status, out: seq<Rec>)
    requires cr.bw.Valid() && Represents(cr.bw.Records(), cat, binary, dec) && Bodies(cr.bw.Records(), dec)
    ensures cr.Reachable() ==> st == Status.Ok && Lists(out, cat, binary, dec, p)
    ensures cr.Reachable() ==> (out == [] <==> !HasChild(cat, p))
  {
    hide *;
    cr.bw.RecordsAsc();
    ListingIs(cr.bw.Records(), cat, binary, dec, p);
    st, out := cr.ListChildren(p);
    NoneListed(out, cat, binary, dec, p);
  }

  lemma NoneListed(out: seq<Rec>, cat: Cat, binary: bool, dec: Data -> Entry, p: nat)
    ensures Lists(out, cat, binary, dec, p) ==> (out == [] <==> !HasChild(cat, p))
  {
    hide RankOf;
    if k :| k in cat && k.parent == p && !cat[k].Thread? {
      assert k in Children(cat, p);
    } else {
      assert Children(cat, p) == {};
    }
  }
}
