/** B-tree records and nodes: what `editNode` holds after a node is parsed.

    A record is its key, the encoded length of that key, and its data. Keys are integers: the engine
    only ever compares them, and `ExtentsKeys.dfy` and `NameOrder.dfy` prove that the extents-overflow
    and catalog orders embed into the integers. */
module Nodes {

  /** A run of allocation blocks (an extent descriptor). */
  datatype Extent = Extent(start: nat, count: nat)

  /** Record data: an index record's child, an extents record's eight slots, or opaque bytes. */
  datatype Data = Child(num: nat) | Slots(runs: seq<Extent>) | Bytes(bytes: seq<nat>)

  datatype Rec = Rec(key: int, klen: nat, data: Data)

  datatype Kind = Leaf | Index | Header | MapNode

  datatype Node = Node(kind: Kind, height: nat, flink: nat, blink: nat, recs: seq<Rec>)

  const DESCRIPTOR_LEN := 14
  const U32 := 0x1_0000_0000

  /** What parsing an all-zero node yields: kind byte 0, no links, no records. */
  const Erased := Node(Index, 0, 0, 0, [])

  function DataLen(d: Data): nat {
    match d
    case Child(_) => 4
    case Slots(runs) => 8 * |runs|
    case Bytes(bytes) => |bytes|
  }

  /** Encoded length: the key is padded to an even length before the data. */
  function RecLen(r: Rec): nat {
    r.klen + r.klen % 2 + DataLen(r.data)
  }

  function SumLen(rs: seq<Rec>): nat {
    if rs == [] then 0 else RecLen(rs[0]) + SumLen(rs[1..])
  }

  /** Bytes a node's records take, with the descriptor and the offset table. */
  function UsedBytes(rs: seq<Rec>): nat {
    DESCRIPTOR_LEN + 2 * (|rs| + 1) + SumLen(rs)
  }

  predicate Fits(nodeSize: nat, rs: seq<Rec>) {
    UsedBytes(rs) <= nodeSize
  }

  function IndexRec(of: Rec, child: nat): Rec {
    Rec(of.key, of.klen, Child(child))
  }

  /** The child an index record names; 0 for a record that is none. */
  function Kid(r: Rec): nat {
    if r.data.Child? then r.data.num else 0
  }

  function Kids(rs: seq<Rec>): seq<nat> {
    seq(|rs|, i requires 0 <= i < |rs| => Kid(rs[i]))
  }

  ghost predicate Asc(rs: seq<Rec>) {
    forall i, j :: 0 <= i < j < |rs| ==> rs[i].key < rs[j].key
  }

  ghost predicate AllBelow(rs: seq<Rec>, p: int) {
    forall j :: 0 <= j < |rs| ==> rs[j].key < p
  }

  ghost predicate AllAbove(rs: seq<Rec>, p: int) {
    forall j :: 0 <= j < |rs| ==> p < rs[j].key
  }

  predicate HasKey(rs: seq<Rec>, k: int) {
    exists i :: 0 <= i < |rs| && rs[i].key == k
  }

  /** Where `sort.Search` puts a key: the number of leading records with a smaller key. */
  function LowerBound(rs: seq<Rec>, k: int): (n: nat)
    ensures n <= |rs|
    ensures forall i :: 0 <= i < n ==> rs[i].key < k
    ensures n < |rs| ==> k <= rs[n].key
  {
    if rs == [] || k <= rs[0].key then 0 else 1 + LowerBound(rs[1..], k)
  }

  /** The sequence with `r` put at its sorted place. */
  function InsertSorted(rs: seq<Rec>, r: Rec): seq<Rec> {
    var n := LowerBound(rs, r.key);
    rs[..n] + [r] + rs[n..]
  }

  /** The sequence without the records whose key is `k`. */
  function Without(rs: seq<Rec>, k: int): seq<Rec> {
    if rs == [] then [] else (if rs[0].key == k then [] else [rs[0]]) + Without(rs[1..], k)
  }

  lemma {:induction false} SumLenCat(a: seq<Rec>, b: seq<Rec>)
    ensures SumLen(a + b) == SumLen(a) + SumLen(b)
  {
    if a == [] {
      assert a + b == b;
    } else {
      SumLenCat(a[1..], b);
      assert (a + b)[1..] == a[1..] + b;
    }
  }

  lemma KidsCat(a: seq<Rec>, b: seq<Rec>)
    ensures Kids(a + b) == Kids(a) + Kids(b)
  {
  }

  /** In an ascending sequence the place of a key is fixed by its neighbours. */
  lemma {:induction false} LowerBoundAt(rs: seq<Rec>, k: int, n: nat)
    requires n <= |rs|
    requires forall i :: 0 <= i < n ==> rs[i].key < k
    requires n < |rs| ==> k <= rs[n].key
    ensures LowerBound(rs, k) == n
  {
    if n > 0 {
      LowerBoundAt(rs[1..], k, n - 1);
    }
  }

  lemma {:induction false} WithoutAbsent(rs: seq<Rec>, k: int)
    requires !HasKey(rs, k)
    ensures Without(rs, k) == rs
  {
    if rs != [] {
      assert forall i :: 0 <= i < |rs[1..]| ==> rs[1..][i] == rs[i + 1];
      WithoutAbsent(rs[1..], k);
    }
  }

  lemma {:induction false} WithoutAt(rs: seq<Rec>, i: nat)
    requires Asc(rs) && i < |rs|
    ensures Without(rs, rs[i].key) == rs[..i] + rs[i + 1..]
    decreases i
  {
    var k := rs[i].key;
    if i == 0 {
      assert !HasKey(rs[1..], k);
      WithoutAbsent(rs[1..], k);
    } else {
      assert rs[1..][i - 1] == rs[i];
      WithoutAt(rs[1..], i - 1);
      assert rs[0].key < k;
      assert rs[..i] + rs[i + 1..] == [rs[0]] + (rs[1..][..i - 1] + rs[1..][i..]);
    }
  }
}
