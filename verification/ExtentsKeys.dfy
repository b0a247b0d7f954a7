/** Keys, records and extent lists of the extents-overflow tree. */
module ExtentsKeys {
  import opened Nodes

  /** Extents in a fork descriptor, and in one overflow record. */
  const INLINE := 8

  datatype ExtentsKey = ExtentsKey(forkType: nat, fileID: nat, startBlock: nat)

  datatype Fork = Fork(fileID: nat, forkType: nat)

  predicate KeyOk(k: ExtentsKey) {
    k.forkType < 0x100 && k.fileID < U32 && k.startBlock < U32
  }

  predicate ForkOk(f: Fork) {
    f.forkType < 0x100 && f.fileID < U32
  }

  // ---- key order ----

  /** By file ID, then fork type, then start block. */
  function CompareExtentsKey(a: ExtentsKey, b: ExtentsKey): int {
    if a.fileID != b.fileID then (if a.fileID < b.fileID then -1 else 1)
    else if a.forkType != b.forkType then (if a.forkType < b.forkType then -1 else 1)
    else if a.startBlock != b.startBlock then (if a.startBlock < b.startBlock then -1 else 1)
    else 0
  }

  /** The key as the integer the tree model compares. */
  function Rank(k: ExtentsKey): nat {
    (k.fileID * 0x100 + k.forkType) * U32 + k.startBlock
  }

  function KeyOf(n: nat): ExtentsKey {
    ExtentsKey(n / U32 % 0x100, n / U32 / 0x100, n % U32)
  }

  /** Ranks are ordered as `CompareExtentsKey` orders the keys, and determine them. */
  lemma RankOrder(a: ExtentsKey, b: ExtentsKey)
    requires KeyOk(a) && KeyOk(b)
    ensures CompareExtentsKey(a, b) < 0 <==> Rank(a) < Rank(b)
    ensures CompareExtentsKey(a, b) == 0 <==> Rank(a) == Rank(b)
    ensures CompareExtentsKey(a, b) == 0 <==> a == b
    ensures Rank(a) < Rank(b) <==>
      || a.fileID < b.fileID
      || (a.fileID == b.fileID && a.forkType < b.forkType)
      || (a.fileID == b.fileID && a.forkType == b.forkType && a.startBlock < b.startBlock)
  {
  }

  lemma KeyOfRank(k: ExtentsKey)
    requires KeyOk(k)
    ensures KeyOf(Rank(k)) == k
  {
    var f := k.fileID * 0x100 + k.forkType;
    DivMod(f, k.startBlock);
    assert f / 0x100 == k.fileID && f % 0x100 == k.forkType;
  }

  lemma DivMod(q: nat, r: nat)
    requires r < U32
    ensures (q * U32 + r) / U32 == q && (q * U32 + r) % U32 == r
  {
  }

  function ForkNumber(f: Fork): nat {
    f.fileID * 0x100 + f.forkType
  }

  predicate OfFork(r: Rec, f: Fork) {
    r.key / U32 == ForkNumber(f)
  }

  /** `OfFork` compares the two key fields. */
  lemma OfForkIsFields(r: Rec, f: Fork)
    requires ForkOk(f) && r.key >= 0
    ensures OfFork(r, f) <==> KeyOf(r.key).fileID == f.fileID && KeyOf(r.key).forkType == f.forkType
  {
    var q := r.key / U32;
    assert q == q / 0x100 * 0x100 + q % 0x100;
  }

  // ---- extent lists ----

  function Sum(exts: seq<Extent>): nat {
    if exts == [] then 0 else exts[0].count + Sum(exts[1..])
  }

  lemma {:induction false} SumCat(a: seq<Extent>, b: seq<Extent>)
    ensures Sum(a + b) == Sum(a) + Sum(b)
  {
    if a == [] {
      assert a + b == b;
    } else {
      SumCat(a[1..], b);
      assert (a + b)[1..] == a[1..] + b;
    }
  }

  ghost predicate Nonempty(exts: seq<Extent>) {
    forall i :: 0 <= i < |exts| ==> exts[i].count > 0
  }

  /** Descriptors are read up to the first one with no blocks. */
  function Used(slots: seq<Extent>): seq<Extent> {
    if slots == [] || slots[0].count == 0 then [] else [slots[0]] + Used(slots[1..])
  }

  function Pad(exts: seq<Extent>): seq<Extent>
    requires |exts| <= INLINE
  {
    exts + seq(INLINE - |exts|, _ => Extent(0, 0))
  }

  lemma {:induction false} UsedCat(exts: seq<Extent>, rest: seq<Extent>)
    requires Nonempty(exts)
    ensures Used(exts + rest) == exts + Used(rest)
  {
    if exts == [] {
      assert exts + rest == rest;
    } else {
      assert (exts + rest)[1..] == exts[1..] + rest;
      UsedCat(exts[1..], rest);
    }
  }

  lemma UsedPad(exts: seq<Extent>)
    requires |exts| <= INLINE && Nonempty(exts)
    ensures Used(Pad(exts)) == exts
  {
    UsedCat(exts, seq(INLINE - |exts|, _ => Extent(0, 0)));
  }

  // ---- records ----

  function RunsOf(r: Rec): seq<Extent> {
    match r.data
    case Slots(slots) => Used(slots)
    case _ => []
  }

  /** An overflow record: a key in range and eight descriptors. */
  predicate IsExtentRec(r: Rec) {
    r.klen == 12 && r.data.Slots? && |r.data.runs| == INLINE && 0 <= r.key < U32 * U32 * 0x100
  }

  function GroupRec(f: Fork, block: nat, group: seq<Extent>): (r: Rec)
    requires |group| <= INLINE
    ensures block < U32 ==> OfFork(r, f)
    ensures ForkOk(f) && block < U32 ==> IsExtentRec(r)
  {
    var k := ExtentsKey(f.forkType, f.fileID, block);
    DivModIf(ForkNumber(f), block);
    Rec(Rank(k), 12, Slots(Pad(group)))
  }

  lemma DivModIf(q: nat, r: nat)
    ensures r < U32 ==> (q * U32 + r) / U32 == q
  {
  }

  function GroupLen(exts: seq<Extent>): (n: nat)
    ensures n <= INLINE && n <= |exts| && (exts != [] ==> n > 0)
  {
    if |exts| < INLINE then |exts| else INLINE
  }

  /** The records `insertExtentRecords` writes: groups of eight, keyed by the fork block they start at. */
  function Groups(f: Fork, block: nat, exts: seq<Extent>): seq<Rec>
    decreases |exts|
  {
    if exts == [] then []
    else
      var n := GroupLen(exts);
      [GroupRec(f, block, exts[..n])] + Groups(f, (block + Sum(exts[..n])) % U32, exts[n..])
  }

  function Replaced(recs: seq<Rec>, r: Rec): seq<Rec> {
    InsertSorted(Without(recs, r.key), r)
  }

  function ReplaceAll(recs: seq<Rec>, gs: seq<Rec>): seq<Rec>
    decreases |gs|
  {
    if gs == [] then recs else ReplaceAll(Replaced(recs, gs[0]), gs[1..])
  }

  function IfOf(r: Rec, f: Fork): seq<Rec> {
    if OfFork(r, f) then [r] else []
  }

  function IfNotOf(r: Rec, f: Fork): seq<Rec> {
    if OfFork(r, f) then [] else [r]
  }

  /** The records of one fork. */
  function Select(recs: seq<Rec>, f: Fork): seq<Rec> {
    if recs == [] then [] else IfOf(recs[0], f) + Select(recs[1..], f)
  }

  /** The records of the other forks. */
  function Others(recs: seq<Rec>, f: Fork): seq<Rec> {
    if recs == [] then [] else IfNotOf(recs[0], f) + Others(recs[1..], f)
  }

  function AllRuns(recs: seq<Rec>): seq<Extent> {
    if recs == [] then [] else RunsOf(recs[0]) + AllRuns(recs[1..])
  }

  /** What one record adds to the runs of a fork from block `start` on. */
  function RunsHere(r: Rec, f: Fork, start: nat): seq<Extent> {
    if OfFork(r, f) && start <= r.key % U32 then RunsOf(r) else []
  }

  /** The runs of a fork from block `start` on. */
  function RunsFrom(recs: seq<Rec>, f: Fork, start: nat): seq<Extent> {
    if recs == [] then [] else RunsHere(recs[0], f, start) + RunsFrom(recs[1..], f, start)
  }

  lemma Assoc<T>(a: seq<T>, b: seq<T>, c: seq<T>)
    ensures (a + b) + c == a + (b + c)
  {
  }

  lemma {:induction false} SelectCat(a: seq<Rec>, b: seq<Rec>, f: Fork)
    ensures Select(a + b, f) == Select(a, f) + Select(b, f)
  {
    hide IfOf;
    if a == [] {
      assert a + b == b;
    } else {
      SelectCat(a[1..], b, f);
      assert (a + b)[1..] == a[1..] + b && (a + b)[0] == a[0];
      Assoc(IfOf(a[0], f), Select(a[1..], f), Select(b, f));
    }
  }

  lemma {:induction false} OthersCat(a: seq<Rec>, b: seq<Rec>, f: Fork)
    ensures Others(a + b, f) == Others(a, f) + Others(b, f)
  {
    hide IfNotOf;
    if a == [] {
      assert a + b == b;
    } else {
      OthersCat(a[1..], b, f);
      assert (a + b)[1..] == a[1..] + b && (a + b)[0] == a[0];
      Assoc(IfNotOf(a[0], f), Others(a[1..], f), Others(b, f));
    }
  }

  lemma {:induction false} RunsFromCat(a: seq<Rec>, b: seq<Rec>, f: Fork, start: nat)
    ensures RunsFrom(a + b, f, start) == RunsFrom(a, f, start) + RunsFrom(b, f, start)
  {
    hide RunsHere;
    if a == [] {
      assert a + b == b;
    } else {
      RunsFromCat(a[1..], b, f, start);
      assert (a + b)[1..] == a[1..] + b && (a + b)[0] == a[0];
      Assoc(RunsHere(a[0], f, start), RunsFrom(a[1..], f, start), RunsFrom(b, f, start));
    }
  }

  /** Only the fork's own records matter for its runs. */
  lemma {:induction false} RunsFromSelect(recs: seq<Rec>, f: Fork, start: nat)
    ensures RunsFrom(recs, f, start) == RunsFrom(Select(recs, f), f, start)
  {
    hide OfFork, RunsOf;
    if recs != [] {
      RunsFromSelect(recs[1..], f, start);
      RunsFromCat(IfOf(recs[0], f), Select(recs[1..], f), f, start);
      if OfFork(recs[0], f) {
        assert [recs[0]][1..] == [];
      }
    }
  }

  // ---- replacing records of a fork ----

  lemma SelectSplit(recs: seq<Rec>, f: Fork, n: nat)
    requires n <= |recs|
    ensures Select(recs, f) == Select(recs[..n], f) + Select(recs[n..], f)
    ensures Others(recs, f) == Others(recs[..n], f) + Others(recs[n..], f)
  {
    hide Select, Others;
    assert recs == recs[..n] + recs[n..];
    SelectCat(recs[..n], recs[n..], f);
    OthersCat(recs[..n], recs[n..], f);
  }

  lemma {:induction false} SelectWithout(recs: seq<Rec>, f: Fork, k: int)
    ensures Select(Without(recs, k), f) == Without(Select(recs, f), k)
  {
    if recs != [] {
      SelectWithout(recs[1..], f, k);
      var head := if recs[0].key == k then [] else [recs[0]];
      SelectCat(head, Without(recs[1..], k), f);
      WithoutCat(IfOf(recs[0], f), Select(recs[1..], f), k);
      OneRec(recs[0], f, k);
    }
  }

  lemma OneRec(r: Rec, f: Fork, k: int)
    ensures Select([r], f) == IfOf(r, f) && Others([r], f) == IfNotOf(r, f)
    ensures Without([r], k) == if r.key == k then [] else [r]
    ensures Select([], f) == [] && Others([], f) == [] && Without([], k) == []
  {
    assert [r][1..] == [];
  }

  lemma {:induction false} OthersWithout(recs: seq<Rec>, f: Fork, k: int)
    requires k / U32 == ForkNumber(f)
    ensures Others(Without(recs, k), f) == Others(recs, f)
  {
    if recs != [] {
      OthersWithout(recs[1..], f, k);
      var head := if recs[0].key == k then [] else [recs[0]];
      OthersCat(head, Without(recs[1..], k), f);
      OneRec(recs[0], f, k);
    }
  }

  lemma {:induction false} WithoutCat(a: seq<Rec>, b: seq<Rec>, k: int)
    ensures Without(a + b, k) == Without(a, k) + Without(b, k)
  {
    if a == [] {
      assert a + b == b;
    } else {
      WithoutCat(a[1..], b, k);
      assert (a + b)[1..] == a[1..] + b && (a + b)[0] == a[0];
      Assoc(if a[0].key == k then [] else [a[0]], Without(a[1..], k), Without(b, k));
    }
  }

  lemma {:induction false} SelectBelow(recs: seq<Rec>, f: Fork, k: int)
    ensures (forall i :: 0 <= i < |recs| ==> recs[i].key < k) ==>
      forall i :: 0 <= i < |Select(recs, f)| ==> Select(recs, f)[i].key < k
    ensures (forall i :: 0 <= i < |recs| ==> k <= recs[i].key) ==>
      forall i :: 0 <= i < |Select(recs, f)| ==> k <= Select(recs, f)[i].key
  {
    if recs != [] {
      SelectBelow(recs[1..], f, k);
    }
  }

  /** Inserting a record of the fork inserts it among the fork's records and leaves the others. */
  lemma SelectInsert(recs: seq<Rec>, f: Fork, r: Rec)
    requires Asc(recs) && OfFork(r, f)
    ensures Select(InsertSorted(recs, r), f) == InsertSorted(Select(recs, f), r)
    ensures Others(InsertSorted(recs, r), f) == Others(recs, f)
  {
    hide LowerBound, Select, Others, OfFork;
    var n := LowerBound(recs, r.key);
    var a, b := recs[..n], recs[n..];
    SelectSplit(recs, f, n);
    SelectCat(a + [r], b, f);
    SelectCat(a, [r], f);
    OthersCat(a + [r], b, f);
    OthersCat(a, [r], f);
    SelectOne(r, f);
    assert forall i :: 0 <= i < |b| ==> b[i] == recs[n + i];
    SelectBelow(a, f, r.key);
    SelectBelow(b, f, r.key);
    InsertBetween(Select(a, f), Select(b, f), r);
  }

  lemma SelectOne(r: Rec, f: Fork)
    requires OfFork(r, f)
    ensures Select([r], f) == [r] && Others([r], f) == []
  {
    assert [r][1..] == [];
  }

  lemma InsertBetween(a: seq<Rec>, b: seq<Rec>, r: Rec)
    requires forall i :: 0 <= i < |a| ==> a[i].key < r.key
    requires forall i :: 0 <= i < |b| ==> r.key <= b[i].key
    ensures InsertSorted(a + b, r) == a + [r] + b
  {
    LowerBoundAt(a + b, r.key, |a|);
  }

  lemma {:induction false} WithoutMembers(recs: seq<Rec>, k: int)
    ensures forall x :: x in Without(recs, k) <==> x in recs && x.key != k
  {
    if recs != [] {
      WithoutMembers(recs[1..], k);
      assert recs == [recs[0]] + recs[1..];
    }
  }

  lemma {:induction false} WithoutAsc(recs: seq<Rec>, k: int)
    requires Asc(recs)
    ensures Asc(Without(recs, k)) && !HasKey(Without(recs, k), k)
    ensures forall x :: x in Without(recs, k) <==> x in recs && x.key != k
  {
    hide Asc, HasKey;
    WithoutMembers(recs, k);
    NoneWithKey(Without(recs, k), k);
    if recs == [] {
      AscFew();
    } else {
      AscTail(recs);
      WithoutAsc(recs[1..], k);
      if recs[0].key != k {
        ConsAsc(recs[0], Without(recs[1..], k));
      } else {
        assert [] + Without(recs[1..], k) == Without(recs[1..], k);
      }
    }
  }

  lemma NoneWithKey(w: seq<Rec>, k: int)
    requires forall x :: x in w ==> x.key != k
    ensures !HasKey(w, k)
  {
    forall i | 0 <= i < |w| ensures w[i].key != k {
      assert w[i] in w;
    }
  }

  lemma AscFew()
    ensures Asc([])
  {
  }

  lemma AscTail(recs: seq<Rec>)
    requires Asc(recs) && recs != []
    ensures Asc(recs[1..]) && forall x :: x in recs[1..] ==> recs[0].key < x.key
  {
  }

  lemma ConsAsc(r: Rec, w: seq<Rec>)
    requires Asc(w) && forall x :: x in w ==> r.key < x.key
    ensures Asc([r] + w)
  {
    forall i | 0 <= i < |w| ensures r.key < w[i].key {
      assert w[i] in w;
    }
  }

  lemma ReplacedAsc(recs: seq<Rec>, r: Rec)
    requires Asc(recs)
    ensures Asc(Replaced(recs, r))
    ensures forall x :: x in Replaced(recs, r) <==> x == r || (x in recs && x.key != r.key)
  {
    hide Without;
    WithoutAsc(recs, r.key);
    InsertedAsc(Without(recs, r.key), r);
  }

  lemma InsertedAsc(w: seq<Rec>, r: Rec)
    requires Asc(w) && !HasKey(w, r.key)
    ensures Asc(InsertSorted(w, r))
    ensures forall x :: x in InsertSorted(w, r) <==> x == r || x in w
  {
    hide LowerBound;
    var n := LowerBound(w, r.key);
    assert n < |w| ==> r.key < w[n].key;
    assert w == w[..n] + w[n..];
  }

  lemma SelectReplaced(recs: seq<Rec>, f: Fork, r: Rec)
    requires Asc(recs) && OfFork(r, f)
    ensures Select(Replaced(recs, r), f) == Replaced(Select(recs, f), r)
    ensures Others(Replaced(recs, r), f) == Others(recs, f)
  {
    hide Without, InsertSorted, Select, Others;
    WithoutAsc(recs, r.key);
    SelectWithout(recs, f, r.key);
    OthersWithout(recs, f, r.key);
    SelectInsert(Without(recs, r.key), f, r);
  }

  ghost predicate AllOfFork(gs: seq<Rec>, f: Fork) {
    forall i :: 0 <= i < |gs| ==> OfFork(gs[i], f)
  }

  lemma {:induction false} SelectReplaceAll(recs: seq<Rec>, f: Fork, gs: seq<Rec>)
    requires Asc(recs) && AllOfFork(gs, f)
    ensures Asc(ReplaceAll(recs, gs))
    ensures Select(ReplaceAll(recs, gs), f) == ReplaceAll(Select(recs, f), gs)
    ensures Others(ReplaceAll(recs, gs), f) == Others(recs, f)
    decreases |gs|
  {
    if gs != [] {
      ReplacedAsc(recs, gs[0]);
      SelectReplaced(recs, f, gs[0]);
      SelectReplaceAll(Replaced(recs, gs[0]), f, gs[1..]);
    }
  }

  // ---- groups keep their keys ----

  /** The keys of `old` are the first keys of `gs`. */
  ghost predicate KeysPrefix(was: seq<Rec>, gs: seq<Rec>) {
    |was| <= |gs| && forall i :: 0 <= i < |was| ==> was[i].key == gs[i].key
  }

  lemma {:induction false} ReplaceInPlace(done: seq<Rec>, was: seq<Rec>, gs: seq<Rec>)
    requires Asc(done + gs) && KeysPrefix(was, gs)
    ensures ReplaceAll(done + was, gs) == done + gs
    decreases |gs|
  {
    hide Replaced, Asc;
    if gs == [] {
      assert was == [];
    } else {
      var rest := if was == [] then [] else was[1..];
      ReplaceOne(done, was, gs);
      assert done + gs == (done + [gs[0]]) + gs[1..];
      assert done + [gs[0]] + rest == (done + [gs[0]]) + rest;
      ReplaceInPlace(done + [gs[0]], rest, gs[1..]);
    }
  }

  /** The next group goes behind the groups already written, in place of the old group with its key. */
  lemma ReplaceOne(done: seq<Rec>, was: seq<Rec>, gs: seq<Rec>)
    requires Asc(done + gs) && KeysPrefix(was, gs) && gs != []
    ensures var rest := if was == [] then [] else was[1..];
      Replaced(done + was, gs[0]) == done + [gs[0]] + rest
  {
    var all := done + gs;
    var rest := if was == [] then [] else was[1..];
    var r := gs[0];
    assert all[|done|] == r;
    forall i | 0 <= i < |done| ensures done[i].key < r.key {
      assert all[i] == done[i];
    }
    forall i | 0 <= i < |rest| ensures r.key < rest[i].key {
      assert rest[i] == was[i + 1] && all[|done| + i + 1] == gs[i + 1];
    }
    WithoutCat(done, was, r.key);
    WithoutAbsent(done, r.key);
    WithoutAbsent(rest, r.key);
    assert Without(was, r.key) == rest;
    var w := done + rest;
    assert |done| < |w| ==> w[|done|] == rest[0];
    LowerBoundAt(w, r.key, |done|);
    assert w[..|done|] == done && w[|done|..] == rest;
  }

  /** A list of groups that starts at block `start`: ascending keys of the fork, none below the start. */
  ghost predicate GroupsFrom(gs: seq<Rec>, f: Fork, start: nat) {
    && Asc(gs) && AllOfFork(gs, f)
    && forall i :: 0 <= i < |gs| ==> ForkNumber(f) * U32 + start <= gs[i].key
  }

  lemma {:induction false} GroupsAsc(f: Fork, block: nat, exts: seq<Extent>)
    requires Nonempty(exts) && block + Sum(exts) < U32
    ensures GroupsFrom(Groups(f, block, exts), f, block)
    decreases |exts|
  {
    hide OfFork, ForkNumber, Sum, Groups, GroupRec, GroupsFrom, Nonempty;
    if exts == [] {
      NoGroupsFrom(f, block);
    } else {
      var a, b := GroupsCons(f, block, exts);
      GroupsAsc(f, block + Sum(a), b);
      GroupRecKey(f, block, a);
      ConsGroups(GroupRec(f, block, a), Groups(f, block + Sum(a), b), f, block, block + Sum(a));
    }
  }

  lemma NoGroupsFrom(f: Fork, block: nat)
    ensures GroupsFrom(Groups(f, block, []), f, block)
  {
  }

  /** The first group of a list whose blocks stay below 2^32, and the rest. */
  lemma GroupsCons(f: Fork, block: nat, exts: seq<Extent>) returns (a: seq<Extent>, b: seq<Extent>)
    requires Nonempty(exts) && exts != [] && block + Sum(exts) < U32
    ensures exts == a + b && a == exts[..GroupLen(exts)] && b == exts[GroupLen(exts)..]
    ensures 0 < |a| <= INLINE && |b| < |exts| && Nonempty(a) && Nonempty(b) && Sum(exts) == Sum(a) + Sum(b)
    ensures Sum(a) > 0
    ensures Groups(f, block, exts) == [GroupRec(f, block, a)] + Groups(f, block + Sum(a), b)
  {
    hide Sum, GroupRec;
    var n := GroupLen(exts);
    a, b := exts[..n], exts[n..];
    assert exts == a + b;
    SumCat(a, b);
    SumPositive(a);
    Below32(block + Sum(a));
  }

  lemma Below32(n: nat)
    requires n < U32
    ensures n % U32 == n
  {
  }

  lemma GroupRecKey(f: Fork, block: nat, group: seq<Extent>)
    requires |group| <= INLINE && block < U32
    ensures GroupRec(f, block, group).key == ForkNumber(f) * U32 + block && OfFork(GroupRec(f, block, group), f)
    ensures GroupRec(f, block, group).key % U32 == block
  {
    DivMod(ForkNumber(f), block);
  }

  lemma ConsGroups(r: Rec, gs: seq<Rec>, f: Fork, start: nat, next: nat)
    requires r.key == ForkNumber(f) * U32 + start && OfFork(r, f) && start < next && GroupsFrom(gs, f, next)
    ensures GroupsFrom([r] + gs, f, start)
  {
    hide OfFork, ForkNumber;
  }

  lemma SumPositive(exts: seq<Extent>)
    requires Nonempty(exts) && exts != []
    ensures Sum(exts) > 0
  {
  }

  /** A longer list has the same leading keys: only the last group of the shorter one changes its data. */
  lemma {:induction false} GroupsExtend(f: Fork, block: nat, exts: seq<Extent>, more: seq<Extent>)
    ensures KeysPrefix(Groups(f, block, exts), Groups(f, block, exts + more))
    decreases |exts|
  {
    if exts != [] {
      var all := exts + more;
      var n := GroupLen(exts);
      if |exts| >= INLINE {
        assert all[..n] == exts[..n] && all[n..] == exts[n..] + more;
        GroupsExtend(f, (block + Sum(exts[..n])) % U32, exts[n..], more);
      } else {
        assert exts[n..] == [];
      }
    }
  }

  lemma {:induction false} GroupsRuns(f: Fork, block: nat, exts: seq<Extent>, start: nat)
    requires Nonempty(exts) && start <= block && block + Sum(exts) < U32
    ensures RunsFrom(Groups(f, block, exts), f, start) == exts
    decreases |exts|
  {
    hide OfFork, Sum, Groups, GroupRec, Nonempty, RunsHere;
    if exts == [] {
      NoExtents(f, block);
    } else {
      var a, b := GroupsCons(f, block, exts);
      GroupRunsHere(f, block, a, start);
      GroupsRuns(f, block + Sum(a), b, start);
    }
  }

  /** A group's record holds the group. */
  lemma GroupRunsHere(f: Fork, block: nat, a: seq<Extent>, start: nat)
    requires |a| <= INLINE && Nonempty(a) && start <= block < U32
    ensures RunsHere(GroupRec(f, block, a), f, start) == a && RunsOf(GroupRec(f, block, a)) == a
  {
    hide ForkNumber, Pad, Used, OfFork;
    UsedPad(a);
    GroupRecKey(f, block, a);
  }

  // ---- spilling a fork's extents, and reading them back ----

  /** The first eight extents, which the fork descriptor holds. */
  function Inline(all: seq<Extent>): seq<Extent> {
    all[..GroupLen(all)]
  }

  function Overflow(all: seq<Extent>): seq<Extent> {
    all[GroupLen(all)..]
  }

  /** The fork's records are exactly the groups of its extents beyond the eighth. */
  ghost predicate Spilled(recs: seq<Rec>, f: Fork, all: seq<Extent>) {
    Select(recs, f) == Groups(f, Sum(Inline(all)), Overflow(all))
  }

  /** `resolveForkExtents`: blocks are counted in 32 bits. */
  function Resolve(inline: seq<Extent>, total: nat, recs: seq<Rec>, f: Fork): seq<Extent> {
    var exts := Used(inline);
    var covered := Sum(exts) % U32;
    if covered >= total then exts else exts + Upto(RunsFrom(recs, f, covered), covered, total)
  }

  function Upto(more: seq<Extent>, covered: nat, total: nat): seq<Extent> {
    if more == [] then []
    else
      var c := (covered + more[0].count) % U32;
      [more[0]] + (if c >= total then [] else Upto(more[1..], c, total))
  }

  lemma {:induction false} UptoAll(more: seq<Extent>, covered: nat)
    requires Nonempty(more) && covered + Sum(more) < U32
    ensures Upto(more, covered, covered + Sum(more)) == more
    decreases |more|
  {
    if more != [] {
      var c, rest := covered + more[0].count, more[1..];
      Below32(c);
      assert more == [more[0]] + rest;
      if rest == [] {
        NoBlocks();
      } else {
        SumPositive(rest);
        UptoAll(rest, c);
      }
    }
  }

  lemma NoBlocks()
    ensures Sum([]) == 0
  {
  }

  /** Reading back gives the list that was written. */
  lemma SpillRoundTrip(recs: seq<Rec>, f: Fork, all: seq<Extent>)
    requires Nonempty(all) && Sum(all) < U32 && Spilled(recs, f, all)
    ensures Resolve(Pad(Inline(all)), Sum(all), recs, f) == all
  {
    hide Sum, Used, Pad, RunsFrom, Upto, Groups, Select, Inline, Overflow, Nonempty;
    InlineParts(all);
    var a, b := Inline(all), Overflow(all);
    Below32(Sum(a));
    if b != [] {
      SumPositive(b);
      RunsFromSelect(recs, f, Sum(a));
      GroupsRuns(f, Sum(a), b, Sum(a));
      UptoAll(b, Sum(a));
    }
  }

  /** The extents in the fork descriptor and those beyond it. */
  lemma InlineParts(all: seq<Extent>)
    requires Nonempty(all)
    ensures var a, b := Inline(all), Overflow(all);
      && all == a + b && |a| <= INLINE && Nonempty(a) && Nonempty(b) && Sum(all) == Sum(a) + Sum(b)
      && Used(Pad(a)) == a && (b == [] ==> Sum(b) == 0)
  {
    hide Sum, Used, Pad, Nonempty;
    assert all == Inline(all) + Overflow(all);
    FirstPart(Inline(all), Overflow(all));
    UsedPad(Inline(all));
    NoBlocks();
  }

  /** The overflow tree after a fork with extents `all` grew by `runs`. */
  function AfterGrowth(recs: seq<Rec>, f: Fork, all: seq<Extent>, runs: seq<Extent>): seq<Rec> {
    var all' := all + runs;
    if |all'| > INLINE then ReplaceAll(recs, Groups(f, Sum(Inline(all')), Overflow(all'))) else recs
  }

  /** The fork's records have the keys of the first groups of the longer list. */
  lemma OldGroups(recs: seq<Rec>, f: Fork, all: seq<Extent>, runs: seq<Extent>)
    requires Nonempty(all + runs) && Sum(all + runs) < U32 && Spilled(recs, f, all) && |all + runs| > INLINE
    ensures KeysPrefix(Select(recs, f), Groups(f, Sum(Inline(all + runs)), Overflow(all + runs)))
  {
    hide Sum, Groups, Select, KeysPrefix;
    var all' := all + runs;
    if |all| >= INLINE {
      assert Inline(all') == Inline(all) && Overflow(all') == Overflow(all) + runs;
      InlineParts(all');
      GroupsExtend(f, Sum(Inline(all')), Overflow(all), runs);
    } else {
      assert Overflow(all) == [];
      NoExtents(f, Sum(Inline(all)));
      NoPrefix(Groups(f, Sum(Inline(all')), Overflow(all')));
    }
  }

  lemma NoPrefix(gs: seq<Rec>)
    ensures KeysPrefix([], gs)
  {
  }

  /** Growth rewrites the groups in place: the records stay the groups of the longer list, and no other fork's
      change. */
  lemma GrowthSpills(recs: seq<Rec>, f: Fork, all: seq<Extent>, runs: seq<Extent>)
    requires Asc(recs) && Nonempty(all + runs) && Sum(all + runs) < U32 && Spilled(recs, f, all)
    ensures var recs' := AfterGrowth(recs, f, all, runs);
      Asc(recs') && Spilled(recs', f, all + runs) && Others(recs', f) == Others(recs, f)
  {
    hide Sum, Groups, Select, Others, ReplaceAll, OfFork, KeysPrefix, Nonempty, Asc, AllOfFork, GroupsFrom;
    var all' := all + runs;
    if |all'| > INLINE {
      OldGroups(recs, f, all, runs);
      InlineParts(all');
      GroupsReplace(recs, f, Sum(Inline(all')), Overflow(all'));
    } else {
      assert Overflow(all) == [] && Overflow(all') == [];
      NoExtents(f, Sum(Inline(all)));
      NoExtents(f, Sum(Inline(all')));
    }
  }

  /** Groups written over records with the keys of the first of them. */
  lemma GroupsReplace(recs: seq<Rec>, f: Fork, start: nat, exts: seq<Extent>)
    requires Asc(recs) && Nonempty(exts) && start + Sum(exts) < U32
    requires KeysPrefix(Select(recs, f), Groups(f, start, exts))
    ensures var recs' := ReplaceAll(recs, Groups(f, start, exts));
      Asc(recs') && Select(recs', f) == Groups(f, start, exts) && Others(recs', f) == Others(recs, f)
  {
    hide Sum, Groups, Select, Others, ReplaceAll, OfFork, KeysPrefix, Nonempty, Asc, AllOfFork;
    var gs := Groups(f, start, exts);
    GroupsAsc(f, start, exts);
    SelectReplaceAll(recs, f, gs);
    assert [] + gs == gs && [] + Select(recs, f) == Select(recs, f);
    ReplaceInPlace([], Select(recs, f), gs);
  }

  lemma NoExtents(f: Fork, block: nat)
    ensures Groups(f, block, []) == []
  {
  }

  function AfterHistory(recs: seq<Rec>, f: Fork, all: seq<Extent>, history: seq<seq<Extent>>): seq<Rec>
    decreases |history|
  {
    if history == [] then recs
    else AfterHistory(AfterGrowth(recs, f, all, history[0]), f, all + history[0], history[1..])
  }

  function Joined(history: seq<seq<Extent>>): seq<Extent> {
    if history == [] then [] else history[0] + Joined(history[1..])
  }

  /** After any history of growth the fork reads back as all the runs it was ever given. */
  lemma {:induction false} HistoryRoundTrip(recs: seq<Rec>, f: Fork, all: seq<Extent>, history: seq<seq<Extent>>)
    requires Asc(recs) && Nonempty(all + Joined(history)) && Sum(all + Joined(history)) < U32 && Spilled(recs, f, all)
    ensures var now := all + Joined(history);
      var recs' := AfterHistory(recs, f, all, history);
      && Spilled(recs', f, now) && Others(recs', f) == Others(recs, f)
      && Resolve(Pad(Inline(now)), Sum(now), recs', f) == now
    decreases |history|
  {
    hide AfterGrowth, Spilled, Resolve, Sum, Nonempty, Pad, Inline, Others, Asc;
    if history == [] {
      assert all + [] == all;
      SpillRoundTrip(recs, f, all);
    } else {
      Assoc(all, history[0], Joined(history[1..]));
      FirstPart(all + history[0], Joined(history[1..]));
      GrowthSpills(recs, f, all, history[0]);
      HistoryRoundTrip(AfterGrowth(recs, f, all, history[0]), f, all + history[0], history[1..]);
    }
  }

  lemma FirstPart(a: seq<Extent>, b: seq<Extent>)
    requires Nonempty(a + b)
    ensures Nonempty(a) && Nonempty(b) && Sum(a + b) == Sum(a) + Sum(b)
  {
    hide Sum;
    SumCat(a, b);
    assert forall i :: 0 <= i < |a| ==> a[i] == (a + b)[i];
    assert forall i :: 0 <= i < |b| ==> b[i] == (a + b)[|a| + i];
  }
}
