/** The allocation bitmap as a sequence of bits: counting, runs, and marking runs used. */
module Bitmap {
  import opened Nodes

  /** Block 0 is the most significant bit of byte 0. */
  function Mask(k: nat): bv8
    requires k < 8
  {
    (0x80 as bv8) >> k
  }

  predicate BitOf(bytes: seq<bv8>, n: nat) {
    n / 8 < |bytes| && bytes[n / 8] & Mask(n % 8) != 0
  }

  /** A block beyond the bitmap counts as used. */
  predicate UsedIn(bytes: seq<bv8>, n: nat) {
    n / 8 >= |bytes| || BitOf(bytes, n)
  }

  /** The blocks of a volume of `bits` blocks: used or not. */
  function MapOf(bytes: seq<bv8>, bits: nat): (u: seq<bool>)
    ensures |u| == bits && forall i :: 0 <= i < bits ==> u[i] == UsedIn(bytes, i)
  {
    seq(bits, i requires 0 <= i < bits => UsedIn(bytes, i))
  }

  lemma MaskOr(b: bv8, i: nat, j: nat)
    requires i < 8 && j < 8
    ensures (b | Mask(i)) & Mask(j) != 0 <==> i == j || b & Mask(j) != 0
  {
    MaskValue(i);
    MaskValue(j);
  }

  lemma MaskAndNot(b: bv8, i: nat, j: nat)
    requires i < 8 && j < 8
    ensures (b & !Mask(i)) & Mask(j) != 0 <==> i != j && b & Mask(j) != 0
  {
    MaskValue(i);
    MaskValue(j);
  }

  /** Block 0 of a byte is its most significant bit, block 7 the least. */
  lemma MaskValue(i: nat)
    requires i < 8
    ensures Mask(i) == (if i == 0 then 0x80 else if i == 1 then 0x40 else if i == 2 then 0x20 else if i == 3 then 0x10
      else if i == 4 then 0x08 else if i == 5 then 0x04 else if i == 6 then 0x02 else 0x01)
  {
  }

  lemma SameBlock(n: nat, m: nat)
    ensures n == m <==> n / 8 == m / 8 && n % 8 == m % 8
  {
  }

  lemma ByteSet(bytes: seq<bv8>, k: nat, v: bv8, m: nat)
    requires k < |bytes|
    ensures BitOf(bytes[k := v], m) <==> if m / 8 == k then v & Mask(m % 8) != 0 else BitOf(bytes, m)
  {
    hide Mask;
  }

  lemma ByteIs(bytes: seq<bv8>, m: nat)
    requires m / 8 < |bytes|
    ensures BitOf(bytes, m) <==> bytes[m / 8] & Mask(m % 8) != 0
  {
    hide Mask;
  }

  /** Setting bit `n` sets that bit and no other. */
  lemma SetBit(bytes: seq<bv8>, n: nat, m: nat)
    requires n / 8 < |bytes|
    ensures BitOf(bytes[n / 8 := bytes[n / 8] | Mask(n % 8)], m) <==> m == n || BitOf(bytes, m)
  {
    hide Mask, BitOf;
    SameBlock(n, m);
    ByteSet(bytes, n / 8, bytes[n / 8] | Mask(n % 8), m);
    if m / 8 == n / 8 {
      ByteIs(bytes, m);
      MaskOr(bytes[n / 8], n % 8, m % 8);
    }
  }

  lemma ClearBit(bytes: seq<bv8>, n: nat, m: nat)
    requires n / 8 < |bytes|
    ensures BitOf(bytes[n / 8 := bytes[n / 8] & !Mask(n % 8)], m) <==> m != n && BitOf(bytes, m)
  {
    hide Mask, BitOf;
    SameBlock(n, m);
    ByteSet(bytes, n / 8, bytes[n / 8] & !Mask(n % 8), m);
    if m / 8 == n / 8 {
      ByteIs(bytes, m);
      MaskAndNot(bytes[n / 8], n % 8, m % 8);
    }
  }

  lemma SetUse(bytes: seq<bv8>, n: nat, m: nat)
    requires n / 8 < |bytes|
    ensures UsedIn(bytes[n / 8 := bytes[n / 8] | Mask(n % 8)], m) == (m == n || UsedIn(bytes, m))
  {
    hide Mask, BitOf;
    SetBit(bytes, n, m);
  }

  lemma ClearUse(bytes: seq<bv8>, n: nat, m: nat)
    requires n / 8 < |bytes|
    ensures UsedIn(bytes[n / 8 := bytes[n / 8] & !Mask(n % 8)], m) == (UsedIn(bytes, m) && (m != n || m / 8 >= |bytes|))
  {
    hide Mask, BitOf;
    ClearBit(bytes, n, m);
  }

  /** Bytes with the same bits are the same bytes. */
  lemma SameBits(a: seq<bv8>, b: seq<bv8>)
    requires |a| == |b| && forall n: nat :: n < 8 * |a| ==> BitOf(a, n) == BitOf(b, n)
    ensures a == b
  {
    forall i | 0 <= i < |a| ensures a[i] == b[i] {
      forall k: nat | k < 8 ensures a[i] & Mask(k) != 0 <==> b[i] & Mask(k) != 0 {
        assert (8 * i + k) / 8 == i && (8 * i + k) % 8 == k;
        assert BitOf(a, 8 * i + k) == BitOf(b, 8 * i + k);
      }
      SameByte(a[i], b[i]);
    }
  }

  lemma SameByte(x: bv8, y: bv8)
    requires forall k: nat :: k < 8 ==> (x & Mask(k) != 0 <==> y & Mask(k) != 0)
    ensures x == y
  {
    MaskValue(0); MaskValue(1); MaskValue(2); MaskValue(3);
    MaskValue(4); MaskValue(5); MaskValue(6); MaskValue(7);
    assert x & Mask(0) != 0 <==> y & Mask(0) != 0;
    assert x & Mask(1) != 0 <==> y & Mask(1) != 0;
    assert x & Mask(2) != 0 <==> y & Mask(2) != 0;
    assert x & Mask(3) != 0 <==> y & Mask(3) != 0;
    assert x & Mask(4) != 0 <==> y & Mask(4) != 0;
    assert x & Mask(5) != 0 <==> y & Mask(5) != 0;
    assert x & Mask(6) != 0 <==> y & Mask(6) != 0;
    assert x & Mask(7) != 0 <==> y & Mask(7) != 0;
  }

  // ---- counting ----

  /** Free blocks. */
  function Free(u: seq<bool>): nat {
    if u == [] then 0 else Free(u[..|u| - 1]) + (if u[|u| - 1] then 0 else 1)
  }

  lemma FreeNext(u: seq<bool>, n: nat)
    requires n < |u|
    ensures Free(u[..n + 1]) == Free(u[..n]) + (if u[n] then 0 else 1)
  {
    assert u[..n + 1][..n] == u[..n];
  }

  lemma {:induction false} FreeMonotone(u: seq<bool>, m: nat, n: nat)
    requires m <= n <= |u|
    ensures Free(u[..m]) <= Free(u[..n])
    decreases n
  {
    if m < n {
      FreeMonotone(u, m, n - 1);
      FreeNext(u, n - 1);
    }
  }

  ghost predicate AllFree(u: seq<bool>, start: nat, count: nat) {
    start + count <= |u| && forall i :: start <= i < start + count ==> !u[i]
  }

  /** No run of `count` free blocks starts below block `end`. */
  ghost predicate NoRunBelow(u: seq<bool>, end: nat, count: nat) {
    forall s: nat :: s < end ==> !AllFree(u, s, count)
  }

  ghost predicate NoRun(u: seq<bool>, count: nat) {
    forall s: nat :: !AllFree(u, s, count)
  }

  /** Taking a set of free blocks lowers the free count by their number; `took` is given block by block. */
  function Mark(u: seq<bool>, start: nat, count: nat): (v: seq<bool>)
    requires start + count <= |u|
    ensures |v| == |u|
    ensures forall i :: 0 <= i < |u| ==> v[i] == (u[i] || start <= i < start + count)
  {
    seq(|u|, i requires 0 <= i < |u| => u[i] || start <= i < start + count)
  }

  lemma {:induction false} FreeOfRun(u: seq<bool>, start: nat, count: nat, n: nat)
    requires AllFree(u, start, count) && n <= |u|
    ensures var v := Mark(u, start, count);
      Free(v[..n]) == Free(u[..n]) - (if n <= start then 0 else if n <= start + count then n - start else count)
    decreases n
  {
    if n > 0 {
      FreeOfRun(u, start, count, n - 1);
      FreeNext(u, n - 1);
      FreeNext(Mark(u, start, count), n - 1);
    } else {
      assert u[..0] == [] && Mark(u, start, count)[..0] == [];
    }
  }

  /** Marking a free run takes exactly its length off the free count. */
  lemma FreeMark(u: seq<bool>, start: nat, count: nat)
    requires AllFree(u, start, count)
    ensures Free(Mark(u, start, count)) == Free(u) - count
  {
    FreeOfRun(u, start, count, |u|);
    assert u[..|u|] == u && Mark(u, start, count)[..|u|] == Mark(u, start, count);
  }

  // ---- lists of runs ----

  predicate InRun(r: Extent, i: int) {
    r.start <= i < r.start + r.count
  }

  ghost predicate Within(runs: seq<Extent>, i: int) {
    exists k :: 0 <= k < |runs| && InRun(runs[k], i)
  }

  /** Nonempty runs in ascending block order, apart from each other, ending at or before `end`. */
  ghost predicate Ascending(runs: seq<Extent>, end: int) {
    && (forall k :: 0 <= k < |runs| ==> runs[k].count > 0 && runs[k].start + runs[k].count <= end)
    && (forall j, k :: 0 <= j < k < |runs| ==> runs[j].start + runs[j].count <= runs[k].start)
  }

  /** The runs cover only blocks free in `u`. */
  ghost predicate Took(u: seq<bool>, runs: seq<Extent>) {
    forall i :: 0 <= i < |u| && Within(runs, i) ==> !u[i]
  }

  /** `v` is `u` with exactly the blocks of `runs` marked used. */
  ghost predicate MarkedBy(u: seq<bool>, v: seq<bool>, runs: seq<Extent>) {
    |v| == |u| && forall i :: 0 <= i < |u| ==> v[i] == (u[i] || Within(runs, i))
  }

  function Blocks(runs: seq<Extent>): nat {
    if runs == [] then 0 else Blocks(runs[..|runs| - 1]) + runs[|runs| - 1].count
  }

  lemma WithinNext(runs: seq<Extent>, r: Extent, i: int)
    ensures Within(runs + [r], i) <==> Within(runs, i) || InRun(r, i)
  {
    var all := runs + [r];
    assert all[|runs|] == r;
    assert forall k :: 0 <= k < |runs| ==> all[k] == runs[k];
  }

  lemma NoRuns(u: seq<bool>)
    ensures Ascending([], 0) && Took(u, []) && Blocks([]) == 0 && Free(u[..0]) == 0
    ensures forall i: int :: !Within([], i)
  {
    assert u[..0] == [];
  }

  /** One more run, beyond the others. */
  lemma AnotherRun(u: seq<bool>, runs: seq<Extent>, start: nat, count: nat, end: nat)
    requires Ascending(runs, start) && Took(u, runs) && count > 0 && start + count <= end
    requires AllFree(u, start, count)
    ensures var all := runs + [Extent(start, count)];
      Ascending(all, end) && Took(u, all) && Blocks(all) == Blocks(runs) + count
    ensures forall i: int :: Within(runs + [Extent(start, count)], i) <==> Within(runs, i) || start <= i < start + count
  {
    var r := Extent(start, count);
    var all := runs + [r];
    forall i: int ensures Within(all, i) <==> Within(runs, i) || start <= i < start + count {
      WithinNext(runs, r, i);
    }
    assert all[..|runs|] == runs;
  }

  lemma AscendingFurther(runs: seq<Extent>, end: int, end': int)
    requires Ascending(runs, end) && end <= end'
    ensures Ascending(runs, end')
  {
  }

  /** The first of the remaining runs, and the others, apart from it. */
  lemma WithinTail(runs: seq<Extent>, j: nat, end: int, i: int)
    requires j < |runs| && Ascending(runs, end)
    ensures Within(runs[j..], i) <==> InRun(runs[j], i) || Within(runs[j + 1..], i)
    ensures InRun(runs[j], i) ==> !Within(runs[j + 1..], i)
    ensures Within(runs[j..], i) ==> Within(runs, i)
  {
    var a, b := runs[j..], runs[j + 1..];
    assert a[0] == runs[j] && forall k :: 0 <= k < |b| ==> b[k] == a[k + 1] == runs[j + 1 + k];
    if k :| 0 <= k < |b| && InRun(b[k], i) {
      assert InRun(a[k + 1], i);
    }
    if k :| 0 <= k < |a| && InRun(a[k], i) {
      assert InRun(runs[j + k], i);
      assert k > 0 ==> InRun(b[k - 1], i);
    }
    assert InRun(runs[j], i) ==> InRun(a[0], i);
  }

  /** All blocks below some point are used, and the rest are as before: the free blocks taken are the lowest. */
  ghost predicate Lowest(u: seq<bool>, v: seq<bool>) {
    |v| == |u| && exists e: nat :: Lowered(u, v, e)
  }

  ghost predicate Lowered(u: seq<bool>, v: seq<bool>, e: nat)
    requires |v| == |u|
  {
    e <= |u| && (forall i :: 0 <= i < e ==> v[i]) && (forall i :: e <= i < |u| ==> v[i] == u[i])
  }

  /** The walk over the free runs stands at block `n`, with `runLen` free blocks before it not yet taken. */
  ghost predicate Walked(u: seq<bool>, v: seq<bool>, n: nat, runStart: nat, runLen: nat) {
    && |v| == |u| && runLen <= n <= |u| && (runLen > 0 ==> runStart == n - runLen)
    && (forall i :: n - runLen <= i < n ==> !u[i])
    && Lowered(u, v, n - runLen)
  }
}
