/** Block allocation: first fit for a contiguous run, the lowest free blocks otherwise. */
module Allocators {
  import opened Nodes
  import opened Bitmap

  class Allocator {
    const bitmap: array<bv8>
    const bits: nat

    constructor (bitmap: array<bv8>, bits: nat)
      ensures this.bitmap == bitmap && this.bits == bits
    {
      this.bitmap, this.bits := bitmap, bits;
    }

    /** Whether block `n` is used. */
    predicate Test(n: nat)
      reads bitmap
      ensures Test(n) <==> UsedIn(bitmap[..], n)
    {
      n / 8 >= bitmap.Length || bitmap[n / 8] & Mask(n % 8) != 0
    }

    /** The blocks of the volume: used or not. */
    ghost function Map(): (u: seq<bool>)
      reads bitmap
      ensures |u| == bits && forall i :: 0 <= i < bits ==> u[i] == Test(i)
    {
      MapOf(bitmap[..], bits)
    }

    method Set(n: nat)
      requires n / 8 < bitmap.Length
      modifies bitmap
      ensures forall m: nat :: Test(m) == (m == n || old(Test(m)))
    {
      hide Mask, UsedIn, Test;
      ghost var was := bitmap[..];
      bitmap[n / 8] := bitmap[n / 8] | Mask(n % 8);
      assert bitmap[..] == was[n / 8 := was[n / 8] | Mask(n % 8)];
      forall m: nat ensures Test(m) == (m == n || old(Test(m))) {
        SetUse(was, n, m);
      }
    }

    method Clear(n: nat)
      modifies bitmap
      ensures forall m: nat :: Test(m) == (old(Test(m)) && (m != n || m / 8 >= bitmap.Length))
    {
      if n / 8 < bitmap.Length {
        hide Mask, UsedIn, Test;
        ghost var was := bitmap[..];
        bitmap[n / 8] := bitmap[n / 8] & !Mask(n % 8);
        assert bitmap[..] == was[n / 8 := was[n / 8] & !Mask(n % 8)];
        forall m: nat ensures Test(m) == (old(Test(m)) && (m != n || m / 8 >= bitmap.Length)) {
          ClearUse(was, n, m);
        }
      }
    }

    /** Marks a run of free blocks. */
    method SetRun(start: nat, count: nat)
      requires AllFree(Map(), start, count)
      modifies bitmap
      ensures Map() == Mark(old(Map()), start, count)
      ensures forall m: nat :: Test(m) == (old(Test(m)) || start <= m < start + count)
    {
      hide Test;
      for i := start to start + count
        invariant forall m: nat :: Test(m) == (old(Test(m)) || start <= m < i)
      {
        assert !Map()[i];
        Set(i);
      }
      IsMark(old(Map()), Map(), start, count);
    }

    /** Clears `count` blocks from `start` on. */
    method FreeRun(start: nat, count: nat)
      modifies bitmap
      ensures forall m: nat :: Test(m) == (old(Test(m)) && !(start <= m < start + count && m / 8 < bitmap.Length))
    {
      for i := start to start + count
        invariant forall m: nat :: Test(m) == (old(Test(m)) && !(start <= m < i && m / 8 < bitmap.Length))
      {
        Clear(i);
      }
    }

    /** The blocks the bitmap has free. */
    method FreeCount() returns (free: nat)
      ensures free == Free(Map())
    {
      free := 0;
      ghost var u := Map();
      assert u[..0] == [];
      for n := 0 to bits
        invariant free == Free(u[..n])
      {
        FreeNext(u, n);
        if !Test(n) {
          free := free + 1;
        }
      }
      assert u[..bits] == u;
    }

    /** The scan for the lowest run of `count` free blocks. */
    method FindRun(count: nat) returns (ok: bool, start: nat)
      requires count > 0
      ensures ok ==> AllFree(Map(), start, count) && NoRunBelow(Map(), start, count)
      ensures !ok ==> NoRun(Map(), count)
    {
      hide Test, AllFree, MapOf, Scanned, NoRun, NoRunBelow;
      ghost var u := Map();
      var run: nat := 0;
      start := 0;
      ScanStarts(u, count);
      for n := 0 to bits
        invariant run <= n && run < count && (run > 0 ==> start == n - run)
        invariant Scanned(u, n, run, count)
      {
        if Test(n) {
          ScanUsed(u, n, run, count);
          run := 0;
        } else {
          ScanFree(u, n, run, count);
          if run == 0 {
            start := n;
          }
          run := run + 1;
          if run == count {
            return true, start;
          }
        }
      }
      ScanEnds(u, run, count);
      return false, 0;
    }

    /** The lowest contiguous run of `count` free blocks, marked used. */
    method AllocContiguous(count: nat) returns (ok: bool, start: nat)
      modifies bitmap
      ensures ok && count > 0 ==> AllFree(old(Map()), start, count) && Map() == Mark(old(Map()), start, count)
      ensures ok && count > 0 ==> NoRunBelow(old(Map()), start, count)
      ensures !ok ==> NoRun(old(Map()), count)
      ensures !ok || count == 0 ==> bitmap[..] == old(bitmap[..])
      ensures count == 0 ==> ok && start == 0
    {
      hide Test, MapOf, NoRun, NoRunBelow;
      if count == 0 {
        return true, 0;
      }
      ok, start := FindRun(count);
      if ok {
        SetRun(start, count);
      }
    }

    /** `count` free blocks: the lowest contiguous run of that length, or else the lowest free blocks of the volume
        as ascending runs. With too few free blocks everything taken is given back. */
    method AllocFragments(count: nat) returns (ok: bool, runs: seq<Extent>)
      modifies bitmap
      ensures ok <==> count <= Free(old(Map()))
      ensures !ok ==> bitmap[..] == old(bitmap[..])
      ensures ok ==>
        Ascending(runs, bits) && Took(old(Map()), runs) && MarkedBy(old(Map()), Map(), runs) && Blocks(runs) == count
      ensures ok && count > 0 && !NoRun(old(Map()), count) ==>
        |runs| == 1 && NoRunBelow(old(Map()), runs[0].start, count)
      ensures ok && NoRun(old(Map()), count) ==> Lowest(old(Map()), Map())
    {
      ghost var u := Map();
      if count == 0 {
        NoRuns(u);
        NothingMarked(u);
        return true, [];
      }
      var start;
      ok, start := AllocContiguous(count);
      if ok {
        runs := [Extent(start, count)];
        OneRun(u, Map(), start, count);
        RunExists(u, start, count);
        return;
      }
      ok, runs := TakeLowest(count);
    }

    /** The bitmap is `was` with the blocks of `runs` marked. */
    ghost predicate Taken(was: seq<bv8>, runs: seq<Extent>)
      reads bitmap
    {
      |was| == bitmap.Length && forall m: nat :: Test(m) == (UsedIn(was, m) || Within(runs, m))
    }

    /** The fragment fallback: walks the free runs, taking each in turn until `count` blocks are found. */
    method TakeLowest(count: nat) returns (ok: bool, runs: seq<Extent>)
      requires count > 0
      modifies bitmap
      ensures ok <==> count <= Free(old(Map()))
      ensures !ok ==> bitmap[..] == old(bitmap[..])
      ensures ok ==>
        Ascending(runs, bits) && Took(old(Map()), runs) && MarkedBy(old(Map()), Map(), runs) && Blocks(runs) == count
      ensures ok ==> Lowest(old(Map()), Map())
    {
      hide Ascending, Took, Blocks, Free, Within, Lowered, UsedIn, MapOf;
      ghost var u, was := Map(), bitmap[..];
      runs := [];
      var remaining: nat, runStart: nat, runLen: nat, n: nat := count, 0, 0, 0;
      NoRuns(u);
      WalkStarts(u);
      while n < bits && remaining > 0
        invariant n <= bits && runLen <= remaining <= count && (runLen == remaining ==> remaining == 0)
        invariant Taken(was, runs) && Ascending(runs, n - runLen) && Took(u, runs)
        invariant Walked(u, Map(), n, runStart, runLen)
        invariant Blocks(runs) == count - remaining && Free(u[..n]) == count - remaining + runLen
        decreases bits - n
      {
        FreeNext(u, n);
        WalkAt(u, Map(), n, runStart, runLen);
        if Test(n) {
          runs, remaining, runLen := TakeRun(runs, remaining, runStart, runLen, n, u, was);
          AscendingFurther(runs, n, n + 1);
          WalkUsed(u, Map(), n, runStart);
        } else {
          if runLen == 0 {
            runStart := n;
          }
          runLen := runLen + 1;
          WalkFree(u, Map(), n, runStart, runLen);
          if runLen == remaining {
            runs, remaining, runLen := TakeRun(runs, remaining, runStart, runLen, n + 1, u, was);
          }
        }
        n := n + 1;
      }
      runs, remaining, runLen := TakeRun(runs, remaining, runStart, runLen, n, u, was);
      FreeMonotone(u, n, bits);
      assert u[..bits] == u;
      ok := remaining == 0;
      AscendingFurther(runs, n, bits);
      if !ok {
        GiveBack(runs, u, was);
      } else {
        TakenIsMarked(was, runs, u);
      }
    }

    /** `flush`: marks the run found so far and records it. */
    method TakeRun(runs0: seq<Extent>, remaining0: nat, runStart: nat, runLen: nat, n: nat, ghost u: seq<bool>,
        ghost was: seq<bv8>)
      returns (runs: seq<Extent>, remaining: nat, left: nat)
      requires runLen <= remaining0 && runLen <= n <= bits
      requires Taken(was, runs0) && Ascending(runs0, n - runLen) && Took(u, runs0)
      requires Walked(u, Map(), n, runStart, runLen)
      modifies bitmap
      ensures left == 0 && remaining == remaining0 - runLen && Blocks(runs) == Blocks(runs0) + runLen
      ensures Taken(was, runs) && Ascending(runs, n) && Took(u, runs) && Walked(u, Map(), n, runStart, 0)
    {
      hide Ascending, Took, Blocks, Within, UsedIn, MapOf;
      runs, remaining, left := runs0, remaining0, 0;
      if runLen > 0 {
        AnotherRun(u, runs, runStart, runLen, n);
        SetRun(runStart, runLen);
        runs := runs + [Extent(runStart, runLen)];
        remaining := remaining - runLen;
      }
    }

    lemma TakenIsMarked(was: seq<bv8>, runs: seq<Extent>, u: seq<bool>)
      requires Taken(was, runs) && u == MapOf(was, bits)
      ensures MarkedBy(u, Map(), runs)
    {
      hide UsedIn, Within;
    }

    /** Clears the blocks of every run taken: the bitmap is what it was. */
    method GiveBack(runs: seq<Extent>, ghost u: seq<bool>, ghost was: seq<bv8>)
      requires Taken(was, runs) && Ascending(runs, bits) && Took(u, runs) && u == MapOf(was, bits)
      modifies bitmap
      ensures bitmap[..] == was
    {
      hide Blocks, Within, Ascending, Took;
      hide Test, UsedIn, BitOf, MapOf;
      for j := 0 to |runs|
        invariant Taken(was, runs[j..])
      {
        FreeRun(runs[j].start, runs[j].count);
        forall m: nat ensures Test(m) == (UsedIn(was, m) || Within(runs[j + 1..], m)) {
          RunGiven(runs, u, was, j, bits, m);
        }
      }
      NoRuns(u);
      assert runs[|runs|..] == [];
      SameUse(bitmap[..], was);
    }
  }

  /** A block after run `j` is given back: used before, or in a run still to be given back. */
  lemma RunGiven(runs: seq<Extent>, u: seq<bool>, was: seq<bv8>, j: nat, bits: nat, m: nat)
    requires j < |runs| && Ascending(runs, bits) && Took(u, runs) && u == MapOf(was, bits)
    ensures UsedIn(was, m) || Within(runs[j + 1..], m) <==>
      (UsedIn(was, m) || Within(runs[j..], m)) && !(runs[j].start <= m < runs[j].start + runs[j].count && m / 8 < |was|)
  {
    hide Within, Ascending, Took, BitOf;
    WithinTail(runs, j, bits, m);
    if InRun(runs[j], m) {
      TookFree(u, runs, m, bits);
    }
  }

  /** Bitmaps of one length that agree on every block are the same. */
  lemma SameUse(a: seq<bv8>, b: seq<bv8>)
    requires |a| == |b| && forall m: nat :: UsedIn(a, m) == UsedIn(b, m)
    ensures a == b
  {
    hide BitOf;
    forall n: nat | n < 8 * |a| ensures BitOf(a, n) == BitOf(b, n) {
      assert UsedIn(a, n) == UsedIn(b, n);
    }
    SameBits(a, b);
  }

  /** The scan for a run of `count` free blocks stands at block `n`, after exactly `run` free ones; none was found. */
  ghost predicate Scanned(u: seq<bool>, n: nat, run: nat, count: nat) {
    && run <= n <= |u| && (forall i :: n - run <= i < n ==> !u[i]) && (run < n ==> u[n - run - 1])
    && forall s: nat :: s + count <= n ==> !AllFree(u, s, count)
  }

  lemma ScanStarts(u: seq<bool>, count: nat)
    requires count > 0
    ensures Scanned(u, 0, 0, count)
  {
  }

  lemma ScanUsed(u: seq<bool>, n: nat, run: nat, count: nat)
    requires Scanned(u, n, run, count) && n < |u| && u[n] && count > 0
    ensures Scanned(u, n + 1, 0, count)
  {
    forall s: nat | s + count == n + 1 ensures !AllFree(u, s, count) {
      assert s <= n < s + count;
    }
  }

  lemma ScanFree(u: seq<bool>, n: nat, run: nat, count: nat)
    requires Scanned(u, n, run, count) && n < |u| && !u[n] && run < count
    ensures run + 1 < count ==> Scanned(u, n + 1, run + 1, count)
    ensures run + 1 == count ==> AllFree(u, n - run, count) && NoRunBelow(u, n - run, count)
  {
    forall s: nat | s < n - run ensures !AllFree(u, s, count) {
      assert s + count <= n || s <= n - run - 1 < s + count;
    }
  }

  lemma ScanEnds(u: seq<bool>, run: nat, count: nat)
    requires Scanned(u, |u|, run, count)
    ensures NoRun(u, count)
  {
  }

  lemma IsMark(u: seq<bool>, v: seq<bool>, start: nat, count: nat)
    requires |v| == |u| && start + count <= |u| && forall i :: 0 <= i < |u| ==>
      v[i] == (u[i] || start <= i < start + count)
    ensures v == Mark(u, start, count)
  {
  }

  lemma TookFree(u: seq<bool>, runs: seq<Extent>, m: nat, end: nat)
    requires Took(u, runs) && Within(runs, m) && Ascending(runs, end) && end <= |u|
    ensures m < |u| && !u[m]
  {
  }

  lemma NothingMarked(u: seq<bool>)
    ensures Ascending([], |u|) && MarkedBy(u, u, []) && Lowest(u, u)
  {
    assert Lowered(u, u, 0);
  }

  lemma WalkStarts(u: seq<bool>)
    ensures Walked(u, u, 0, 0, 0)
  {
  }

  lemma WalkAt(u: seq<bool>, v: seq<bool>, n: nat, runStart: nat, runLen: nat)
    requires Walked(u, v, n, runStart, runLen) && n < |u|
    ensures u[n] == v[n]
  {
  }

  lemma WalkUsed(u: seq<bool>, v: seq<bool>, n: nat, runStart: nat)
    requires Walked(u, v, n, runStart, 0) && n < |u| && u[n]
    ensures Walked(u, v, n + 1, runStart, 0)
  {
  }

  lemma WalkFree(u: seq<bool>, v: seq<bool>, n: nat, runStart: nat, runLen: nat)
    requires runLen > 0 && n < |u| && !u[n] && runStart + runLen == n + 1
    requires |v| == |u| && runLen - 1 <= n && (forall i :: n - (runLen - 1) <= i < n ==> !u[i])
    requires Lowered(u, v, n - (runLen - 1))
    ensures Walked(u, v, n + 1, runStart, runLen)
  {
  }

  lemma RunExists(u: seq<bool>, start: nat, count: nat)
    requires AllFree(u, start, count)
    ensures !NoRun(u, count)
  {
  }

  lemma OneRun(u: seq<bool>, v: seq<bool>, start: nat, count: nat)
    requires count > 0 && AllFree(u, start, count) && v == Mark(u, start, count)
    ensures var runs := [Extent(start, count)];
      Ascending(runs, |u|) && Took(u, runs) && MarkedBy(u, v, runs) && Blocks(runs) == count
    ensures count <= Free(u)
  {
    hide Took, Blocks, Free, Within;
    NoRuns(u);
    AnotherRun(u, [], start, count, |u|);
    assert [] + [Extent(start, count)] == [Extent(start, count)];
    FreeMark(u, start, count);
  }
}
