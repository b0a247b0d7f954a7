/** Who holds which allocation block: the special files hold `sys`, each file the runs of its fork. */
module Owners {
  import opened Nodes
  import opened Bitmap
  import opened ExtentsKeys

  type Forks = map<nat, seq<Extent>>

  ghost predicate Held(forks: Forks, i: int) {
    exists c: nat :: c in forks && Within(forks[c], i)
  }

  /** No block lies in two of the runs. */
  ghost predicate Apart(runs: seq<Extent>) {
    forall j, k, i :: 0 <= j < k < |runs| && InRun(runs[j], i) ==> !InRun(runs[k], i)
  }

  /** The used blocks are exactly those held, and each is held once. */
  ghost predicate BlocksOk(u: seq<bool>, sys: seq<Extent>, forks: Forks) {
    && (forall i :: 0 <= i < |u| ==> (u[i] <==> Within(sys, i) || Held(forks, i)))
    && Apart(sys) && (forall i: int :: Within(sys, i) ==> 0 <= i < |u|)
    && (forall c: nat :: c in forks ==> ForkBlocksOk(u, sys, forks[c]))
    && (forall c: nat, d: nat, i: int ::
        c in forks && d in forks && c != d && Within(forks[c], i) ==> !Within(forks[d], i))
  }

  ghost predicate ForkBlocksOk(u: seq<bool>, sys: seq<Extent>, runs: seq<Extent>) {
    Apart(runs) && forall i: int :: Within(runs, i) ==> 0 <= i < |u| && !Within(sys, i)
  }

  lemma AscendingApart(runs: seq<Extent>, end: int)
    requires Ascending(runs, end)
    ensures Apart(runs)
    ensures forall i: int :: Within(runs, i) ==> 0 <= i < end
  {
  }

  lemma WithinCat(a: seq<Extent>, b: seq<Extent>, i: int)
    ensures Within(a + b, i) <==> Within(a, i) || Within(b, i)
  {
    var all := a + b;
    if k :| 0 <= k < |a| && InRun(a[k], i) {
      assert InRun(all[k], i);
    }
    if k :| 0 <= k < |b| && InRun(b[k], i) {
      assert InRun(all[|a| + k], i);
    }
    if k :| 0 <= k < |all| && InRun(all[k], i) {
      assert k < |a| ==> InRun(a[k], i);
      assert k >= |a| ==> InRun(b[k - |a|], i);
    }
  }

  lemma ApartCat(a: seq<Extent>, b: seq<Extent>)
    requires Apart(a) && Apart(b) && forall i: int :: Within(a, i) ==> !Within(b, i)
    ensures Apart(a + b)
  {
    var all := a + b;
    forall j, k, i | 0 <= j < k < |all| && InRun(all[j], i) ensures !InRun(all[k], i) {
      if j < |a| {
        assert InRun(a[j], i);
        assert Within(a, i);
        if k >= |a| {
          assert all[k] == b[k - |a|];
          assert InRun(b[k - |a|], i) ==> Within(b, i);
        }
      } else {
        assert all[j] == b[j - |a|] && all[k] == b[k - |a|];
      }
    }
  }

  /** Runs of different blocks below `n` hold at most `n` blocks. */
  lemma {:induction false} ApartSum(runs: seq<Extent>, n: nat) returns (u: seq<bool>)
    requires Apart(runs) && forall i: int :: Within(runs, i) ==> i < n
    ensures |u| == n && (forall i :: 0 <= i < n ==> (u[i] <==> Within(runs, i)))
    ensures Blocks(runs) + Free(u) == n && Blocks(runs) <= n
    decreases |runs|
  {
    if runs == [] {
      u := seq(n, _ => false);
      AllFreeCount(u);
    } else {
      hide Within, Apart, Free, Mark;
      var less, r := runs[..|runs| - 1], runs[|runs| - 1];
      ApartLast(runs);
      var w := ApartSum(less, n);
      if r.count == 0 {
        u := w;
      } else {
        assert InRun(r, r.start + r.count - 1);
        FreeMark(w, r.start, r.count);
        u := Mark(w, r.start, r.count);
        MarkIs(w, r.start, r.count);
      }
    }
  }

  lemma MarkIs(u: seq<bool>, start: nat, count: nat)
    requires start + count <= |u|
    ensures var v := Mark(u, start, count); |v| == |u| && forall i :: 0 <= i < |u| ==>
      v[i] == (u[i] || start <= i < start + count)
  {
  }

  /** The last run, and the runs before it. */
  lemma ApartLast(runs: seq<Extent>)
    requires runs != [] && Apart(runs)
    ensures var less, r := runs[..|runs| - 1], runs[|runs| - 1];
      && Apart(less)
      && (forall i: int :: Within(runs, i) <==> Within(less, i) || InRun(r, i))
      && (forall i: int :: InRun(r, i) ==> !Within(less, i))
  {
    var last := |runs| - 1;
    var less, r := runs[..last], runs[last];
    assert runs == less + [r];
    forall i: int ensures Within(runs, i) <==> Within(less, i) || InRun(r, i) {
      WithinNext(less, r, i);
    }
    forall i: int, j | 0 <= j < last && InRun(less[j], i) ensures !InRun(r, i) {
      assert InRun(runs[j], i);
    }
  }

  lemma {:induction false} AllFreeCount(u: seq<bool>)
    requires forall i :: 0 <= i < |u| ==> !u[i]
    ensures Free(u) == |u|
    decreases |u|
  {
    if u != [] {
      AllFreeCount(u[..|u| - 1]);
    }
  }

  lemma {:induction false} BlocksIsSum(runs: seq<Extent>)
    ensures Blocks(runs) == Sum(runs)
    decreases |runs|
  {
    if runs != [] {
      var last := |runs| - 1;
      BlocksIsSum(runs[..last]);
      SumCat(runs[..last], [runs[last]]);
      assert [runs[last]][1..] == [];
      assert runs == runs[..last] + [runs[last]];
    }
  }

  // ---- giving and taking blocks ----

  /** Blocks given back are counted as free, one by one. */
  lemma {:induction false} FreedCount(u: seq<bool>, v: seq<bool>, runs: seq<Extent>)
    requires Apart(runs) && |v| == |u| && forall i: int :: Within(runs, i) ==> 0 <= i < |u| && u[i]
    requires forall i :: 0 <= i < |u| ==> (v[i] <==> u[i] && !Within(runs, i))
    ensures Free(v) == Free(u) + Blocks(runs)
    decreases |runs|
  {
    hide Within, Free, Apart;
    if runs == [] {
      NoneIn(runs);
      assert v == u;
    } else {
      var n := |runs| - 1;
      var first, r := runs[..n], runs[n];
      var w := seq(|u|, i requires 0 <= i < |u| => u[i] && !Within(first, i));
      LastFreed(runs);
      assert first + [r] == runs;
      FreedCount(u, w, first);
      RunFreed(w, v, r);
    }
  }

  /** Taking free runs takes their blocks off the free count. */
  lemma TakenCount(u: seq<bool>, v: seq<bool>, runs: seq<Extent>)
    requires Took(u, runs) && MarkedBy(u, v, runs) && Ascending(runs, |u|)
    ensures Free(v) + Blocks(runs) == Free(u)
  {
    hide Within, Apart, Ascending, Free;
    AscendingApart(runs, |u|);
    forall i: int | Within(runs, i) ensures 0 <= i < |v| && v[i] {
      assert v[i] == (u[i] || Within(runs, i));
    }
    FreedCount(v, u, runs);
  }

  /** Giving a fork's runs back. */
  lemma ForkCount(u: seq<bool>, v: seq<bool>, sys: seq<Extent>, forks: Forks, c: nat)
    requires BlocksOk(u, sys, forks) && c in forks
    requires |v| == |u| && forall i :: 0 <= i < |u| ==> v[i] == (u[i] && !Within(forks[c], i))
    ensures Free(v) == Free(u) + Blocks(forks[c])
  {
    hide Within, Apart, Free;
    assert ForkBlocksOk(u, sys, forks[c]);
    forall i: int | Within(forks[c], i) ensures 0 <= i < |u| && u[i] {
      assert Held(forks, i);
    }
    FreedCount(u, v, forks[c]);
  }

  lemma NoneIn(runs: seq<Extent>)
    ensures runs == [] ==> forall i: int :: !Within(runs, i)
  {
  }

  lemma LastFreed(runs: seq<Extent>)
    requires runs != [] && Apart(runs)
    ensures var n := |runs| - 1;
      && Apart(runs[..n])
      && (forall i: int :: Within(runs, i) <==> Within(runs[..n], i) || InRun(runs[n], i))
      && (forall i: int :: Within(runs[..n], i) ==> !InRun(runs[n], i))
      && Blocks(runs) == Blocks(runs[..n]) + runs[n].count
  {
    var n := |runs| - 1;
    assert runs == runs[..n] + [runs[n]];
    forall i: int ensures Within(runs, i) <==> Within(runs[..n], i) || InRun(runs[n], i) {
      WithinNext(runs[..n], runs[n], i);
    }
  }

  lemma RunFreed(u: seq<bool>, v: seq<bool>, r: Extent)
    requires |v| == |u| && forall i: int :: InRun(r, i) ==> 0 <= i < |u| && u[i]
    requires forall i :: 0 <= i < |u| ==> (v[i] <==> u[i] && !InRun(r, i))
    ensures Free(v) == Free(u) + r.count
  {
    hide Free;
    if r.count > 0 {
      assert InRun(r, r.start) && InRun(r, r.start + r.count - 1);
      assert AllFree(v, r.start, r.count);
      assert u == Mark(v, r.start, r.count);
      FreeMark(v, r.start, r.count);
    } else {
      assert u == v;
    }
  }

  /** Newly marked runs become a file's. */
  lemma GiveFork(u: seq<bool>, v: seq<bool>, sys: seq<Extent>, forks: Forks, c: nat, runs: seq<Extent>)
    requires BlocksOk(u, sys, forks) && c !in forks
    requires Took(u, runs) && MarkedBy(u, v, runs) && Ascending(runs, |u|)
    ensures BlocksOk(v, sys, forks[c := runs])
  {
    var forks' := forks[c := runs];
    AscendingApart(runs, |u|);
    hide Within, Took, Ascending, Apart;
    forall i: int | Within(runs, i) ensures 0 <= i < |u| && !Within(sys, i) && !Held(forks, i) {
      TookOne(u, runs, i);
    }
    forall i | 0 <= i < |v| ensures v[i] <==> Within(sys, i) || Held(forks', i) {
      HeldMore(forks, c, runs, i);
    }
    forall a: nat, b: nat, i: int | a in forks' && b in forks' && a != b && Within(forks'[a], i)
      ensures !Within(forks'[b], i) {
      if b == c {
        assert Held(forks, i);
      } else if a == c {
        assert !Held(forks, i);
      }
    }
  }

  lemma TookOne(u: seq<bool>, runs: seq<Extent>, i: int)
    requires Took(u, runs) && Within(runs, i) && 0 <= i < |u|
    ensures !u[i]
  {
  }

  lemma HeldMore(forks: Forks, c: nat, runs: seq<Extent>, i: int)
    requires c !in forks
    ensures Held(forks[c := runs], i) <==> Held(forks, i) || Within(runs, i)
  {
    var forks' := forks[c := runs];
    if Held(forks, i) {
      var d: nat :| d in forks && Within(forks[d], i);
      assert d in forks' && Within(forks'[d], i);
    }
    assert c in forks' && forks'[c] == runs;
  }

  /** Newly marked runs become the special files'. */
  lemma GiveSys(u: seq<bool>, v: seq<bool>, sys: seq<Extent>, forks: Forks, runs: seq<Extent>)
    requires BlocksOk(u, sys, forks)
    requires Took(u, runs) && MarkedBy(u, v, runs) && Ascending(runs, |u|)
    ensures BlocksOk(v, sys + runs, forks)
  {
    AscendingApart(runs, |u|);
    hide Within, Took, Ascending, Apart;
    forall i: int ensures Within(sys + runs, i) <==> Within(sys, i) || Within(runs, i) {
      WithinCat(sys, runs, i);
    }
    forall i: int | Within(runs, i) ensures 0 <= i < |u| && !Within(sys, i) && !Held(forks, i) {
      TookOne(u, runs, i);
    }
    ApartCat(sys, runs);
    forall c: nat | c in forks ensures ForkBlocksOk(v, sys + runs, forks[c]) {
      assert ForkBlocksOk(u, sys, forks[c]);
    }
  }

  /** A file's blocks are given back. */
  lemma TakeFork(u: seq<bool>, v: seq<bool>, sys: seq<Extent>, forks: Forks, c: nat)
    requires BlocksOk(u, sys, forks) && c in forks
    requires |v| == |u| && forall i :: 0 <= i < |u| ==> v[i] == (u[i] && !Within(forks[c], i))
    ensures BlocksOk(v, sys, forks - {c})
  {
    hide Within, Apart;
    var forks' := forks - {c};
    forall i | 0 <= i < |v| ensures v[i] <==> Within(sys, i) || Held(forks', i) {
      assert ForkBlocksOk(u, sys, forks[c]);
      if Held(forks, i) && !Within(forks[c], i) {
        var d: nat :| d in forks && Within(forks[d], i);
        assert d in forks';
      }
      if Held(forks', i) {
        var d: nat :| d in forks' && Within(forks'[d], i);
        assert d in forks && d != c;
      }
    }
    forall d: nat | d in forks' ensures ForkBlocksOk(v, sys, forks'[d]) {
      assert ForkBlocksOk(u, sys, forks[d]);
    }
  }

  // ---- the overflow records of every fork ----

  function DataFork(c: nat): Fork {
    Fork(c, 0)
  }

  const CatalogFork := Fork(4, 0)

  /** User files' CNIDs start here. */
  const FIRST_FILE := 16

  ghost predicate ForkSpilled(recs: seq<Rec>, f: Fork, runs: seq<Extent>) {
    Nonempty(runs) && Sum(runs) < U32 && Spilled(recs, f, runs)
  }

  /** The record belongs to the catalog's fork, or to a file's. */
  ghost predicate HasOwner(r: Rec, forks: Forks) {
    r.key >= 0 && var c: nat := r.key / U32 / 0x100; OfFork(r, DataFork(c)) && (c == CatalogFork.fileID || c in forks)
  }

  ghost predicate Owned(recs: seq<Rec>, forks: Forks) {
    forall x :: x in recs ==> HasOwner(x, forks)
  }

  /** The overflow tree holds, of every file and of the catalog, what their fork descriptors do not, and nothing
      else. */
  ghost predicate SpillsOk(recs: seq<Rec>, forks: Forks, catFork: seq<Extent>) {
    && Asc(recs) && Owned(recs, forks)
    && (forall c: nat :: c in forks ==> FIRST_FILE <= c < U32 && ForkSpilled(recs, DataFork(c), forks[c]))
    && ForkSpilled(recs, CatalogFork, catFork)
  }

  lemma OwnerIs(r: Rec, c: nat, forks: Forks)
    requires OfFork(r, DataFork(c))
    ensures HasOwner(r, forks) <==> c == CatalogFork.fileID || c in forks
  {
    var q := r.key / U32;
    assert q == c * 0x100;
    assert q / 0x100 == c;
  }

  lemma OwnerOther(r: Rec, c: nat, forks: Forks)
    requires HasOwner(r, forks) && !OfFork(r, DataFork(c))
    ensures HasOwner(r, forks - {c})
  {
  }

  /** A CNID without a file has no records. */
  lemma NoRecordsOf(recs: seq<Rec>, forks: Forks, c: nat)
    requires Owned(recs, forks) && c !in forks && c != CatalogFork.fileID
    ensures Select(recs, DataFork(c)) == []
  {
    hide HasOwner, OfFork;
    forall x | x in recs ensures !OfFork(x, DataFork(c)) {
      if OfFork(x, DataFork(c)) {
        OwnerIs(x, c, forks);
      }
    }
    NoneOfFork(recs, DataFork(c));
  }

  lemma {:induction false} NoneOfFork(recs: seq<Rec>, f: Fork)
    requires forall x :: x in recs ==> !OfFork(x, f)
    ensures Select(recs, f) == []
  {
    if recs != [] {
      NoneOfFork(recs[1..], f);
    }
  }

  lemma {:induction false} OthersMembers(recs: seq<Rec>, f: Fork)
    ensures forall x :: x in Others(recs, f) <==> x in recs && !OfFork(x, f)
  {
    if recs != [] {
      hide OfFork;
      OthersMembers(recs[1..], f);
      assert recs == [recs[0]] + recs[1..];
    }
  }

  /** New records of one fork, the others as they were: every record still has its owner. */
  lemma OwnedAfter(recs: seq<Rec>, recs': seq<Rec>, c: nat, forks: Forks, forks': Forks)
    requires Owned(recs, forks) && Others(recs', DataFork(c)) == Others(recs, DataFork(c))
    requires (c == CatalogFork.fileID || c in forks') && forall d: nat :: d in forks ==> d in forks'
    ensures Owned(recs', forks')
  {
    hide OfFork, Others;
    OthersMembers(recs, DataFork(c));
    OthersMembers(recs', DataFork(c));
    forall x | x in recs' ensures HasOwner(x, forks') {
      if OfFork(x, DataFork(c)) {
        OwnerIs(x, c, forks');
      } else {
        assert x in Others(recs', DataFork(c));
        assert HasOwner(x, forks);
      }
    }
  }

  /** One fork's records gone. */
  lemma OwnedOthers(recs: seq<Rec>, c: nat, forks: Forks)
    requires Owned(recs, forks)
    ensures Owned(Others(recs, DataFork(c)), forks - {c})
  {
    hide HasOwner, OfFork, Others;
    OthersMembers(recs, DataFork(c));
    forall x | x in Others(recs, DataFork(c)) ensures HasOwner(x, forks - {c}) {
      OwnerOther(x, c, forks);
    }
  }

  lemma {:induction false} SelectOthers(recs: seq<Rec>, f: Fork, g: Fork)
    requires ForkNumber(f) != ForkNumber(g)
    ensures Select(Others(recs, f), g) == Select(recs, g)
  {
    if recs != [] {
      SelectOthers(recs[1..], f, g);
      SelectCat(IfNotOf(recs[0], f), Others(recs[1..], f), g);
      OneRec(recs[0], g, 0);
    }
  }

  lemma {:induction false} OthersTwice(recs: seq<Rec>, f: Fork)
    ensures Others(Others(recs, f), f) == Others(recs, f)
  {
    if recs != [] {
      OthersTwice(recs[1..], f);
      OthersCat(IfNotOf(recs[0], f), Others(recs[1..], f), f);
      OneRec(recs[0], f, 0);
    }
  }

  lemma {:induction false} OthersAsc(recs: seq<Rec>, f: Fork)
    requires Asc(recs)
    ensures Asc(Others(recs, f))
  {
    hide Asc, OfFork;
    if recs == [] {
      AscFew();
    } else {
      AscTail(recs);
      OthersAsc(recs[1..], f);
      OthersMembers(recs[1..], f);
      if OfFork(recs[0], f) {
        assert [] + Others(recs[1..], f) == Others(recs[1..], f);
      } else {
        ConsAsc(recs[0], Others(recs[1..], f));
      }
    }
  }

  /** Forks are told apart by their number. */
  lemma ForksDiffer(c: nat, d: nat)
    requires c != d
    ensures ForkNumber(DataFork(c)) != ForkNumber(DataFork(d))
  {
  }

  /** What happens to one fork's records leaves the other forks' as they were. */
  lemma SpilledElsewhere(recs: seq<Rec>, recs': seq<Rec>, f: Fork, g: Fork)
    requires Others(recs', f) == Others(recs, f) && ForkNumber(f) != ForkNumber(g)
    ensures Select(recs', g) == Select(recs, g)
  {
    SelectOthers(recs, f, g);
    SelectOthers(recs', f, g);
  }

  lemma SpillFork(recs: seq<Rec>, forks: Forks, catFork: seq<Extent>, c: nat, runs: seq<Extent>)
    requires SpillsOk(recs, forks, catFork) && c !in forks && FIRST_FILE <= c < U32
    requires Nonempty(runs) && Sum(runs) < U32
    ensures SpillsOk(AfterGrowth(recs, DataFork(c), [], runs), forks[c := runs], catFork)
  {
    hide Select, Sum, Others, ForkNumber, HasOwner, AfterGrowth, Groups, Inline, Overflow, Nonempty, OfFork;
    var f := DataFork(c);
    var recs' := AfterGrowth(recs, f, [], runs);
    assert [] + runs == runs;
    NoRecordsOf(recs, forks, c);
    NoneSpilled(recs, f);
    GrowthSpills(recs, f, [], runs);
    hide Spilled, Asc;
    OwnedAfter(recs, recs', c, forks, forks[c := runs]);
    SpillsKept(recs, recs', forks, catFork, c);
  }

  lemma NoneSpilled(recs: seq<Rec>, f: Fork)
    requires Select(recs, f) == []
    ensures Spilled(recs, f, [])
  {
    NoExtents(f, Sum(Inline([])));
  }

  /** The other files' and the catalog's records still stand. */
  lemma SpillsKept(recs: seq<Rec>, recs': seq<Rec>, forks: Forks, catFork: seq<Extent>, c: nat)
    requires SpillsOk(recs, forks, catFork) && Others(recs', DataFork(c)) == Others(recs, DataFork(c))
    ensures forall d: nat :: d in forks && d != c ==> ForkSpilled(recs', DataFork(d), forks[d])
    ensures c != CatalogFork.fileID ==> ForkSpilled(recs', CatalogFork, catFork)
  {
    hide Select, Others, Sum, Groups, Inline, Overflow, Nonempty, ForkNumber, Owned, Asc;
    forall d: nat | d != c ensures Select(recs', DataFork(d)) == Select(recs, DataFork(d)) {
      ForksDiffer(c, d);
      SpilledElsewhere(recs, recs', DataFork(c), DataFork(d));
    }
    assert CatalogFork == DataFork(CatalogFork.fileID);
  }

  lemma DropForkRecords(recs: seq<Rec>, forks: Forks, catFork: seq<Extent>, c: nat)
    requires SpillsOk(recs, forks, catFork) && c in forks
    ensures SpillsOk(Others(recs, DataFork(c)), forks - {c}, catFork)
  {
    hide Select, Sum, Others, Spilled, HasOwner, OfFork, Nonempty, Asc;
    var f := DataFork(c);
    OthersAsc(recs, f);
    OthersTwice(recs, f);
    OwnedOthers(recs, c, forks);
    SpillsKept(recs, Others(recs, f), forks, catFork, c);
  }

  lemma GrowCatalog(recs: seq<Rec>, forks: Forks, catFork: seq<Extent>, runs: seq<Extent>)
    requires SpillsOk(recs, forks, catFork) && Nonempty(catFork + runs) && Sum(catFork + runs) < U32
    ensures SpillsOk(AfterGrowth(recs, CatalogFork, catFork, runs), forks, catFork + runs)
  {
    hide Select, Sum, Others, ForkNumber, HasOwner, AfterGrowth, Groups, Inline, Overflow, Nonempty, OfFork;
    var recs' := AfterGrowth(recs, CatalogFork, catFork, runs);
    GrowthSpills(recs, CatalogFork, catFork, runs);
    hide Spilled, Asc;
    var c := CatalogFork.fileID;
    assert CatalogFork == DataFork(c);
    OwnedAfter(recs, recs', c, forks, forks);
    SpillsKept(recs, recs', forks, catFork, c);
  }

  // ---- what deleting a file frees ----

  lemma {:induction false} AllRunsGroups(f: Fork, block: nat, exts: seq<Extent>)
    requires Nonempty(exts) && block + Sum(exts) < U32
    ensures AllRuns(Groups(f, block, exts)) == exts
    decreases |exts|
  {
    hide Sum, Groups, GroupRec, Nonempty, RunsOf;
    if exts == [] {
      NoExtents(f, block);
    } else {
      var a, b := GroupsCons(f, block, exts);
      GroupRunsHere(f, block, a, block);
      AllRunsGroups(f, block + Sum(a), b);
    }
  }

  /** The inline extents and the records of the overflow tree together are the fork's runs. */
  lemma ForkRuns(recs: seq<Rec>, c: nat, runs: seq<Extent>)
    requires ForkSpilled(recs, DataFork(c), runs)
    ensures Used(Pad(Inline(runs))) + AllRuns(Select(recs, DataFork(c))) == runs
  {
    hide Sum, AllRuns, Used, Pad, Groups, Select, Inline, Overflow, Nonempty;
    InlineParts(runs);
    AllRunsGroups(DataFork(c), Sum(Inline(runs)), Overflow(runs));
  }
}
