/** Putting a record into the leaf a descent reaches, and taking one out. */
module LeafEdits {
  import opened Nodes
  import opened Rows
  import opened Edits
  import opened Steps
  import opened Search

  // ---- sorted sequences ----

  lemma AscCat(fa: seq<Rec>, rs: seq<Rec>, fb: seq<Rec>)
    requires Asc(fa + rs + fb)
    ensures Asc(fa) && Asc(rs) && Asc(fb)
  {
    var c := fa + rs + fb;
    assert forall j :: 0 <= j < |fa| ==> fa[j] == c[j];
    assert forall j :: 0 <= j < |rs| ==> rs[j] == c[|fa| + j];
    assert forall j :: 0 <= j < |fb| ==> fb[j] == c[|fa| + |rs| + j];
  }

  /** Inserting into the middle part, when the outer parts stay outside, is inserting into the whole. */
  lemma InsertMiddle(fa: seq<Rec>, rs: seq<Rec>, fb: seq<Rec>, r: Rec)
    requires AllBelow(fa, r.key) && AllAbove(fb, r.key)
    ensures fa + InsertSorted(rs, r) + fb == InsertSorted(fa + rs + fb, r)
  {
    hide LowerBound;
    var c := fa + rs + fb;
    var n := LowerBound(rs, r.key);
    assert forall j :: 0 <= j < |fa| ==> c[j] == fa[j];
    assert forall j :: 0 <= j < n ==> c[|fa| + j] == rs[j];
    assert forall i :: 0 <= i < |fa| + n ==> c[i].key < r.key;
    assert |fa| + n < |c| ==> c[|fa| + n] == if n < |rs| then rs[n] else fb[0];
    LowerBoundAt(c, r.key, |fa| + n);
    InsMid(fa, rs, fb, n, r);
  }

  lemma InsertAsc(c: seq<Rec>, r: Rec)
    requires Asc(c) && !HasKey(c, r.key)
    ensures Asc(InsertSorted(c, r))
    ensures var c' := InsertSorted(c, r); forall x :: 0 <= x < |c'| ==> c'[x].key == r.key || HasKey(c, c'[x].key)
  {
    hide LowerBound;
    var n := LowerBound(c, r.key);
    assert n < |c| ==> r.key < c[n].key;
    InsAsc(c, n, r);
    KeysOfIns(c, n, r);
  }

  lemma InsAsc(c: seq<Rec>, n: nat, r: Rec)
    requires Asc(c) && n <= |c| && AllBelow(c[..n], r.key) && (n < |c| ==> r.key < c[n].key)
    ensures Asc(c[..n] + [r] + c[n..])
  {
    var c' := c[..n] + [r] + c[n..];
    forall i, j | 0 <= i < j < |c'| ensures c'[i].key < c'[j].key {
      assert i < n ==> c[..n][i].key < r.key;
      assert j > n ==> c[n].key <= c[j - 1].key;
    }
  }

  lemma KeysOfIns(c: seq<Rec>, n: nat, r: Rec)
    requires n <= |c|
    ensures var c' := c[..n] + [r] + c[n..]; forall x :: 0 <= x < |c'| ==> c'[x].key == r.key || HasKey(c, c'[x].key)
  {
    var c' := c[..n] + [r] + c[n..];
    forall x | 0 <= x < |c'| ensures c'[x].key == r.key || HasKey(c, c'[x].key) {
      assert c'[x] == if x < n then c[x] else if x == n then r else c[x - 1];
    }
  }

  lemma DeleteMiddle(fa: seq<Rec>, rs: seq<Rec>, fb: seq<Rec>, i: nat)
    requires Asc(fa + rs + fb) && i < |rs|
    ensures fa + Del(rs, i) + fb == Without(fa + rs + fb, rs[i].key)
  {
    var c := fa + rs + fb;
    assert c[|fa| + i] == rs[i];
    WithoutAt(c, |fa| + i);
    DelMid(fa, rs, fb, i);
  }

  lemma DeleteAsc(c: seq<Rec>, x: nat)
    requires Asc(c) && x < |c|
    ensures Asc(Del(c, x))
    ensures var c' := Del(c, x); forall y :: 0 <= y < |c'| ==> c'[y].key != c[x].key && HasKey(c, c'[y].key)
  {
    var c' := Del(c, x);
    forall y | 0 <= y < |c'| ensures c'[y].key != c[x].key && HasKey(c, c'[y].key) {
      assert c'[y] == if y < x then c[y] else c[y + 1];
    }
  }

  // ---- the structural invariant after a leaf's records change ----

  ghost predicate LeafEditOk(nodes: Img, nodes': Img, rows: seq<seq<nat>>, c': seq<Rec>, e: int, d: int)
    requires 0 <= d < |rows| - 1
  {
    var f := Flat(nodes, rows[d]);
    && |f| == |rows[d + 1]|
    && forall j :: 0 <= j < |f| ==> Tight(c', f[j].key, Head(nodes', rows[d + 1][j], e))
  }

  lemma LeafLevel(nodes: Img, s: seq<nat>, i: nat, rs: seq<Rec>)
    requires Level(nodes, s, 1) && i < |s|
    ensures Level(SetRecs(nodes, s[i], rs), s, 1)
  {
    var nodes' := SetRecs(nodes, s[i], rs);
    forall j | 0 <= j < |s| ensures NodeAt(nodes', s[j], 1) && LinksAt(nodes', s, j) {
      assert NodeAt(nodes, s[j], 1) && LinksAt(nodes, s, j);
    }
  }

  lemma LeafEdit(nodes: Img, rows: seq<seq<nat>>, e: int, e': int, i: nat, rs: seq<Rec>)
    requires Whole(nodes, rows, e) && i < |rows[|rows| - 1]|
    requires rows[|rows| - 1][i] in nodes
    requires var s := rows[|rows| - 1];
      var c' := Flat(nodes, s[..i]) + rs + Flat(nodes, s[i + 1..]);
      && Asc(c')
      && forall d :: 0 <= d < |rows| - 1 ==> LeafEditOk(nodes, SetRecs(nodes, s[i], rs), rows, c', e', d)
    ensures var s := rows[|rows| - 1];
      && Whole(SetRecs(nodes, s[i], rs), rows, e')
      && Contents(SetRecs(nodes, s[i], rs), rows) == Flat(nodes, s[..i]) + rs + Flat(nodes, s[i + 1..])
  {
    hide Flat;
    var last := |rows| - 1;
    var s := rows[last];
    var nodes' := SetRecs(nodes, s[i], rs);
    var c' := Flat(nodes, s[..i]) + rs + Flat(nodes, s[i + 1..]);
    assert Level(nodes, s, 1);
    LeafLevel(nodes, s, i, rs);
    FlatSetRecs(nodes, s, i, rs);
    OtherRowsAgree(nodes, nodes', rows, last, s[i]);
    forall k | 0 <= k < |rows|
      ensures Level(nodes', rows[k], |rows| - k) && (k < last ==> Flat(nodes', rows[k]) == Flat(nodes, rows[k]))
    {
      assert Level(nodes, rows[k], |rows| - k);
      if k < last {
        LevelFrame(nodes, nodes', rows[k], |rows| - k);
      }
    }
    assert Contents(nodes', rows) == c';
    hide Level;
    forall k | 0 <= k < |rows| - 1 ensures IndexRow(nodes', c', rows[k], rows[k + 1], e') {
      assert IndexRow(nodes, Contents(nodes, rows), rows[k], rows[k + 1], e);
      assert LeafEditOk(nodes, nodes', rows, c', e', k);
    }
  }

  /** The same keys, record by record. */
  ghost predicate SameKeys(a: seq<Rec>, b: seq<Rec>) {
    |a| == |b| && forall i :: 0 <= i < |a| ==> a[i].key == b[i].key
  }

  lemma SameKeysMiddle(fa: seq<Rec>, a: seq<Rec>, b: seq<Rec>, fb: seq<Rec>)
    requires SameKeys(a, b)
    ensures SameKeys(fa + a + fb, fa + b + fb)
  {
    var x, y := fa + a + fb, fa + b + fb;
    forall i | 0 <= i < |x| ensures x[i].key == y[i].key {
      assert i < |fa| ==> x[i] == fa[i] && y[i] == fa[i];
      assert |fa| <= i < |fa| + |a| ==> x[i] == a[i - |fa|] && y[i] == b[i - |fa|];
    }
  }

  lemma SameKeysAsc(a: seq<Rec>, b: seq<Rec>)
    requires SameKeys(a, b)
    ensures Asc(a) ==> Asc(b)
    ensures forall lo: int, hi: int :: Tight(a, lo, hi) ==> Tight(b, lo, hi)
  {
  }

  /** Changing no key of a leaf keeps the tree. */
  lemma LeafRewrite(nodes: Img, rows: seq<seq<nat>>, i: nat, rs: seq<Rec>)
    requires rows != [] && WholeFull(nodes, rows, 0) && i < |rows[|rows| - 1]| && rows[|rows| - 1][i] in nodes
    requires SameKeys(Recs(nodes, rows[|rows| - 1][i]), rs)
    ensures var s := rows[|rows| - 1];
      && WholeFull(SetRecs(nodes, s[i], rs), rows, 0)
      && Contents(SetRecs(nodes, s[i], rs), rows) == Flat(nodes, s[..i]) + rs + Flat(nodes, s[i + 1..])
  {
    hide Flat, WF, Asc, Tight, SameKeys;
    var s := rows[|rows| - 1];
    var fa, fb, was := Flat(nodes, s[..i]), Flat(nodes, s[i + 1..]), Recs(nodes, s[i]);
    var nodes', c' := SetRecs(nodes, s[i], rs), fa + rs + fb;
    FlatAt(nodes, s, i);
    SameKeysMiddle(fa, was, rs, fb);
    SameKeysAsc(Contents(nodes, rows), c');
    WholeAsc(nodes, rows, 0);
    RewriteHeads(nodes, s[i], rs);
    forall d | 0 <= d < |rows| - 1 ensures LeafEditOk(nodes, nodes', rows, c', 0, d) {
      RewriteTight(nodes, nodes', rows, c', d);
    }
    LeafEdit(nodes, rows, 0, 0, i, rs);
  }

  lemma WholeAsc(nodes: Img, rows: seq<seq<nat>>, e: int)
    requires Whole(nodes, rows, e)
    ensures Asc(Contents(nodes, rows))
  {
    hide Flat;
  }

  lemma RewriteHeads(nodes: Img, n: nat, rs: seq<Rec>)
    requires n in nodes && SameKeys(Recs(nodes, n), rs)
    ensures forall m: nat, e: int :: Head(SetRecs(nodes, n, rs), m, e) == Head(nodes, m, e)
    ensures forall m: nat :: Recs(nodes, m) != [] ==> Recs(SetRecs(nodes, n, rs), m) != []
  {
  }

  lemma RewriteTight(nodes: Img, nodes': Img, rows: seq<seq<nat>>, c': seq<Rec>, d: nat)
    requires Whole(nodes, rows, 0) && d < |rows| - 1
    requires forall lo: int, hi: int :: Tight(Contents(nodes, rows), lo, hi) ==> Tight(c', lo, hi)
    requires forall m: nat, e: int :: Head(nodes', m, e) == Head(nodes, m, e)
    ensures LeafEditOk(nodes, nodes', rows, c', 0, d)
  {
    hide Flat, Tight, Head;
    assert IndexRow(nodes, Contents(nodes, rows), rows[d], rows[d + 1], 0);
  }

  // ---- insertion ----

  lemma TightInsert(c: seq<Rec>, c': seq<Rec>, lo: int, hi: int, hi': int, p: int)
    requires Tight(c, lo, hi) && lo <= hi' <= hi
    requires p < lo || hi' <= p
    requires forall x :: 0 <= x < |c'| ==> c'[x].key == p || HasKey(c, c'[x].key)
    ensures Tight(c', lo, hi')
  {
  }

  /** The full descent that an insertion or deletion of key `p` follows. */
  ghost predicate Descent(nodes: Img, rows: seq<seq<nat>>, e: int, path: seq<nat>, ci: seq<nat>, pos: seq<nat>,
      p: int) {
    && WholeFull(nodes, rows, e) && PathOk(nodes, rows, path, ci, pos) && |path| == |rows|
    && NoFallback(nodes, path, ci, p)
  }

  /** First keys at or left of the descent are at most `p`. */
  lemma HeadBelow(nodes: Img, rows: seq<seq<nat>>, e: int, path: seq<nat>, ci: seq<nat>, pos: seq<nat>, p: int,
      d: nat, j: nat)
    requires Descent(nodes, rows, e, path, ci, pos, p) && 0 < d < |rows|
    requires j <= pos[d] && (d == |rows| - 1 ==> j < pos[d])
    ensures j < |rows[d]| && Head(nodes, rows[d][j], e) <= p
  {
    hide Flat, Pick, WF, Level;
    DescentAround(nodes, rows, e, path, ci, pos, p, d - 1);
    RowSpread(nodes, rows, e, d);
    if d == |rows| - 1 {
      LeafAround(nodes, rows, e, pos[d], p);
      HeadAt(nodes, rows[d], j, e);
      FlatPrefix(nodes, rows[d], j, pos[d]);
      FlatPrefix(nodes, rows[d], j + 1, pos[d]);
      FlatAt(nodes, rows[d], j);
      var fa := Flat(nodes, rows[d][..pos[d]]);
      FlatAt(nodes, rows[d], pos[d]);
      assert Flat(nodes, rows[d])[Off(nodes, rows[d], j)] == fa[Off(nodes, rows[d], j)];
    } else {
      assert Head(nodes, path[d], e) <= p;
      if j < pos[d] {
        HeadsAsc(nodes, rows[d], j, pos[d], e);
      }
    }
  }

  ghost predicate Gains(nodes: Img, nodes': Img, n: nat, r: Rec) {
    n in nodes && nodes[n].recs != [] && nodes' == SetRecs(nodes, n, InsertSorted(Recs(nodes, n), r))
  }

  lemma InsertTightAt(nodes: Img, nodes': Img, rows: seq<seq<nat>>, e: int, path: seq<nat>, ci: seq<nat>,
      pos: seq<nat>, r: Rec, d: nat, j: nat)
    requires Descent(nodes, rows, e, path, ci, pos, r.key) && d < |rows| - 1 && j < |rows[d + 1]|
    requires Gains(nodes, nodes', rows[|rows| - 1][pos[|rows| - 1]], r)
    ensures |Flat(nodes, rows[d])| == |rows[d + 1]|
    ensures var lo, hi, hi' := Flat(nodes, rows[d])[j].key, Head(nodes, rows[d + 1][j], e),
      Head(nodes', rows[d + 1][j], e);
      Tight(Contents(nodes, rows), lo, hi) && lo <= hi' <= hi && (r.key < lo || hi' <= r.key)
  {
    hide Flat, Pick, InsertSorted, WF, NoFallback, Gains, Head, TurnOk, AllFull;
    var last := |rows| - 1;
    IndexAt(nodes, rows, e, d, j);
    DescentAround(nodes, rows, e, path, ci, pos, r.key, d);
    LeafHeads(nodes, nodes', rows, e, pos[last], r, d + 1);
    if j <= pos[d + 1] && (d + 1 < last || j < pos[d + 1]) {
      HeadBelow(nodes, rows, e, path, ci, pos, r.key, d + 1, j);
    }
  }

  lemma IndexAt(nodes: Img, rows: seq<seq<nat>>, e: int, d: nat, j: nat)
    requires Whole(nodes, rows, e) && d < |rows| - 1 && j < |rows[d + 1]|
    ensures |Flat(nodes, rows[d])| == |rows[d + 1]|
    ensures Tight(Contents(nodes, rows), Flat(nodes, rows[d])[j].key, Head(nodes, rows[d + 1][j], e))
  {
    hide Flat;
    assert IndexRow(nodes, Contents(nodes, rows), rows[d], rows[d + 1], e);
  }

  lemma InsertTight(nodes: Img, nodes': Img, rows: seq<seq<nat>>, e: int, path: seq<nat>, ci: seq<nat>,
      pos: seq<nat>, r: Rec, c': seq<Rec>, d: nat)
    requires Descent(nodes, rows, e, path, ci, pos, r.key) && d < |rows| - 1
    requires Gains(nodes, nodes', rows[|rows| - 1][pos[|rows| - 1]], r)
    requires forall x :: 0 <= x < |c'| ==> c'[x].key == r.key || HasKey(Contents(nodes, rows), c'[x].key)
    ensures LeafEditOk(nodes, nodes', rows, c', e, d)
  {
    hide Flat, Contents, WF, PathOk, NoFallback, HasKey, Gains, Head;
    var f := Flat(nodes, rows[d]);
    var s := rows[d + 1];
    assert |f| == |s| by {
      assert Level(nodes, s, |rows| - (d + 1)) by { LevelOf(nodes, rows, e, d + 1); }
      InsertTightAt(nodes, nodes', rows, e, path, ci, pos, r, d, 0);
    }
    forall j | 0 <= j < |f| ensures Tight(c', f[j].key, Head(nodes', s[j], e)) {
      InsertTightAt(nodes, nodes', rows, e, path, ci, pos, r, d, j);
      TightInsert(Contents(nodes, rows), c', f[j].key, Head(nodes, s[j], e), Head(nodes', s[j], e), r.key);
    }
  }

  lemma LevelOf(nodes: Img, rows: seq<seq<nat>>, e: int, d: nat)
    requires Whole(nodes, rows, e) && d < |rows|
    ensures Level(nodes, rows[d], |rows| - d)
  {
  }

  /** Only the leaf that gains the record can get a new first key: the smaller of the old one and the record's. */
  lemma LeafHeads(nodes: Img, nodes': Img, rows: seq<seq<nat>>, e: int, i: nat, r: Rec, d: nat)
    requires Whole(nodes, rows, e) && d < |rows| && i < |rows[|rows| - 1]|
    requires Gains(nodes, nodes', rows[|rows| - 1][i], r)
    ensures forall j :: 0 <= j < |rows[d]| ==>
      Head(nodes', rows[d][j], e) ==
        if d == |rows| - 1 && j == i && r.key < Head(nodes, rows[d][j], e) then r.key else Head(nodes, rows[d][j], e)
  {
    hide Flat, InsertSorted, LowerBound, Tight, IndexRow;
    var last := |rows| - 1;
    var n := rows[last][i];
    if d < last {
      RowsApart(nodes, rows, last, d);
    } else {
      assert Level(nodes, rows[last], 1);
    }
    hide Level;
    HeadOfInserted(Recs(nodes, n), r);
  }

  lemma HeadOfInserted(rs: seq<Rec>, r: Rec)
    ensures InsertSorted(rs, r) != []
    ensures InsertSorted(rs, r)[0] == if rs == [] || r.key <= rs[0].key then r else rs[0]
  {
    var k := LowerBound(rs, r.key);
    assert InsertSorted(rs, r)[0] == if k == 0 then r else rs[0];
  }

  lemma LeafInsert(nodes: Img, rows: seq<seq<nat>>, e: int, path: seq<nat>, ci: seq<nat>, pos: seq<nat>, r: Rec)
    requires Descent(nodes, rows, e, path, ci, pos, r.key) && !HasKey(Contents(nodes, rows), r.key)
    ensures var n := path[|rows| - 1];
      var nodes' := SetRecs(nodes, n, InsertSorted(Recs(nodes, n), r));
      && n in nodes
      && WholeFull(nodes', rows, e)
      && Contents(nodes', rows) == InsertSorted(Contents(nodes, rows), r)
  {
    hide Flat, Pick, InsertSorted, HasKey, LeafEditOk;
    var last := |rows| - 1;
    var s := rows[last];
    var i := pos[last];
    var n := s[i];
    assert Level(nodes, s, 1);
    assert NodeAt(nodes, n, 1);
    var rs := Recs(nodes, n);
    var nodes' := SetRecs(nodes, n, InsertSorted(rs, r));
    if last > 0 {
      DescentAround(nodes, rows, e, path, ci, pos, r.key, last - 1);
    }
    LeafAround(nodes, rows, e, i, r.key);
    var c := Contents(nodes, rows);
    var fa, fb := Flat(nodes, s[..i]), Flat(nodes, s[i + 1..]);
    InsertMiddle(fa, rs, fb, r);
    InsertAsc(c, r);
    var c' := InsertSorted(c, r);
    forall d | 0 <= d < last ensures LeafEditOk(nodes, nodes', rows, c', e, d) {
      InsertTight(nodes, nodes', rows, e, path, ci, pos, r, c', d);
    }
    LeafEdit(nodes, rows, e, e, i, InsertSorted(rs, r));
    InsertedFull(nodes, s, i, r);
  }

  lemma InsertedFull(nodes: Img, s: seq<nat>, i: nat, r: Rec)
    requires AllFull(nodes, s) && i < |s| && s[i] in nodes
    ensures AllFull(SetRecs(nodes, s[i], InsertSorted(Recs(nodes, s[i]), r)), s)
  {
  }

  // ---- deletion ----

  lemma TightDelete(c: seq<Rec>, c': seq<Rec>, lo: int, hi: int, hi': int, p: int)
    requires Tight(c, lo, hi)
    requires hi' == hi || (hi == p < hi' && forall x :: 0 <= x < |c| ==> c[x].key <= p || hi' <= c[x].key)
    requires forall x :: 0 <= x < |c'| ==> c'[x].key != p && HasKey(c, c'[x].key)
    ensures Tight(c', lo, hi')
  {
  }

  /** Only the leaf that loses the record can get a new first key: its second record's, if the first goes. */
  lemma DeletedHeads(nodes: Img, nodes': Img, rows: seq<seq<nat>>, i: nat, x: nat, d: nat)
    requires Levels(nodes, rows) && 0 < d < |rows| && i < |rows[|rows| - 1]|
    requires var n := rows[|rows| - 1][i];
      n in nodes && x < |nodes[n].recs| && nodes' == SetRecs(nodes, n, Del(nodes[n].recs, x))
    ensures var n := rows[|rows| - 1][i];
      var p := nodes[n].recs[x].key;
      forall j :: 0 <= j < |rows[d]| ==>
        Head(nodes', rows[d][j], p) ==
          if d == |rows| - 1 && j == i && x == 0 && |nodes[n].recs| > 1 then nodes[n].recs[1].key
          else Head(nodes, rows[d][j], p)
  {
    var last := |rows| - 1;
    if d < last {
      RowsApart(nodes, rows, last, d);
    } else {
      assert Level(nodes, rows[last], 1);
    }
  }

  /** No stored key lies strictly between two adjacent records. */
  lemma Adjacent(c: seq<Rec>, y: nat)
    requires Asc(c) && y + 1 < |c|
    ensures c[y].key < c[y + 1].key
    ensures forall x :: 0 <= x < |c| ==> c[x].key <= c[y].key || c[y + 1].key <= c[x].key
  {
  }

  lemma DeleteTight(nodes: Img, nodes': Img, rows: seq<seq<nat>>, e: int, i: nat, x: nat, c': seq<Rec>, d: nat)
    requires WholeFull(nodes, rows, e) && d < |rows| - 1 && i < |rows[|rows| - 1]|
    requires var n := rows[|rows| - 1][i];
      n in nodes && x < |nodes[n].recs| && nodes' == SetRecs(nodes, n, Del(nodes[n].recs, x))
    requires var p := Recs(nodes, rows[|rows| - 1][i])[x].key;
      forall y :: 0 <= y < |c'| ==> c'[y].key != p && HasKey(Contents(nodes, rows), c'[y].key)
    ensures LeafEditOk(nodes, nodes', rows, c', Recs(nodes, rows[|rows| - 1][i])[x].key, d)
  {
    hide Flat, HasKey;
    var c := Contents(nodes, rows);
    var last := |rows| - 1;
    var n := rows[last][i];
    var rs := Recs(nodes, n);
    var p := rs[x].key;
    var f := Flat(nodes, rows[d]);
    var s := rows[d + 1];
    assert IndexRow(nodes, c, rows[d], s, e);
    RowSpread(nodes, rows, e, d + 1);
    DeletedHeads(nodes, nodes', rows, i, x, d + 1);
    if |rs| > 1 {
      FlatAt(nodes, rows[last], i);
      var y := Off(nodes, rows[last], i);
      assert c[y] == rs[0] && c[y + 1] == rs[1];
      Adjacent(c, y);
    }
    hide WF, Level;
    forall j | 0 <= j < |f| ensures Tight(c', f[j].key, Head(nodes', s[j], p)) {
      assert Tight(c, f[j].key, Head(nodes, s[j], e));
      assert Head(nodes, s[j], e) == Head(nodes, s[j], p);
      TightDelete(c, c', f[j].key, Head(nodes, s[j], p), Head(nodes', s[j], p), p);
    }
  }

  lemma LeafDelete(nodes: Img, rows: seq<seq<nat>>, e: int, i: nat, x: nat)
    requires WholeFull(nodes, rows, e) && i < |rows[|rows| - 1]|
    requires x < |Recs(nodes, rows[|rows| - 1][i])|
    ensures var n := rows[|rows| - 1][i];
      var rs := Recs(nodes, n);
      var nodes' := SetRecs(nodes, n, Del(rs, x));
      && n in nodes
      && Whole(nodes', rows, rs[x].key)
      && Contents(nodes', rows) == Without(Contents(nodes, rows), rs[x].key)
  {
    hide Flat, HasKey, LeafEditOk;
    var last := |rows| - 1;
    var s := rows[last];
    var n := s[i];
    assert Level(nodes, s, 1);
    assert NodeAt(nodes, n, 1);
    hide Level, NodeAt, IndexRow, Indexed, Levels;
    var rs := Recs(nodes, n);
    var p := rs[x].key;
    var nodes' := SetRecs(nodes, n, Del(rs, x));
    var c := Contents(nodes, rows);
    LeafDeleteContents(nodes, s, i, x);
    var c' := Without(c, p);
    forall d | 0 <= d < last ensures LeafEditOk(nodes, nodes', rows, c', p, d) {
      DeleteTight(nodes, nodes', rows, e, i, x, c', d);
    }
    LeafEdit(nodes, rows, e, p, i, Del(rs, x));
  }

  lemma LeafDeleteContents(nodes: Img, s: seq<nat>, i: nat, x: nat)
    requires Asc(Flat(nodes, s)) && i < |s| && x < |Recs(nodes, s[i])|
    ensures var c, p := Flat(nodes, s), Recs(nodes, s[i])[x].key;
      && Flat(nodes, s[..i]) + Del(Recs(nodes, s[i]), x) + Flat(nodes, s[i + 1..]) == Without(c, p)
      && Asc(Without(c, p))
      && (forall y :: 0 <= y < |Without(c, p)| ==> Without(c, p)[y].key != p && HasKey(c, Without(c, p)[y].key))
  {
    hide Flat, HasKey, Asc, Del, Without;
    FlatAt(nodes, s, i);
    DeleteMiddle(Flat(nodes, s[..i]), Recs(nodes, s[i]), Flat(nodes, s[i + 1..]), x);
    MiddleAt(Flat(nodes, s[..i]), Recs(nodes, s[i]), Flat(nodes, s[i + 1..]), x);
    WithoutIsDel(Flat(nodes, s), |Flat(nodes, s[..i])| + x);
  }

  lemma MiddleAt(fa: seq<Rec>, rs: seq<Rec>, fb: seq<Rec>, x: nat)
    requires x < |rs|
    ensures |fa| + x < |fa + rs + fb| && (fa + rs + fb)[|fa| + x] == rs[x]
  {
  }

  lemma WithoutIsDel(c: seq<Rec>, x: nat)
    requires Asc(c) && x < |c|
    ensures var w := Without(c, c[x].key);
      Asc(w) && forall y :: 0 <= y < |w| ==> w[y].key != c[x].key && HasKey(c, w[y].key)
  {
    hide HasKey, Without;
    WithoutAt(c, x);
    DeleteAsc(c, x);
  }

  /** An emptied leaf's old key and the next leaf's first key have no stored key between them. */
  ghost predicate GapOk(nodes: Img, rows: seq<seq<nat>>, e: int)
    requires |rows| >= 1
  {
    var s := rows[|rows| - 1];
    forall i :: 0 <= i < |s| - 1 ==> Recs(nodes, s[i]) == [] ==>
      Recs(nodes, s[i + 1]) != [] && Tight(Contents(nodes, rows), e, Head(nodes, s[i + 1], e))
  }

  lemma LeafDeleteGap(nodes: Img, rows: seq<seq<nat>>, e: int, i: nat, x: nat)
    requires WholeFull(nodes, rows, e) && i < |rows[|rows| - 1]|
    requires x < |Recs(nodes, rows[|rows| - 1][i])| && rows[|rows| - 1][i] in nodes
    ensures var n := rows[|rows| - 1][i];
      GapOk(SetRecs(nodes, n, Del(Recs(nodes, n), x)), rows, Recs(nodes, n)[x].key)
  {
    hide Flat, Contents, Without, Tight, Asc;
    var s := rows[|rows| - 1];
    var n := s[i];
    var p := Recs(nodes, n)[x].key;
    var nodes' := SetRecs(nodes, n, Del(Recs(nodes, n), x));
    LevelOf(nodes, rows, e, |rows| - 1);
    assert NoDup(s);
    hide WF, Level;
    forall k | 0 <= k < |s| - 1 && Recs(nodes', s[k]) == []
      ensures Recs(nodes', s[k + 1]) != [] && Tight(Contents(nodes', rows), p, Head(nodes', s[k + 1], p))
    {
      assert k == i && |Recs(nodes, n)| == 1;
      assert s[k + 1] != n;
      EmptiedGap(nodes, rows, e, i);
    }
  }

  lemma EmptiedGap(nodes: Img, rows: seq<seq<nat>>, e: int, i: nat)
    requires WholeFull(nodes, rows, e) && i + 1 < |rows[|rows| - 1]|
    requires |Recs(nodes, rows[|rows| - 1][i])| == 1 && rows[|rows| - 1][i] in nodes
    ensures var s := rows[|rows| - 1];
      Tight(Contents(SetRecs(nodes, s[i], Del(Recs(nodes, s[i]), 0)), rows), Recs(nodes, s[i])[0].key,
        Head(nodes, s[i + 1], e))
  {
    hide Flat, Levels, Indexed;
    var s := rows[|rows| - 1];
    LeafDelete(nodes, rows, e, i, 0);
    NextKey(nodes, s, i, e);
    var c, y := Contents(nodes, rows), Off(nodes, s, i);
    WithoutAt(c, y);
    GapAt(c, y);
  }

  lemma NextKey(nodes: Img, s: seq<nat>, i: nat, e: int)
    requires i + 1 < |s| && |Recs(nodes, s[i])| == 1 && Recs(nodes, s[i + 1]) != []
    ensures var c, y := Flat(nodes, s), Off(nodes, s, i);
      y + 1 < |c| && c[y] == Recs(nodes, s[i])[0] && c[y + 1].key == Head(nodes, s[i + 1], e)
  {
    hide Flat;
    FlatAt(nodes, s, i);
    HeadAt(nodes, s, i + 1, e);
  }

  lemma GapAt(c: seq<Rec>, y: nat)
    requires Asc(c) && y + 1 < |c|
    ensures Tight(Del(c, y), c[y].key, c[y + 1].key)
  {
    var c' := Del(c, y);
    assert forall x :: 0 <= x < |c'| ==> c'[x] == if x < y then c[x] else c[x + 1];
  }
}
