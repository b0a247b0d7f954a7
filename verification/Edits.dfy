/** Two edits from which every step of insertion and deletion is made: changing the nodes of one row
    without changing its records (`RowEdit`: split, fold, shift), and changing the records of one index
    node (`IndexEdit`: link, unlink, refresh). Both keep the structural invariant. */
module Edits {
  import opened Nodes
  import opened Rows

  ghost predicate Agree(nodes: Img, nodes': Img, s: seq<nat>) {
    forall i :: 0 <= i < |s| ==> s[i] in nodes && s[i] in nodes' && nodes'[s[i]] == nodes[s[i]]
  }

  lemma LevelFrame(nodes: Img, nodes': Img, s: seq<nat>, h: nat)
    requires Level(nodes, s, h) && Agree(nodes, nodes', s)
    ensures Level(nodes', s, h)
    ensures Flat(nodes', s) == Flat(nodes, s)
  {
    FlatSame(nodes, nodes', s);
    forall i | 0 <= i < |s| ensures NodeAt(nodes', s[i], h) && LinksAt(nodes', s, i) {
      assert NodeAt(nodes, s[i], h) && LinksAt(nodes, s, i);
    }
  }

  lemma TightTrans(c: seq<Rec>, a: int, b: int, d: int)
    requires Tight(c, a, b) && Tight(c, b, d)
    ensures Tight(c, a, d)
  {
  }

  /** An index row stays good when its records stay and the first keys below it only tighten. */
  lemma IndexRowKept(nodes: Img, nodes': Img, c: seq<Rec>, up: seq<nat>, up': seq<nat>, down: seq<nat>, e: int)
    requires IndexRow(nodes, c, up, down, e)
    requires Flat(nodes', up') == Flat(nodes, up)
    requires forall j :: 0 <= j < |down| ==> Tight(c, Head(nodes, down[j], e), Head(nodes', down[j], e))
    ensures IndexRow(nodes', c, up', down, e)
  {
    var f := Flat(nodes, up);
    forall j | 0 <= j < |down| ensures Tight(c, f[j].key, Head(nodes', down[j], e)) {
      TightTrans(c, f[j].key, Head(nodes, down[j], e), Head(nodes', down[j], e));
    }
  }

  lemma SameHeads(nodes: Img, nodes': Img, c: seq<Rec>, s: seq<nat>, e: int)
    requires Agree(nodes, nodes', s)
    ensures forall j :: 0 <= j < |s| ==> Tight(c, Head(nodes, s[j], e), Head(nodes', s[j], e))
  {
  }

  // ---- editing the nodes of one row ----

  ghost predicate RowEditOk(nodes: Img, nodes': Img, rows: seq<seq<nat>>, below: seq<seq<nat>>, e: int, d: nat,
      s: seq<nat>)
    requires d < |rows| == |below|
  {
    && (forall k :: 0 <= k < |rows| && k != d ==> below[k] == rows[k] && Agree(nodes, nodes', rows[k]))
    && Level(nodes', s, |rows| - d)
    && Flat(nodes', s) == Flat(nodes, rows[d])
    && forall j :: 0 <= j < |below[d]| ==>
         Tight(Contents(nodes, rows), Head(nodes, below[d][j], e), Head(nodes', below[d][j], e))
  }

  lemma RowEditLevels(nodes: Img, nodes': Img, rows: seq<seq<nat>>, d: nat, s: seq<nat>)
    requires Levels(nodes, rows) && d < |rows|
    requires forall k :: 0 <= k < |rows| && k != d ==> Agree(nodes, nodes', rows[k])
    requires Level(nodes', s, |rows| - d) && Flat(nodes', s) == Flat(nodes, rows[d])
    ensures Levels(nodes', rows[d := s])
    ensures forall k :: 0 <= k < |rows| ==> Flat(nodes', rows[d := s][k]) == Flat(nodes, rows[k])
  {
    hide Flat, Level;
    forall k | 0 <= k < |rows|
      ensures Level(nodes', rows[d := s][k], |rows| - k) && Flat(nodes', rows[d := s][k]) == Flat(nodes, rows[k])
    {
      assert Level(nodes, rows[k], |rows| - k);
      if k != d {
        LevelFrame(nodes, nodes', rows[k], |rows| - k);
      }
    }
  }

  lemma RowEdit(nodes: Img, nodes': Img, rows: seq<seq<nat>>, below: seq<seq<nat>>, e: int, d: nat, s: seq<nat>)
    requires WF(nodes, rows, below, e) && d < |rows|
    requires RowEditOk(nodes, nodes', rows, below, e, d, s)
    ensures WF(nodes', rows[d := s], below, e)
    ensures Contents(nodes', rows[d := s]) == Contents(nodes, rows)
  {
    hide Flat, Level, Levels, IndexRow, Head;
    var rows' := rows[d := s];
    var c := Contents(nodes, rows);
    RowEditLevels(nodes, nodes', rows, d, s);
    assert Contents(nodes', rows') == c;
    forall k | 0 <= k < |rows| - 1 ensures IndexRow(nodes', c, rows'[k], below[k + 1], e) {
      assert IndexRow(nodes, c, rows[k], below[k + 1], e);
      assert Flat(nodes', rows'[k]) == Flat(nodes, rows[k]);
      if k + 1 != d {
        SameHeads(nodes, nodes', c, rows[k + 1], e);
      }
      IndexRowKept(nodes, nodes', c, rows[k], rows'[k], below[k + 1], e);
    }
  }

  // ---- editing the records of one index node ----

  /** The nodes named by row `s` when node `i`'s records are `rs`. */
  function Named(nodes: Img, s: seq<nat>, i: nat, rs: seq<Rec>): seq<nat>
    requires i < |s|
  {
    Kids(Flat(nodes, s[..i])) + Kids(rs) + Kids(Flat(nodes, s[i + 1..]))
  }

  function SetRecs(nodes: Img, n: nat, rs: seq<Rec>): Img
    requires n in nodes
  {
    nodes[n := nodes[n].(recs := rs)]
  }

  lemma FlatSetRecs(nodes: Img, s: seq<nat>, i: nat, rs: seq<Rec>)
    requires NoDup(s) && i < |s| && s[i] in nodes
    ensures Flat(SetRecs(nodes, s[i], rs), s) == Flat(nodes, s[..i]) + rs + Flat(nodes, s[i + 1..])
  {
    var nodes' := SetRecs(nodes, s[i], rs);
    FlatAt(nodes', s, i);
    FlatSame(nodes, nodes', s[..i]);
    FlatSame(nodes, nodes', s[i + 1..]);
  }

  ghost predicate IndexEditOk(nodes: Img, rows: seq<seq<nat>>, e: int, d: nat, i: nat, rs: seq<Rec>)
    requires d < |rows| && i < |rows[d]| && Recs(nodes, rows[d][i]) != []
  {
    var c := Contents(nodes, rows);
    && rs != []
    && (forall j :: 0 <= j < |rs| ==> rs[j].data.Child? && Tight(c, rs[j].key, Head(nodes, rs[j].data.num, e)))
    && Tight(c, Recs(nodes, rows[d][i])[0].key, rs[0].key)
  }

  lemma IndexEditRow(nodes: Img, nodes': Img, c: seq<Rec>, up: seq<nat>, down: seq<nat>, e: int, i: nat, rs: seq<Rec>)
    requires IndexRow(nodes, c, up, down, e)
    requires NoDup(up) && i < |up| && up[i] in nodes && nodes' == SetRecs(nodes, up[i], rs)
    requires forall j :: 0 <= j < |rs| ==> rs[j].data.Child? && Tight(c, rs[j].key, Head(nodes, rs[j].data.num, e))
    requires forall n: nat :: n != up[i] ==> Head(nodes', n, e) == Head(nodes, n, e)
    requires up[i] !in down && up[i] !in Kids(rs)
    ensures IndexRow(nodes', c, up, Named(nodes, up, i, rs), e)
  {
    var fa, fb := Flat(nodes, up[..i]), Flat(nodes, up[i + 1..]);
    var r := Recs(nodes, up[i]);
    FlatAt(nodes, up, i);
    FlatSetRecs(nodes, up, i, rs);
    KidsCat(fa + rs, fb);
    KidsCat(fa, rs);
    var f, f' := Flat(nodes, up), Flat(nodes', up);
    var down' := Named(nodes, up, i, rs);
    assert Kids(f') == down';
    forall j | 0 <= j < |down'| ensures Tight(c, f'[j].key, Head(nodes', down'[j], e)) {
      if j < |fa| {
        assert f'[j] == f[j] && down'[j] == down[j];
      } else if j < |fa| + |rs| {
        assert f'[j] == rs[j - |fa|] && down'[j] == Kids(rs)[j - |fa|];
      } else {
        var m := j - |rs| + |r|;
        assert f'[j] == fb[j - |fa| - |rs|] == f[m];
        assert down'[j] == Kid(f'[j]) == down[m];
      }
    }
  }

  /** Changing an index node's records leaves every level a level, and every other row as it was. */
  lemma IndexEditLevels(nodes: Img, rows: seq<seq<nat>>, d: nat, i: nat, rs: seq<Rec>)
    requires Levels(nodes, rows) && d < |rows| - 1 && i < |rows[d]| && rows[d][i] in nodes
    requires rs != [] && forall j :: 0 <= j < |rs| ==> rs[j].data.Child?
    ensures var nodes' := SetRecs(nodes, rows[d][i], rs);
      && Levels(nodes', rows)
      && forall k :: 0 <= k < |rows| && k != d ==>
        Agree(nodes, nodes', rows[k]) && Flat(nodes', rows[k]) == Flat(nodes, rows[k])
  {
    var p := rows[d][i];
    var nodes' := SetRecs(nodes, p, rs);
    assert Level(nodes, rows[d], |rows| - d);
    assert NodeAt(nodes, p, |rows| - d);
    forall k | 0 <= k < |rows|
      ensures Level(nodes', rows[k], |rows| - k)
      ensures k != d ==> Agree(nodes, nodes', rows[k]) && Flat(nodes', rows[k]) == Flat(nodes, rows[k])
    {
      assert Level(nodes, rows[k], |rows| - k);
      if k != d {
        assert forall j :: 0 <= j < |rows[k]| ==> NodeAt(nodes, rows[k][j], |rows| - k);
        LevelFrame(nodes, nodes', rows[k], |rows| - k);
      } else {
        LevelSetRecs(nodes, rows[d], |rows| - d, i, rs);
      }
    }
  }

  /** The index rows after node `i` of row `d` took the records `rs`. */
  lemma IndexEditRows(nodes: Img, rows: seq<seq<nat>>, below: seq<seq<nat>>, e: int, d: nat, i: nat, rs: seq<Rec>)
    requires Indexed(nodes, rows, below, e) && d < |rows| - 1 && i < |rows[d]| && rows[d][i] in nodes && NoDup(rows[d])
    requires forall k :: 0 <= k <= d ==> below[k] == rows[k]
    requires forall k :: d < k < |rows| ==> rows[d][i] !in below[k]
    requires rows[d][i] !in Kids(rs)
    requires Recs(nodes, rows[d][i]) != [] && IndexEditOk(nodes, rows, e, d, i, rs)
    requires forall k :: 0 <= k < |rows| && k != d ==>
      Flat(SetRecs(nodes, rows[d][i], rs), rows[k]) == Flat(nodes, rows[k])
    ensures |below| == |rows| && Contents(SetRecs(nodes, rows[d][i], rs), rows) == Contents(nodes, rows)
    ensures Indexed(SetRecs(nodes, rows[d][i], rs), rows, below[d + 1 := Named(nodes, rows[d], i, rs)], e)
  {
    hide Flat, IndexRow, Tight, Named;
    var p := rows[d][i];
    var nodes' := SetRecs(nodes, p, rs);
    var below' := below[d + 1 := Named(nodes, rows[d], i, rs)];
    var c := Contents(nodes, rows);
    HeadsSet(nodes, p, rs, e);
    forall k | 0 <= k < |rows| - 1 ensures IndexRow(nodes', c, rows[k], below'[k + 1], e) {
      assert IndexRow(nodes, c, rows[k], below[k + 1], e);
      if k == d {
        IndexEditRow(nodes, nodes', c, rows[d], below[d + 1], e, i, rs);
      } else {
        TightSame(nodes, nodes', c, p, below[k + 1], e);
        IndexRowKept(nodes, nodes', c, rows[k], rows[k], below[k + 1], e);
      }
    }
  }

  lemma HeadsSet(nodes: Img, p: nat, rs: seq<Rec>, e: int)
    requires p in nodes && rs != [] && Recs(nodes, p) != []
    ensures var nodes' := SetRecs(nodes, p, rs);
      && (forall n: nat :: n != p ==> Head(nodes', n, e) == Head(nodes, n, e))
      && Head(nodes', p, e) == rs[0].key && Head(nodes, p, e) == Recs(nodes, p)[0].key
  {
  }

  lemma TightSame(nodes: Img, nodes': Img, c: seq<Rec>, p: nat, s: seq<nat>, e: int)
    requires forall n: nat :: n != p ==> Head(nodes', n, e) == Head(nodes, n, e)
    requires Tight(c, Head(nodes, p, e), Head(nodes', p, e))
    ensures forall j :: 0 <= j < |s| ==> Tight(c, Head(nodes, s[j], e), Head(nodes', s[j], e))
  {
    hide Head;
  }

  lemma IndexEdit(nodes: Img, rows: seq<seq<nat>>, below: seq<seq<nat>>, e: int, d: nat, i: nat, rs: seq<Rec>)
    requires WF(nodes, rows, below, e) && d < |rows| - 1 && i < |rows[d]|
    requires forall k :: 0 <= k <= d ==> below[k] == rows[k]
    requires forall k :: d < k < |rows| ==> rows[d][i] !in below[k]
    requires rows[d][i] !in Kids(rs)
    requires Recs(nodes, rows[d][i]) != [] && IndexEditOk(nodes, rows, e, d, i, rs)
    ensures WF(SetRecs(nodes, rows[d][i], rs), rows, below[d + 1 := Named(nodes, rows[d], i, rs)], e)
    ensures Contents(SetRecs(nodes, rows[d][i], rs), rows) == Contents(nodes, rows)
  {
    hide Flat, Level, Indexed, Asc, Named, Tight;
    assert Level(nodes, rows[d], |rows| - d);
    LevelNoDup(nodes, rows[d], |rows| - d);
    IndexEditLevels(nodes, rows, d, i, rs);
    IndexEditRows(nodes, rows, below, e, d, i, rs);
  }

  lemma LevelNoDup(nodes: Img, s: seq<nat>, h: nat)
    requires Level(nodes, s, h)
    ensures NoDup(s)
  {
  }

  lemma LevelSetRecs(nodes: Img, s: seq<nat>, h: nat, i: nat, rs: seq<Rec>)
    requires Level(nodes, s, h) && i < |s| && rs != []
    requires forall j :: 0 <= j < |rs| ==> rs[j].data.Child?
    requires h > 1
    ensures Level(SetRecs(nodes, s[i], rs), s, h)
  {
    var nodes' := SetRecs(nodes, s[i], rs);
    forall j | 0 <= j < |s| ensures NodeAt(nodes', s[j], h) && LinksAt(nodes', s, j) {
      assert NodeAt(nodes, s[j], h) && LinksAt(nodes, s, j);
    }
  }
}
