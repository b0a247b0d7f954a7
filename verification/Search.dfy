/** Descending by index keys, and what the leaf it reaches says about the whole chain. */
module Search {
  import opened Nodes
  import opened Rows
  import opened Edits
  import opened Steps

  /** The child `descend` chooses: the last record whose key is at most `p`, or the first record. */
  function Pick(rs: seq<Rec>, p: int): (n: nat)
    ensures rs != [] ==> n < |rs|
    ensures rs != [] && rs[0].key <= p ==> rs[n].key <= p
    ensures forall i :: 0 < i <= n && i < |rs| ==> rs[i].key <= p
    ensures n + 1 < |rs| ==> p < rs[n + 1].key || (n == 0 && p < rs[0].key)
  {
    var n := LowerBound(rs, p + 1);
    if n == 0 then 0 else n - 1
  }

  /** Record `q` is the last of `f` whose key is at most `p`. */
  ghost predicate Around(f: seq<Rec>, q: nat, p: int) {
    && q < |f|
    && (forall j :: 0 <= j <= q ==> f[j].key <= p)
    && (forall j :: q < j < |f| ==> p < f[j].key)
  }

  /** A descent, as far as it has come: `path[d]` is node `pos[d]` of row `d`, and record `ci[d]` of it was taken. */
  ghost predicate PathOk(nodes: Img, rows: seq<seq<nat>>, path: seq<nat>, ci: seq<nat>, pos: seq<nat>) {
    && 1 <= |path| <= |rows| && |ci| == |path| - 1 && |pos| == |path|
    && pos[0] == 0
    && (forall d :: 0 <= d < |path| ==> pos[d] < |rows[d]| && path[d] == rows[d][pos[d]])
    && (forall d :: 0 <= d < |ci| ==> TurnOk(nodes, rows, ci, pos, d))
  }

  ghost predicate TurnOk(nodes: Img, rows: seq<seq<nat>>, ci: seq<nat>, pos: seq<nat>, d: int)
    requires 0 <= d < |ci| && d + 1 < |pos| && d < |rows| && pos[d] < |rows[d]|
  {
    && ci[d] < |Recs(nodes, rows[d][pos[d]])|
    && pos[d + 1] == Off(nodes, rows[d], pos[d]) + ci[d]
  }

  /** At no level did the descent fall back on a first child whose key is above `p`. */
  ghost predicate NoFallback(nodes: Img, path: seq<nat>, ci: seq<nat>, p: int)
    requires |ci| <= |path|
  {
    forall d :: 0 <= d < |ci| ==>
      Recs(nodes, path[d]) != [] && Recs(nodes, path[d])[0].key <= p && ci[d] == Pick(Recs(nodes, path[d]), p)
  }

  /** Each turn of the descent took the record `descend` chooses. */
  ghost predicate Followed(nodes: Img, path: seq<nat>, ci: seq<nat>, p: int)
    requires |ci| <= |path|
  {
    forall d :: 0 <= d < |ci| ==> ci[d] == Pick(Recs(nodes, path[d]), p)
  }

  ghost predicate WholeFull(nodes: Img, rows: seq<seq<nat>>, e: int) {
    Whole(nodes, rows, e) && AllFull(nodes, rows[|rows| - 1])
  }

  lemma SingleRoot(nodes: Img, rows: seq<seq<nat>>, e: int)
    requires Whole(nodes, rows, e)
    ensures |rows[0]| == 1
  {
  }

  /** One level of the descent keeps `p` between adjacent keys of the whole row. */
  lemma AroundStep(nodes: Img, rows: seq<seq<nat>>, e: int, d: nat, i: nat, p: int)
    requires WholeFull(nodes, rows, e) && d < |rows| - 1 && i < |rows[d]|
    requires d > 0 ==> Around(Flat(nodes, rows[d - 1]), i, p)
    requires Recs(nodes, rows[d][i]) != [] && Recs(nodes, rows[d][i])[0].key <= p
    ensures Around(Flat(nodes, rows[d]), Off(nodes, rows[d], i) + Pick(Recs(nodes, rows[d][i]), p), p)
  {
    hide Flat, Pick, Level, Levels, Indexed, Around;
    var s := rows[d];
    var rs := Recs(nodes, s[i]);
    var fa, fb := Flat(nodes, s[..i]), Flat(nodes, s[i + 1..]);
    FlatAt(nodes, s, i);
    RowSpread(nodes, rows, e, d);
    if i + 1 < |s| {
      NextHead(nodes, rows, e, d, i, p);
    } else {
      assert i + 1 == |s|;
      FlatEnds(nodes, s);
    }
    hide *;
    AroundParts(fa, rs, fb, p);
  }

  lemma AroundParts(fa: seq<Rec>, rs: seq<Rec>, fb: seq<Rec>, p: int)
    requires Asc(fa + rs + fb) && rs != [] && rs[0].key <= p
    requires var f := fa + rs + fb; forall j :: |fa| + |rs| <= j < |f| ==> p < f[j].key
    ensures Around(fa + rs + fb, |fa| + Pick(rs, p), p)
  {
    hide Pick;
    var f := fa + rs + fb;
    var n := Pick(rs, p);
    assert f[|fa|] == rs[0];
    assert forall j :: 0 <= j < |rs| ==> rs[j] == f[|fa| + j];
    assert f[|fa| + n] == rs[n];
    assert n + 1 < |rs| ==> f[|fa| + n + 1] == rs[n + 1];
  }

  lemma FlatEnds(nodes: Img, s: seq<nat>)
    ensures Flat(nodes, s[..0]) == [] && Flat(nodes, s[|s|..]) == []
  {
    assert s[..0] == [] && s[|s|..] == [];
  }

  /** The records right of node `i` are above `p` when the next index key is. */
  lemma NextHead(nodes: Img, rows: seq<seq<nat>>, e: int, d: nat, i: nat, p: int)
    requires WholeFull(nodes, rows, e) && d < |rows| && i + 1 < |rows[d]|
    requires d > 0 ==> Around(Flat(nodes, rows[d - 1]), i, p)
    ensures var n := Off(nodes, rows[d], i) + |Recs(nodes, rows[d][i])|;
      && n < |Flat(nodes, rows[d])|
      && forall j :: n <= j < |Flat(nodes, rows[d])| ==> p < Flat(nodes, rows[d])[j].key
  {
    hide Flat, Level;
    var s := rows[d];
    SingleRoot(nodes, rows, e);
    assert IndexRow(nodes, Contents(nodes, rows), rows[d - 1], s, e);
    RowSpread(nodes, rows, e, d);
    FlatAt(nodes, s, i);
    HeadAt(nodes, s, i + 1, e);
    var f := Flat(nodes, rows[d - 1]);
    assert Tight(Contents(nodes, rows), f[i + 1].key, Head(nodes, s[i + 1], e));
    assert p < f[i + 1].key;
  }

  /** The records left of node `i` of the leaf row are below `p` when its index key is not above `p`. */
  lemma PreviousTail(nodes: Img, rows: seq<seq<nat>>, e: int, d: nat, i: nat, p: int)
    requires WholeFull(nodes, rows, e) && d == |rows| - 1 && i < |rows[d]|
    requires d > 0 ==> Around(Flat(nodes, rows[d - 1]), i, p)
    ensures AllBelow(Flat(nodes, rows[d][..i]), p)
  {
    hide Flat, Level;
    var s := rows[d];
    var c := Contents(nodes, rows);
    var fa := Flat(nodes, s[..i]);
    if d > 0 {
      FlatAt(nodes, s, i);
      assert IndexRow(nodes, c, rows[d - 1], s, e);
      var f := Flat(nodes, rows[d - 1]);
      HeadAt(nodes, s, i, e);
      assert Tight(c, f[i].key, Head(nodes, s[i], e));
      assert forall j :: 0 <= j < |fa| ==> fa[j] == c[j];
    } else {
      SingleRoot(nodes, rows, e);
      FlatEnds(nodes, s);
      assert fa == [];
    }
  }

  /** The leaf the descent reaches cuts the chain around `p`: smaller keys left of it, larger keys right. */
  lemma LeafAround(nodes: Img, rows: seq<seq<nat>>, e: int, i: nat, p: int)
    requires WholeFull(nodes, rows, e) && i < |rows[|rows| - 1]|
    requires |rows| > 1 ==> Around(Flat(nodes, rows[|rows| - 2]), i, p)
    ensures var s := rows[|rows| - 1];
      var fa, rs, fb := Flat(nodes, s[..i]), Recs(nodes, s[i]), Flat(nodes, s[i + 1..]);
      && Contents(nodes, rows) == fa + rs + fb
      && AllBelow(fa, p) && AllAbove(fb, p) && Asc(rs)
  {
    hide Flat, Level, Indexed, Levels, AllBelow, AllAbove, Asc, Around, AllFull;
    var d := |rows| - 1;
    var s := rows[d];
    var fa, rs, fb := Flat(nodes, s[..i]), Recs(nodes, s[i]), Flat(nodes, s[i + 1..]);
    FlatAt(nodes, s, i);
    PreviousTail(nodes, rows, e, d, i, p);
    if i + 1 < |s| {
      NextHead(nodes, rows, e, d, i, p);
    } else {
      assert i + 1 == |s|;
      FlatEnds(nodes, s);
    }
    hide *;
    ThreeParts(fa, rs, fb, p);
  }

  lemma ThreeParts(fa: seq<Rec>, rs: seq<Rec>, fb: seq<Rec>, p: int)
    requires var c := fa + rs + fb;
      Asc(c) && forall j :: |fa| + |rs| <= j < |c| ==> p < c[j].key
    ensures AllAbove(fb, p) && Asc(rs)
  {
    var c := fa + rs + fb;
    assert forall j :: 0 <= j < |rs| ==> rs[j] == c[|fa| + j];
    assert forall j :: 0 <= j < |fb| ==> fb[j] == c[|fa| + |rs| + j];
  }

  /** Every stored key is at least the first index key of any row. */
  lemma {:induction false} LowestKey(nodes: Img, rows: seq<seq<nat>>, e: int, d: nat)
    requires WholeFull(nodes, rows, e) && d < |rows|
    ensures Flat(nodes, rows[d]) != []
    ensures forall x :: 0 <= x < |Contents(nodes, rows)| ==> Flat(nodes, rows[d])[0].key <= Contents(nodes, rows)[x].key
    decreases |rows| - d
  {
    hide Flat;
    var c := Contents(nodes, rows);
    RowSpread(nodes, rows, e, d);
    assert Level(nodes, rows[d], |rows| - d);
    HeadAt(nodes, rows[d], 0, e);
    if d < |rows| - 1 {
      LowestKey(nodes, rows, e, d + 1);
      RowSpread(nodes, rows, e, d + 1);
      var s := rows[d + 1];
      assert IndexRow(nodes, c, rows[d], s, e);
      HeadAt(nodes, s, 0, e);
      FlatEnds(nodes, s);
      assert Tight(c, Flat(nodes, rows[d])[0].key, Head(nodes, s[0], e));
    }
  }

  /** A descent that falls back at some level is looking for an absent key. */
  lemma FallbackAbsent(nodes: Img, rows: seq<seq<nat>>, e: int, d: nat, i: nat, p: int)
    requires WholeFull(nodes, rows, e) && d < |rows| - 1 && i < |rows[d]|
    requires d > 0 ==> Around(Flat(nodes, rows[d - 1]), i, p)
    requires Recs(nodes, rows[d][i]) != [] && p < Recs(nodes, rows[d][i])[0].key
    ensures !HasKey(Contents(nodes, rows), p)
  {
    hide Flat;
    var c := Contents(nodes, rows);
    if d > 0 {
      assert IndexRow(nodes, c, rows[d - 1], rows[d], e);
      assert Tight(c, Flat(nodes, rows[d - 1])[i].key, Head(nodes, rows[d][i], e));
    } else {
      SingleRoot(nodes, rows, e);
      LowestKey(nodes, rows, e, 0);
      HeadAt(nodes, rows[0], 0, e);
      FlatEnds(nodes, rows[0]);
    }
  }

  /** Along a descent without fallback, `p` lies between adjacent keys of every index row. */
  lemma {:induction false} DescentAround(nodes: Img, rows: seq<seq<nat>>, e: int, path: seq<nat>, ci: seq<nat>,
      pos: seq<nat>, p: int, d: nat)
    requires WholeFull(nodes, rows, e) && PathOk(nodes, rows, path, ci, pos)
    requires NoFallback(nodes, path, ci, p) && d < |ci|
    ensures Around(Flat(nodes, rows[d]), pos[d + 1], p)
  {
    hide Flat, Pick, WF;
    if d > 0 {
      DescentAround(nodes, rows, e, path, ci, pos, p, d - 1);
    }
    assert TurnOk(nodes, rows, ci, pos, d);
    AroundStep(nodes, rows, e, d, pos[d], p);
  }

  lemma PathExtend(nodes: Img, rows: seq<seq<nat>>, e: int, path: seq<nat>, ci: seq<nat>, pos: seq<nat>, j: nat)
    requires Whole(nodes, rows, e) && PathOk(nodes, rows, path, ci, pos) && |path| < |rows|
    requires j < |Recs(nodes, path[|path| - 1])|
    ensures var last := |path| - 1;
      PathOk(nodes, rows, path + [Kid(Recs(nodes, path[last])[j])], ci + [j],
        pos + [Off(nodes, rows[last], pos[last]) + j])
  {
    hide Flat, Level, Off, TurnOk, IndexRow, WF;
    var last := |path| - 1;
    var n := path[last];
    var x := Off(nodes, rows[last], pos[last]) + j;
    NextNode(nodes, rows, e, last, pos[last], j);
    var path', ci', pos' := path + [Kid(Recs(nodes, n)[j])], ci + [j], pos + [x];
    forall d | 0 <= d < |ci'| ensures TurnOk(nodes, rows, ci', pos', d) {
      if d < |ci| {
        TurnKept(nodes, rows, ci, pos, j, x, d);
      } else {
        TurnNew(nodes, rows, ci, pos, j);
      }
    }
    assert path'[last + 1] == rows[last + 1][x] && pos'[last + 1] == x;
  }

  lemma NextNode(nodes: Img, rows: seq<seq<nat>>, e: int, d: nat, i: nat, j: nat)
    requires Whole(nodes, rows, e) && d < |rows| - 1 && i < |rows[d]| && j < |Recs(nodes, rows[d][i])|
    ensures Off(nodes, rows[d], i) + j < |rows[d + 1]|
    ensures rows[d + 1][Off(nodes, rows[d], i) + j] == Kid(Recs(nodes, rows[d][i])[j])
  {
    hide Flat, Level;
    assert IndexRow(nodes, Contents(nodes, rows), rows[d], rows[d + 1], e);
    KidAt(nodes, Contents(nodes, rows), rows[d], rows[d + 1], e, i, j);
  }

  lemma TurnKept(nodes: Img, rows: seq<seq<nat>>, ci: seq<nat>, pos: seq<nat>, j: nat, x: nat, d: nat)
    requires d < |ci| && |pos| == |ci| + 1 && d < |rows| && pos[d] < |rows[d]| && TurnOk(nodes, rows, ci, pos, d)
    ensures TurnOk(nodes, rows, ci + [j], pos + [x], d)
  {
    hide Off;
  }

  lemma TurnNew(nodes: Img, rows: seq<seq<nat>>, ci: seq<nat>, pos: seq<nat>, j: nat)
    requires var d := |ci|; |pos| == d + 1 && d < |rows| && pos[d] < |rows[d]| && j < |Recs(nodes, rows[d][pos[d]])|
    ensures TurnOk(nodes, rows, ci + [j], pos + [Off(nodes, rows[|ci|], pos[|ci|]) + j], |ci|)
  {
    hide Off;
  }

  lemma PathPrefix(nodes: Img, rows: seq<seq<nat>>, path: seq<nat>, ci: seq<nat>, pos: seq<nat>, k: nat)
    requires PathOk(nodes, rows, path, ci, pos) && 1 <= k <= |path|
    ensures PathOk(nodes, rows, path[..k], ci[..k - 1], pos[..k])
  {
    hide Off;
    var ci', pos' := ci[..k - 1], pos[..k];
    forall d | 0 <= d < k - 1 ensures TurnOk(nodes, rows, ci', pos', d) {
      assert TurnOk(nodes, rows, ci, pos, d);
    }
  }

  /** A descent that follows `descend` either never falls back, or shows the key absent. */
  lemma {:induction false} FollowedOrAbsent(nodes: Img, rows: seq<seq<nat>>, e: int, path: seq<nat>, ci: seq<nat>,
      pos: seq<nat>, p: int, k: nat)
    requires WholeFull(nodes, rows, e) && PathOk(nodes, rows, path, ci, pos) && |path| == |rows|
    requires Followed(nodes, path, ci, p)
    requires k <= |ci|
    ensures NoFallback(nodes, path[..k], ci[..k], p) || !HasKey(Contents(nodes, rows), p)
  {
    hide Flat, Pick, HasKey, WF, TurnOk, AllFull;
    if k > 0 {
      FollowedOrAbsent(nodes, rows, e, path, ci, pos, p, k - 1);
      if NoFallback(nodes, path[..k - 1], ci[..k - 1], p) {
        FollowedTurn(nodes, rows, e, path, ci, pos, p, k - 1);
      }
    }
  }

  lemma FollowedTurn(nodes: Img, rows: seq<seq<nat>>, e: int, path: seq<nat>, ci: seq<nat>, pos: seq<nat>, p: int,
      d: nat)
    requires WholeFull(nodes, rows, e) && PathOk(nodes, rows, path, ci, pos) && |path| == |rows|
    requires Followed(nodes, path, ci, p)
    requires d < |ci| && NoFallback(nodes, path[..d], ci[..d], p)
    ensures NoFallback(nodes, path[..d + 1], ci[..d + 1], p) || !HasKey(Contents(nodes, rows), p)
  {
    hide Flat, Pick, HasKey, WF, TurnOk;
    RowSpread(nodes, rows, e, d);
    if d > 0 {
      DescentAroundPrefix(nodes, rows, e, path, ci, pos, p, d);
    }
    if p < Recs(nodes, path[d])[0].key {
      FallbackAbsent(nodes, rows, e, d, pos[d], p);
    } else {
      NoFallbackMore(nodes, path, ci, p, d);
    }
  }

  lemma NoFallbackMore(nodes: Img, path: seq<nat>, ci: seq<nat>, p: int, d: nat)
    requires d < |ci| < |path| && NoFallback(nodes, path[..d], ci[..d], p) && Followed(nodes, path, ci, p)
    requires Recs(nodes, path[d]) != [] && Recs(nodes, path[d])[0].key <= p
    ensures NoFallback(nodes, path[..d + 1], ci[..d + 1], p)
  {
    hide Pick;
    assert forall k :: 0 <= k < d ==> path[..d + 1][k] == path[..d][k] && ci[..d + 1][k] == ci[..d][k];
  }

  lemma DescentAroundPrefix(nodes: Img, rows: seq<seq<nat>>, e: int, path: seq<nat>, ci: seq<nat>, pos: seq<nat>,
      p: int, d: nat)
    requires WholeFull(nodes, rows, e) && PathOk(nodes, rows, path, ci, pos) && 0 < d < |path|
    requires NoFallback(nodes, path[..d], ci[..d], p)
    ensures Around(Flat(nodes, rows[d - 1]), pos[d], p)
  {
    hide Flat, Pick, WF;
    PathPrefix(nodes, rows, path, ci, pos, d + 1);
    assert forall x :: 0 <= x < d ==> path[..d + 1][x] == path[..d][x];
    assert NoFallback(nodes, path[..d + 1], ci[..d], p);
    DescentAround(nodes, rows, e, path[..d + 1], ci[..d], pos[..d + 1], p, d - 1);
  }
}
