/** The shape of a tree: one row of node numbers per depth, `rows[0]` the root, the last row the
    leaves. All of the engine's invariants are stated over rows, with no recursion over a tree:

    - every row is a doubly linked chain of nodes of one height (`Level`);
    - the child pointers of a row, read left to right, are exactly the next row (`IndexRow`);
    - no stored key lies between an index key and the first key of the child it names (`Tight`). */
module Rows {
  import opened Nodes

  type Img = map<nat, Node>

  function Recs(nodes: Img, n: nat): seq<Rec> {
    if n in nodes then nodes[n].recs else []
  }

  /** All records of a row, left to right. */
  function Flat(nodes: Img, s: seq<nat>): seq<Rec> {
    if s == [] then [] else Recs(nodes, s[0]) + Flat(nodes, s[1..])
  }

  /** A node's first key; `e` stands in for the first key of a node that has just lost its only record. */
  function Head(nodes: Img, n: nat, e: int): int {
    if Recs(nodes, n) == [] then e else Recs(nodes, n)[0].key
  }

  ghost predicate NoDup(s: seq<nat>) {
    forall i, j :: 0 <= i < j < |s| ==> s[i] != s[j]
  }

  /** Node `i` of the row links to its neighbours, 0 at the ends. */
  ghost predicate LinksAt(nodes: Img, s: seq<nat>, i: int)
    requires 0 <= i < |s|
  {
    && s[i] in nodes
    && nodes[s[i]].flink == (if i + 1 < |s| then s[i + 1] else 0)
    && nodes[s[i]].blink == (if i > 0 then s[i - 1] else 0)
  }

  ghost predicate Chain(nodes: Img, s: seq<nat>) {
    forall i :: 0 <= i < |s| ==> LinksAt(nodes, s, i)
  }

  /** A node of height `h`: a leaf at height 1, above it an index node with at least one child. */
  predicate NodeAt(nodes: Img, n: nat, h: nat) {
    && n != 0 && n in nodes
    && nodes[n].height == h
    && nodes[n].kind == (if h == 1 then Leaf else Index)
    && (h > 1 ==> nodes[n].recs != [])
    && (h > 1 ==> forall i :: 0 <= i < |nodes[n].recs| ==> nodes[n].recs[i].data.Child?)
  }

  ghost predicate Level(nodes: Img, s: seq<nat>, h: nat) {
    && s != [] && NoDup(s)
    && (forall i :: 0 <= i < |s| ==> NodeAt(nodes, s[i], h))
    && Chain(nodes, s)
  }

  /** `lo <= hi` and no key of `c` lies in `[lo, hi)`. */
  ghost predicate Tight(c: seq<Rec>, lo: int, hi: int) {
    && lo <= hi
    && forall x :: 0 <= x < |c| ==> c[x].key < lo || hi <= c[x].key
  }

  /** Row `up` indexes row `down`: its children are `down`, and every key is tight. */
  ghost predicate IndexRow(nodes: Img, c: seq<Rec>, up: seq<nat>, down: seq<nat>, e: int) {
    && Kids(Flat(nodes, up)) == down
    && forall j :: 0 <= j < |down| ==> Tight(c, Flat(nodes, up)[j].key, Head(nodes, down[j], e))
  }

  /** The records of the leaf chain, left to right. */
  function Contents(nodes: Img, rows: seq<seq<nat>>): seq<Rec> {
    if rows == [] then [] else Flat(nodes, rows[|rows| - 1])
  }

  ghost predicate Levels(nodes: Img, rows: seq<seq<nat>>) {
    forall d :: 0 <= d < |rows| ==> Level(nodes, rows[d], |rows| - d)
  }

  ghost predicate Indexed(nodes: Img, rows: seq<seq<nat>>, below: seq<seq<nat>>, e: int) {
    && |below| == |rows|
    && forall d :: 0 <= d < |rows| - 1 ==> IndexRow(nodes, Contents(nodes, rows), rows[d], below[d + 1], e)
  }

  /** The structural invariant. `below` is the rows as the index levels name them: it differs from
      `rows` only between a split and the insertion of the new node's index record. */
  ghost predicate WF(nodes: Img, rows: seq<seq<nat>>, below: seq<seq<nat>>, e: int) {
    && |rows| >= 1
    && Levels(nodes, rows)
    && Indexed(nodes, rows, below, e)
    && Asc(Contents(nodes, rows))
    && |below[0]| == 1
  }

  /** `base` holds the nodes of `live` as `nodes` does. */
  ghost predicate Carried(nodes: Img, base: Img, live: set<nat>) {
    forall m: nat :: m in live ==> m in nodes && m in base && base[m] == nodes[m]
  }

  ghost predicate InRows(rows: seq<seq<nat>>, n: nat) {
    exists d :: 0 <= d < |rows| && n in rows[d]
  }

  // ---- sequences of nodes ----

  lemma {:induction false} FlatCat(nodes: Img, a: seq<nat>, b: seq<nat>)
    ensures Flat(nodes, a + b) == Flat(nodes, a) + Flat(nodes, b)
  {
    if a == [] {
      assert a + b == b;
    } else {
      FlatCat(nodes, a[1..], b);
      assert (a + b)[1..] == a[1..] + b;
    }
  }

  lemma {:induction false} FlatSame(nodes: Img, nodes': Img, s: seq<nat>)
    requires forall i :: 0 <= i < |s| ==> Recs(nodes, s[i]) == Recs(nodes', s[i])
    ensures Flat(nodes, s) == Flat(nodes', s)
  {
    if s != [] {
      FlatSame(nodes, nodes', s[1..]);
    }
  }

  lemma FlatOne(nodes: Img, n: nat)
    ensures Flat(nodes, [n]) == Recs(nodes, n)
  {
    assert [n][1..] == [];
    assert Flat(nodes, []) == [];
  }

  lemma FlatTwo(nodes: Img, n: nat, m: nat)
    ensures Flat(nodes, [n, m]) == Recs(nodes, n) + Recs(nodes, m)
  {
    assert [n, m] == [n] + [m];
    FlatCat(nodes, [n], [m]);
    FlatOne(nodes, n);
    FlatOne(nodes, m);
  }

  lemma FlatParts(nodes: Img, a: seq<nat>, m: seq<nat>, b: seq<nat>)
    ensures Flat(nodes, a + m + b) == Flat(nodes, a) + Flat(nodes, m) + Flat(nodes, b)
  {
    hide Flat;
    FlatCat(nodes, a + m, b);
    FlatCat(nodes, a, m);
  }

  /** Node `i` holds a contiguous stretch of its row's records, and so of the next row's nodes. */
  lemma FlatAt(nodes: Img, s: seq<nat>, i: nat)
    requires i < |s|
    ensures Flat(nodes, s) == Flat(nodes, s[..i]) + Recs(nodes, s[i]) + Flat(nodes, s[i + 1..])
    ensures Flat(nodes, s[..i + 1]) == Flat(nodes, s[..i]) + Recs(nodes, s[i])
    ensures Flat(nodes, s[i..]) == Recs(nodes, s[i]) + Flat(nodes, s[i + 1..])
  {
    hide Flat;
    FlatOne(nodes, s[i]);
    assert s[..i + 1] == s[..i] + [s[i]] && s[i..] == [s[i]] + s[i + 1..] && s == s[..i + 1] + s[i + 1..];
    FlatCat(nodes, s[..i], [s[i]]);
    FlatCat(nodes, [s[i]], s[i + 1..]);
    FlatCat(nodes, s[..i + 1], s[i + 1..]);
  }

  /** A nonempty node's first record sits at the node's offset in the flattened row. */
  lemma HeadAt(nodes: Img, s: seq<nat>, i: nat, e: int)
    requires i < |s| && Recs(nodes, s[i]) != []
    ensures |Flat(nodes, s[..i])| < |Flat(nodes, s)|
    ensures Head(nodes, s[i], e) == Flat(nodes, s)[|Flat(nodes, s[..i])|].key
  {
    FlatAt(nodes, s, i);
  }

  lemma {:induction false} FlatPrefix(nodes: Img, s: seq<nat>, i: nat, j: nat)
    requires i <= j <= |s|
    ensures |Flat(nodes, s[..i])| <= |Flat(nodes, s[..j])|
    ensures (forall k :: 0 <= k < |s| ==> Recs(nodes, s[k]) != []) && i < j ==>
      |Flat(nodes, s[..i])| < |Flat(nodes, s[..j])|
    decreases j
  {
    hide Flat;
    if i < j {
      FlatPrefix(nodes, s, i, j - 1);
      FlatAt(nodes, s, j - 1);
    }
  }

  /** First keys ascend along a row whose records ascend. */
  lemma HeadsAsc(nodes: Img, s: seq<nat>, i: nat, j: nat, e: int)
    requires Asc(Flat(nodes, s))
    requires i < j < |s|
    requires forall k :: 0 <= k < |s| ==> Recs(nodes, s[k]) != []
    ensures Head(nodes, s[i], e) < Head(nodes, s[j], e)
  {
    HeadAt(nodes, s, i, e);
    HeadAt(nodes, s, j, e);
    FlatPrefix(nodes, s, i, j);
  }

  // ---- the order of every row follows from tightness ----

  /** Between any two keys of `rs` there is a stored key. */
  ghost predicate Spread(c: seq<Rec>, rs: seq<Rec>) {
    forall i, j :: 0 <= i < j < |rs| ==> Between(c, rs[i].key, rs[j].key)
  }

  ghost predicate Between(c: seq<Rec>, lo: int, hi: int) {
    exists x :: 0 <= x < |c| && lo <= c[x].key < hi
  }

  lemma SpreadIsAsc(c: seq<Rec>, rs: seq<Rec>)
    requires Spread(c, rs)
    ensures Asc(rs)
  {
    forall i, j | 0 <= i < j < |rs| ensures rs[i].key < rs[j].key {
      assert Between(c, rs[i].key, rs[j].key);
    }
  }

  lemma SpreadUp(nodes: Img, c: seq<Rec>, up: seq<nat>, down: seq<nat>, e: int)
    requires IndexRow(nodes, c, up, down, e)
    requires Spread(c, Flat(nodes, down))
    requires forall k :: 0 <= k < |down| ==> Recs(nodes, down[k]) != []
    ensures Spread(c, Flat(nodes, up))
  {
    var f := Flat(nodes, up);
    forall i, j | 0 <= i < j < |f| ensures Between(c, f[i].key, f[j].key) {
      HeadAt(nodes, down, i, e);
      HeadAt(nodes, down, j, e);
      FlatPrefix(nodes, down, i, j);
      assert Between(c, Head(nodes, down[i], e), Head(nodes, down[j], e));
      var x :| 0 <= x < |c| && Head(nodes, down[i], e) <= c[x].key < Head(nodes, down[j], e);
      assert Tight(c, f[i].key, Head(nodes, down[i], e)) && Tight(c, f[j].key, Head(nodes, down[j], e));
      assert f[i].key <= c[x].key < f[j].key;
    }
  }

  ghost predicate AllFull(nodes: Img, s: seq<nat>) {
    forall i :: 0 <= i < |s| ==> Recs(nodes, s[i]) != []
  }

  /** Every row's keys are strictly ascending once no leaf is empty. */
  lemma {:induction false} RowSpread(nodes: Img, rows: seq<seq<nat>>, e: int, d: nat)
    requires WF(nodes, rows, rows, e) && AllFull(nodes, rows[|rows| - 1])
    requires d < |rows|
    ensures Spread(Contents(nodes, rows), Flat(nodes, rows[d]))
    ensures Asc(Flat(nodes, rows[d]))
    ensures AllFull(nodes, rows[d])
    decreases |rows| - d
  {
    var c := Contents(nodes, rows);
    if d < |rows| - 1 {
      RowSpread(nodes, rows, e, d + 1);
      assert IndexRow(nodes, c, rows[d], rows[d + 1], e);
      SpreadUp(nodes, c, rows[d], rows[d + 1], e);
      assert Level(nodes, rows[d], |rows| - d);
    } else {
      forall i, j | 0 <= i < j < |c| ensures Between(c, c[i].key, c[j].key) {
        assert c[i].key <= c[i].key < c[j].key;
      }
    }
    SpreadIsAsc(c, Flat(nodes, rows[d]));
  }
}
