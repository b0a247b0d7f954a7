/** The node bitmap: its first stretch sits in the header node, each further stretch in a map node,
    and the map nodes are chained from the header. A map node occupies a slot of the bitmap itself. */
module NodePool {
  import opened Nodes
  import opened Rows

  /** The header node or a map node, as the bitmap walk sees it. */
  datatype MapRec = MapRec(flink: nat, bits: seq<bool>)

  type MapImg = map<nat, MapRec>

  function StretchOf(img: MapImg, n: nat): seq<bool> {
    if n in img then img[n].bits else []
  }

  /** The whole bitmap: the stretches of the chain, end to end. */
  function Bits(img: MapImg, chain: seq<nat>): seq<bool> {
    if chain == [] then [] else StretchOf(img, chain[0]) + Bits(img, chain[1..])
  }

  predicate Bit(bits: seq<bool>, n: nat) {
    n < |bits| && bits[n]
  }

  /** Clear bits below `n`; a bit the bitmap does not reach counts as clear. */
  function Clear(bits: seq<bool>, n: nat): (k: nat)
    ensures k <= n
  {
    if n == 0 then 0 else Clear(bits, n - 1) + (if Bit(bits, n - 1) then 0 else 1)
  }

  /** Every bit below `cap` that the bitmap has is set. */
  ghost predicate FullBelow(bits: seq<bool>, cap: nat) {
    forall k :: 0 <= k < cap && k < |bits| ==> bits[k]
  }

  /** `chain` is the header node followed by the map nodes, in link order. */
  ghost predicate MapChain(img: MapImg, chain: seq<nat>) {
    && chain != [] && chain[0] == 0 && NoDup(chain)
    && (forall n: nat :: n in img <==> n in chain)
    && (forall i :: 0 <= i < |chain| ==> MapLink(img, chain, i))
  }

  ghost predicate MapLink(img: MapImg, chain: seq<nat>, i: int)
    requires 0 <= i < |chain|
  {
    && chain[i] in img
    && img[chain[i]].flink == (if i + 1 < |chain| then chain[i + 1] else 0)
  }

  /** Below `cap`, the used nodes are exactly the header node, the map nodes and the live tree nodes. */
  ghost predicate UsedOk(nodes: Img, img: MapImg, bits: seq<bool>, live: set<nat>, cap: nat) {
    && (forall n: nat :: 0 <= n < cap ==> (Bit(bits, n) <==> n in img || n in live))
    && (forall n: nat :: cap <= n < |bits| ==> !bits[n])
    && (forall n: nat :: n in nodes <==> n < cap && n !in img)
    && (forall n: nat :: n in img ==> n < cap)
    && live <= nodes.Keys
  }

  ghost predicate PoolOk(nodes: Img, img: MapImg, chain: seq<nat>, live: set<nat>, total: nat, free: nat) {
    && MapChain(img, chain)
    && UsedOk(nodes, img, Bits(img, chain), live, total)
    && total <= |Bits(img, chain)|
    && free == Clear(Bits(img, chain), total)
  }

  // ---- the bitmap as a concatenation ----

  lemma {:induction false} BitsCat(img: MapImg, a: seq<nat>, b: seq<nat>)
    ensures Bits(img, a + b) == Bits(img, a) + Bits(img, b)
  {
    if a == [] {
      assert a + b == b;
    } else {
      BitsCat(img, a[1..], b);
      assert (a + b)[1..] == a[1..] + b;
    }
  }

  lemma {:induction false} BitsSame(img: MapImg, img': MapImg, chain: seq<nat>)
    requires forall i :: 0 <= i < |chain| ==> StretchOf(img, chain[i]) == StretchOf(img', chain[i])
    ensures Bits(img, chain) == Bits(img', chain)
  {
    if chain != [] {
      BitsSame(img, img', chain[1..]);
    }
  }

  lemma BitsAt(img: MapImg, chain: seq<nat>, i: nat)
    requires i < |chain|
    ensures Bits(img, chain) == Bits(img, chain[..i]) + StretchOf(img, chain[i]) + Bits(img, chain[i + 1..])
    ensures Bits(img, chain[..i + 1]) == Bits(img, chain[..i]) + StretchOf(img, chain[i])
  {
    hide Bits, StretchOf;
    var a, b := chain[..i], chain[i + 1..];
    BitsOne(img, chain[i]);
    BitsCat(img, a, [chain[i]]);
    BitsCat(img, a + [chain[i]], b);
    assert chain[..i + 1] == a + [chain[i]];
    assert chain == a + [chain[i]] + b;
  }

  lemma BitsOne(img: MapImg, n: nat)
    ensures Bits(img, [n]) == StretchOf(img, n)
  {
    assert [n][1..] == [];
    assert Bits(img, []) == [];
  }

  /** Changing one bit of one stretch changes that bit of the bitmap and no other. */
  lemma BitsUpdate(img: MapImg, chain: seq<nat>, i: nat, rel: nat, used: bool)
    requires MapChain(img, chain) && i < |chain| && rel < |StretchOf(img, chain[i])|
    ensures var img' := img[chain[i] := img[chain[i]].(bits := img[chain[i]].bits[rel := used])];
      && MapChain(img', chain)
      && |Bits(img, chain[..i])| + rel < |Bits(img, chain)|
      && Bits(img', chain) == Bits(img, chain)[|Bits(img, chain[..i])| + rel := used]
  {
    hide Bits;
    var n := chain[i];
    var img' := img[n := img[n].(bits := img[n].bits[rel := used])];
    BitsAt(img, chain, i);
    BitsAt(img', chain, i);
    BitsSame(img, img', chain[..i]);
    BitsSame(img, img', chain[i + 1..]);
    forall k | 0 <= k < |chain| ensures MapLink(img', chain, k) {
      assert MapLink(img, chain, k);
    }
  }

  /** Appending a map node with an all-clear stretch leaves the old bits and adds clear ones. */
  lemma BitsAppend(img: MapImg, chain: seq<nat>, slot: nat, len: nat)
    requires MapChain(img, chain) && slot !in chain
    ensures var last := chain[|chain| - 1];
      var img' := img[last := img[last].(flink := slot)][slot := MapRec(0, seq(len, _ => false))];
      && MapChain(img', chain + [slot])
      && Bits(img', chain + [slot]) == Bits(img, chain) + seq(len, _ => false)
  {
    hide Bits;
    assert MapLink(img, chain, |chain| - 1);
    assert MapLink(img, chain, 0);
    var last := chain[|chain| - 1];
    var img' := img[last := img[last].(flink := slot)][slot := MapRec(0, seq(len, _ => false))];
    BitsCat(img', chain, [slot]);
    BitsOne(img', slot);
    assert forall i :: 0 <= i < |chain| ==> chain[i] != slot;
    BitsSame(img, img', chain);
    var t := chain + [slot];
    forall k | 0 <= k < |t| ensures MapLink(img', t, k) {
      if k < |chain| {
        assert MapLink(img, chain, k) && t[k] == chain[k];
        assert k < |chain| - 1 ==> chain[k] != last;
      }
    }
  }

  // ---- counting clear bits ----

  lemma {:induction false} ClearSame(bits: seq<bool>, bits': seq<bool>, n: nat)
    requires forall i :: 0 <= i < n ==> Bit(bits, i) == Bit(bits', i)
    ensures Clear(bits, n) == Clear(bits', n)
  {
    if n > 0 {
      ClearSame(bits, bits', n - 1);
    }
  }

  lemma {:induction false} ClearSet(bits: seq<bool>, i: nat, n: nat)
    requires i < |bits| && i < n && !bits[i]
    ensures Clear(bits[i := true], n) == Clear(bits, n) - 1
    decreases n
  {
    if i == n - 1 {
      ClearSame(bits, bits[i := true], n - 1);
    } else {
      ClearSet(bits, i, n - 1);
    }
  }

  lemma ClearReset(bits: seq<bool>, i: nat, n: nat)
    requires i < |bits| && i < n && bits[i]
    ensures Clear(bits[i := false], n) == Clear(bits, n) + 1
  {
    ClearSet(bits[i := false], i, n);
    assert bits[i := false][i := true] == bits;
  }

  lemma {:induction false} ClearGrow(bits: seq<bool>, n: nat, m: nat)
    requires n <= m && forall i :: n <= i < |bits| ==> !bits[i]
    ensures Clear(bits, m) == Clear(bits, n) + (m - n)
    decreases m
  {
    if n < m {
      ClearGrow(bits, n, m - 1);
    }
  }

  lemma {:induction false} ClearPositive(bits: seq<bool>, i: nat, n: nat)
    requires i < n && !Bit(bits, i)
    ensures Clear(bits, n) > 0
    decreases n
  {
    if i < n - 1 {
      ClearPositive(bits, i, n - 1);
    }
  }

  /** A map node takes a clear slot of the bitmap it extends. */
  lemma MapNodeUsed(nodes: Img, img: MapImg, img': MapImg, bits: seq<bool>, bits': seq<bool>, live: set<nat>,
      cap: nat, slot: nat, len: nat)
    requires UsedOk(nodes, img, bits, live, cap)
    requires slot < cap && slot < |bits| && !bits[slot]
    requires img'.Keys == img.Keys + {slot}
    requires bits' == (bits + seq(len, _ => false))[slot := true]
    ensures UsedOk(nodes - {slot}, img', bits', live, cap)
    ensures Clear(bits', cap) == Clear(bits, cap) - 1
  {
    var b := bits + seq(len, _ => false);
    ClearSame(bits, b, cap);
    ClearSet(b, slot, cap);
    assert !Bit(bits, slot);
    assert forall n: nat :: n in img' <==> n in img.Keys + {slot};
    forall n: nat | 0 <= n < cap ensures Bit(bits', n) <==> n in img' || n in live {
      assert Bit(bits, n) <==> n in img || n in live;
    }
  }

  // ---- walking ----

  /** The walk stands at node `i` of the chain, `bitBase` bits in; past the end when the link was 0. */
  ghost predicate WalkAt(img: MapImg, chain: seq<nat>, i: nat, cur: nat, more: bool, bitBase: nat) {
    && i <= |chain| && (more <==> i < |chain|)
    && (more ==> cur == chain[i] && cur in img)
    && bitBase == |Bits(img, chain[..i])|
  }

  lemma WalkStart(img: MapImg, chain: seq<nat>)
    requires MapChain(img, chain)
    ensures WalkAt(img, chain, 0, 0, true, 0)
  {
    assert MapLink(img, chain, 0);
    assert chain[..0] == [];
  }

  lemma WalkStep(img: MapImg, chain: seq<nat>, i: nat, cur: nat, bitBase: nat)
    requires MapChain(img, chain) && WalkAt(img, chain, i, cur, true, bitBase)
    ensures WalkAt(img, chain, i + 1, img[cur].flink, img[cur].flink != 0, bitBase + |img[cur].bits|)
    ensures bitBase + |img[cur].bits| <= |Bits(img, chain)|
    ensures forall j :: 0 <= j < |img[cur].bits| ==> Bits(img, chain)[bitBase + j] == img[cur].bits[j]
  {
    hide Bits;
    assert MapLink(img, chain, i);
    assert i + 1 < |chain| ==> MapLink(img, chain, i + 1) && chain[i + 1] != chain[0];
    BitsAt(img, chain, i);
  }

  lemma WalkEnd(img: MapImg, chain: seq<nat>, i: nat, cur: nat, bitBase: nat)
    requires WalkAt(img, chain, i, cur, false, bitBase)
    ensures bitBase == |Bits(img, chain)|
  {
    assert chain[..i] == chain;
  }
}
