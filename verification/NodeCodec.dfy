/** The bytes of a B-tree node: descriptor, records front to back, offset table back to front. */
module NodeCodec {
  import opened Arith
  import opened Nodes
  import opened Bitmap
  import opened ExtentsKeys
  import opened Owners
  import opened ForkIO

  type Bytes8 = seq<nat>

  datatype RawNode = RawNode(flink: nat, blink: nat, kind: nat, height: nat, recs: seq<Bytes8>)

  datatype Parsed = Good(node: RawNode) | BadCount | BadBounds

  const DESC := 14

  function Put16(x: nat): Bytes8 { [x / 0x100 % 0x100, x % 0x100] }

  function Put32(x: nat): Bytes8 {
    [x / 0x100 / 0x100 / 0x100 % 0x100, x / 0x100 / 0x100 % 0x100, x / 0x100 % 0x100, x % 0x100]
  }

  function Get16(b: Bytes8, at: nat): nat
    requires at + 2 <= |b|
  {
    b[at] * 0x100 + b[at + 1]
  }

  function Get32(b: Bytes8, at: nat): nat
    requires at + 4 <= |b|
  {
    b[at] * 0x100_0000 + b[at + 1] * 0x1_0000 + b[at + 2] * 0x100 + b[at + 3]
  }

  function Concat(recs: seq<Bytes8>): Bytes8 {
    if recs == [] then [] else Concat(recs[..|recs| - 1]) + recs[|recs| - 1]
  }

  /** Bytes the records take, with the descriptor and the offset table. */
  function NodeUsed(recs: seq<Bytes8>): nat {
    DESC + |Concat(recs)| + 2 * (|recs| + 1)
  }

  /** The widths of the descriptor's fields. */
  predicate FieldsOk(nd: RawNode) {
    nd.flink < U32 && nd.blink < U32 && nd.kind < 0x100 && nd.height < 0x100 && |nd.recs| < 0x1_0000
  }

  function DescBytes(nd: RawNode, n: nat): Bytes8 {
    Put32(nd.flink) + Put32(nd.blink) + [nd.kind, nd.height] + Put16(n) + [0, 0]
  }

  /** Where record `i` starts. */
  function Offset(recs: seq<Bytes8>, i: nat): nat
    requires i <= |recs|
  {
    DESC + |Concat(recs[..i])|
  }

  /** What a stored node looks like, byte by byte: nothing beyond the records but zeros and the table. */
  ghost predicate Encodes(b: Bytes8, nd: RawNode) {
    && NodeUsed(nd.recs) <= |b|
    && b[..DESC] == DescBytes(nd, |nd.recs|)
    && b[DESC..DESC + |Concat(nd.recs)|] == Concat(nd.recs)
    && (forall x :: DESC + |Concat(nd.recs)| <= x < |b| - 2 * (|nd.recs| + 1) ==> b[x] == 0)
    && (forall i :: 0 <= i <= |nd.recs| ==> b[|b| - 2 * (i + 1)..|b| - 2 * i] == Put16(Offset(nd.recs, i)))
  }

  function Offsets(b: Bytes8, n: nat): seq<nat>
    requires 2 * (n + 1) <= |b|
  {
    seq(n + 1, i requires 0 <= i <= n => Get16(b, |b| - 2 * (i + 1)))
  }

  predicate RecordBounds(offs: seq<nat>, i: nat, size: nat)
    requires i + 1 < |offs|
  {
    DESC <= offs[i] <= offs[i + 1] <= size
  }

  predicate BoundsOk(offs: seq<nat>, size: nat) {
    forall i :: 0 <= i < |offs| - 1 ==> RecordBounds(offs, i, size)
  }

  function RecordBytes(b: Bytes8, offs: seq<nat>, i: nat): Bytes8
    requires i + 1 < |offs|
  {
    if RecordBounds(offs, i, |b|) then b[offs[i]..offs[i + 1]] else []
  }

  /** What `loadNode` and the reader's `readNode` make of a node's bytes. */
  function Parse(b: Bytes8): Parsed
    requires |b| >= 512
  {
    var n := Get16(b, 10);
    if 2 * (n + 1) > |b| then BadCount
    else
      var offs := Offsets(b, n);
      if !BoundsOk(offs, |b|) then BadBounds
      else Good(RawNode(Get32(b, 0), Get32(b, 4), b[8], b[9], seq(n, i requires 0 <= i < n => RecordBytes(b, offs, i))))
  }

  // ---- encoding fields ----

  lemma Get16Put(x: nat)
    requires x < 0x1_0000
    ensures Get16(Put16(x), 0) == x
  {
  }

  lemma Get32Put(x: nat)
    requires x < U32
    ensures Get32(Put32(x), 0) == x
  {
    Digits(x);
  }

  /** The four bytes of a number. */
  lemma Digits(x: nat)
    requires x < U32
    ensures x == x / 0x100 / 0x100 / 0x100 % 0x100 * 0x100_0000 + x / 0x100 / 0x100 % 0x100 * 0x1_0000 +
      x / 0x100 % 0x100 * 0x100 + x % 0x100
  {
    var p := x / 0x100;
    var q := p / 0x100;
    LastDigit(x);
    LastDigit(p);
    LastDigit(q);
    assert q / 0x100 < 0x100;
  }

  lemma LastDigit(x: nat)
    ensures x == x / 0x100 * 0x100 + x % 0x100
  {
  }

  lemma ConcatNext(recs: seq<Bytes8>, i: nat)
    requires i < |recs|
    ensures Concat(recs[..i + 1]) == Concat(recs[..i]) + recs[i]
  {
    assert recs[..i + 1][..i] == recs[..i];
  }

  lemma {:induction false} ConcatPrefix(recs: seq<Bytes8>, i: nat, n: nat)
    requires i <= n <= |recs|
    ensures |Concat(recs[..i])| <= |Concat(recs[..n])| && Concat(recs[..i]) == Concat(recs[..n])[..|Concat(recs[..i])|]
    decreases n
  {
    if i < n {
      ConcatPrefix(recs, i, n - 1);
      ConcatNext(recs, n - 1);
    }
  }

  /** A record's place in the records' bytes. */
  lemma RecordAt(recs: seq<Bytes8>, i: nat)
    requires i < |recs|
    ensures Offset(recs, i) + |recs[i]| == Offset(recs, i + 1) <= DESC + |Concat(recs)|
    ensures Concat(recs)[Offset(recs, i) - DESC..Offset(recs, i + 1) - DESC] == recs[i]
  {
    ConcatNext(recs, i);
    ConcatPrefix(recs, i + 1, |recs|);
    assert recs[..|recs|] == recs;
    var all, a := Concat(recs), |Concat(recs[..i])|;
    assert all[..a + |recs[i]|][a..] == recs[i];
  }

  /** Loading what was stored gives the same descriptor and records. */
  lemma RoundTrip(b: Bytes8, nd: RawNode)
    requires 512 <= |b| <= 0x8000 && FieldsOk(nd) && Encodes(b, nd)
    ensures Parse(b) == Good(nd)
  {
    hide Encodes, DescBytes, Get16, Get32, Offset, RecordBounds;
    var n, offs := |nd.recs|, OffsetsOf(nd.recs);
    FieldsRead(b, nd);
    forall i | 0 <= i <= n ensures Get16(b, |b| - 2 * (i + 1)) == offs[i] {
      TableRead(b, nd, i);
    }
    assert Offsets(b, n) == offs;
    forall i | 0 <= i < n ensures RecordBounds(offs, i, |b|) && RecordBytes(b, offs, i) == nd.recs[i] {
      RecordRead(b, nd, i);
    }
    assert seq(n, i requires 0 <= i < n => RecordBytes(b, offs, i)) == nd.recs;
  }

  lemma FieldsRead(b: Bytes8, nd: RawNode)
    requires 512 <= |b| && FieldsOk(nd) && Encodes(b, nd)
    ensures Get32(b, 0) == nd.flink && Get32(b, 4) == nd.blink && b[8] == nd.kind && b[9] == nd.height
    ensures Get16(b, 10) == |nd.recs|
    ensures 2 * (|nd.recs| + 1) <= |b|
  {
    DescRead(b, nd);
  }

  lemma RecordRead(b: Bytes8, nd: RawNode, i: nat)
    requires Encodes(b, nd) && i < |nd.recs|
    ensures var offs := OffsetsOf(nd.recs); RecordBounds(offs, i, |b|) && RecordBytes(b, offs, i) == nd.recs[i]
  {
    hide Concat;
    RecordAt(nd.recs, i);
    var x, y := Offset(nd.recs, i), Offset(nd.recs, i + 1);
    var all := b[DESC..DESC + |Concat(nd.recs)|];
    SliceOfSlice(b, DESC, |all|, x - DESC, y - x);
    assert b[x..y] == all[x - DESC..y - DESC];
  }

  function OffsetsOf(recs: seq<Bytes8>): (offs: seq<nat>)
    ensures |offs| == |recs| + 1
  {
    seq(|recs| + 1, i requires 0 <= i <= |recs| => Offset(recs, i))
  }

  lemma DescRead(b: Bytes8, nd: RawNode)
    requires |b| >= 512 && FieldsOk(nd) && b[..DESC] == DescBytes(nd, |nd.recs|)
    ensures Get32(b, 0) == nd.flink && Get32(b, 4) == nd.blink && b[8] == nd.kind && b[9] == nd.height
    ensures Get16(b, 10) == |nd.recs|
  {
    Get32Put(nd.flink);
    Get32Put(nd.blink);
    Get16Put(|nd.recs|);
    var d := DescBytes(nd, |nd.recs|);
    assert forall x :: 0 <= x < DESC ==> b[x] == b[..DESC][x] == d[x];
    var f, g := Put32(nd.flink), Put32(nd.blink);
    assert d[0] == f[0] && d[1] == f[1] && d[2] == f[2] && d[3] == f[3];
    assert d[4] == g[0] && d[5] == g[1] && d[6] == g[2] && d[7] == g[3];
  }

  lemma TableRead(b: Bytes8, nd: RawNode, i: nat)
    requires |b| <= 0x8000 && Encodes(b, nd) && i <= |nd.recs|
    ensures Get16(b, |b| - 2 * (i + 1)) == Offset(nd.recs, i)
  {
    hide Concat;
    ConcatPrefix(nd.recs, i, |nd.recs|);
    assert nd.recs[..|nd.recs|] == nd.recs;
    var x := Offset(nd.recs, i);
    Get16Put(x);
    var t := b[|b| - 2 * (i + 1)..|b| - 2 * i];
    assert t == Put16(x);
    assert b[|b| - 2 * (i + 1)] == t[0] && b[|b| - 2 * (i + 1) + 1] == t[1];
  }

  // ---- storing ----

  /** Erases the node, then writes it if its records fit. A node that does not fit is left parsing as an erased one. */
  method StoreNode(b: array<nat>, nd: RawNode) returns (ok: bool)
    requires 512 <= b.Length <= 0x8000 && FieldsOk(nd)
    modifies b
    ensures ok <==> NodeUsed(nd.recs) <= b.Length
    ensures ok ==> Encodes(b[..], nd) && Parse(b[..]) == Good(nd)
    ensures !ok ==> Parse(b[..]) == Good(RawNode(0, 0, 0, 0, []))
  {
    hide Concat, Parse, Encodes;
    Zero(b);
    var offsets;
    ok, offsets := CopyRecords(b, nd.recs);
    if !ok {
      ErasedParse(b[..]);
      return;
    }
    WriteDescriptor(b, nd, |nd.recs|);
    WriteOffsetTable(b, offsets);
    StoredEncodes(b[..], nd, offsets);
    RoundTrip(b[..], nd);
  }

  /** Copies the records behind the descriptor, as far as they fit before the offset table. */
  method CopyRecords(b: array<nat>, recs: seq<Bytes8>) returns (ok: bool, offsets: seq<nat>)
    requires 512 <= b.Length && forall x :: 0 <= x < b.Length ==> b[x] == 0
    modifies b
    ensures ok <==> NodeUsed(recs) <= b.Length
    ensures ok ==> offsets == OffsetsOf(recs) && b[DESC..DESC + |Concat(recs)|] == Concat(recs)
    ensures ok ==> forall x :: DESC + |Concat(recs)| <= x < b.Length ==> b[x] == 0
    ensures forall x :: 0 <= x < DESC ==> b[x] == 0
  {
    hide Concat;
    var off: nat, n := DESC, |recs|;
    offsets := [DESC];
    NoRecs(recs);
    for i := 0 to n
      invariant off == Offset(recs, i) <= b.Length && (i > 0 ==> off <= b.Length - 2 * (n + 1))
      invariant |offsets| == i + 1 && forall j :: 0 <= j <= i ==> offsets[j] == Offset(recs, j)
      invariant b[DESC..off] == Concat(recs[..i])
      invariant forall x :: (0 <= x < DESC || off <= x < b.Length) ==> b[x] == 0
    {
      var r := recs[i];
      ConcatNext(recs, i);
      ConcatPrefix(recs, i + 1, n);
      assert recs[..n] == recs;
      if off + |r| > b.Length - 2 * (n + 1) {
        return false, offsets;
      }
      ghost var before := b[DESC..off];
      forall j | 0 <= j < |r| {
        b[off + j] := r[j];
      }
      assert b[DESC..off + |r|] == before + r;
      off := off + |r|;
      offsets := offsets + [off];
    }
    assert recs[..n] == recs;
    assert offsets == OffsetsOf(recs);
    ok := true;
  }

  lemma StoredEncodes(b: Bytes8, nd: RawNode, offsets: seq<nat>)
    requires NodeUsed(nd.recs) <= |b| && offsets == OffsetsOf(nd.recs)
    requires b[..DESC] == DescBytes(nd, |nd.recs|) && b[DESC..DESC + |Concat(nd.recs)|] == Concat(nd.recs)
    requires forall x :: DESC + |Concat(nd.recs)| <= x < |b| - 2 * (|nd.recs| + 1) ==> b[x] == 0
    requires forall i :: 0 <= i < |offsets| ==> b[|b| - 2 * (i + 1)..|b| - 2 * i] == Put16(offsets[i])
    ensures Encodes(b, nd)
  {
    hide Concat, Put16, DescBytes;
    forall i | 0 <= i <= |nd.recs| ensures b[|b| - 2 * (i + 1)..|b| - 2 * i] == Put16(Offset(nd.recs, i)) {
      assert offsets[i] == Offset(nd.recs, i);
    }
  }

  method Zero(b: array<nat>)
    modifies b
    ensures forall x :: 0 <= x < b.Length ==> b[x] == 0
  {
    for i := 0 to b.Length
      invariant forall x :: 0 <= x < i ==> b[x] == 0
    {
      b[i] := 0;
    }
  }

  method WriteDescriptor(b: array<nat>, nd: RawNode, n: nat)
    requires b.Length >= DESC
    modifies b
    ensures b[..DESC] == DescBytes(nd, n)
    ensures forall x :: DESC <= x < b.Length ==> b[x] == old(b[x])
  {
    var d := DescBytes(nd, n);
    forall j | 0 <= j < DESC {
      b[j] := d[j];
    }
  }

  method WriteOffsetTable(b: array<nat>, offsets: seq<nat>)
    requires 2 * |offsets| <= b.Length
    modifies b
    ensures forall i :: 0 <= i < |offsets| ==> b[b.Length - 2 * (i + 1)..b.Length - 2 * i] == Put16(offsets[i])
    ensures forall x :: 0 <= x < b.Length - 2 * |offsets| ==> b[x] == old(b[x])
  {
    for i := 0 to |offsets|
      invariant forall j :: 0 <= j < i ==> b[b.Length - 2 * (j + 1)..b.Length - 2 * j] == Put16(offsets[j])
      invariant forall x :: 0 <= x < b.Length - 2 * i ==> b[x] == old(b[x])
    {
      ghost var was := b[..];
      var p := b.Length - 2 * (i + 1);
      b[p], b[p + 1] := offsets[i] / 0x100 % 0x100, offsets[i] % 0x100;
      forall j | 0 <= j < i ensures b[b.Length - 2 * (j + 1)..b.Length - 2 * j] == Put16(offsets[j]) {
        assert b[b.Length - 2 * (j + 1)..b.Length - 2 * j] == was[b.Length - 2 * (j + 1)..b.Length - 2 * j];
      }
      assert b[p..p + 2] == Put16(offsets[i]);
    }
  }

  lemma NoRecs(recs: seq<Bytes8>)
    ensures recs[..0] == [] && Concat(recs[..0]) == [] && Offset(recs, 0) == DESC
  {
  }

  lemma ErasedParse(b: Bytes8)
    requires |b| >= 512 && forall x :: 0 <= x < DESC ==> b[x] == 0
    ensures Parse(b) == Good(RawNode(0, 0, 0, 0, []))
  {
  }

  // ---- where a node lies in the image ----

  /** Node `n` starts in run `i`, at byte `abs` of the image. */
  ghost predicate NodeIn(runs: seq<Extent>, bs: nat, nodeSize: nat, n: nat, i: nat, abs: nat) {
    && i < |runs|
    && var base := Total(runs[..i], bs);
       base <= n * nodeSize < base + Span(runs[i], bs) && abs == Lo(runs[i], bs) + (n * nodeSize - base)
  }

  /** `nodeBytes`: the first run that reaches the node's offset. */
  method NodeBytes(runs: seq<Extent>, bs: nat, nodeSize: nat, n: nat) returns (ok: bool, abs: nat, ghost at: nat)
    ensures ok <==> n * nodeSize < Total(runs, bs)
    ensures ok ==> NodeIn(runs, bs, nodeSize, n, at, abs)
  {
    hide Total;
    var logical: nat, base: nat := n * nodeSize, 0;
    TotalNone(runs, bs);
    at := 0;
    for i := 0 to |runs|
      invariant base == Total(runs[..i], bs) <= logical
    {
      var span := Span(runs[i], bs);
      TotalNext(runs, bs, i);
      TotalUpto(runs, bs, i + 1);
      if logical < base + span {
        return true, Lo(runs[i], bs) + (logical - base), i;
      }
      base := base + span;
    }
    assert runs[..|runs|] == runs;
    return false, 0, 0;
  }

  /** When the node size divides the block size no node straddles two runs. */
  lemma NodeInside(runs: seq<Extent>, bs: nat, nodeSize: nat, k: nat, n: nat, i: nat, abs: nat)
    requires nodeSize > 0 && bs == k * nodeSize && NodeIn(runs, bs, nodeSize, n, i, abs)
    ensures Lo(runs[i], bs) <= abs && abs + nodeSize <= Lo(runs[i], bs) + Span(runs[i], bs)
  {
    TotalBlocks(runs[..i], bs);
    var b, c := Blocks(runs[..i]), runs[i].count;
    hide Blocks, Total;
    NodeUnits(b, c, k, nodeSize, n);
  }

  lemma NodeUnits(b: nat, c: nat, k: nat, nodeSize: nat, n: nat)
    requires b * (k * nodeSize) <= n * nodeSize < b * (k * nodeSize) + c * (k * nodeSize)
    ensures n * nodeSize + nodeSize <= b * (k * nodeSize) + c * (k * nodeSize)
  {
    TimesAssoc(b, k, nodeSize);
    TimesAssoc(c, k, nodeSize);
    NextUnit(n, b * k, c * k, nodeSize);
  }

  lemma TimesAssoc(b: nat, k: nat, s: nat)
    ensures b * (k * s) == (b * k) * s
  {
  }

  lemma NextUnit(n: nat, x: nat, y: nat, s: nat)
    requires n * s < x * s + y * s
    ensures n * s + s <= x * s + y * s
  {
    assert (x + y) * s == x * s + y * s;
    MulCancel(n, x + y, s);
    Times(n, 1, x + y, s);
  }

  /** Different nodes lie in disjoint bytes of the image. */
  lemma NodesDisjoint(runs: seq<Extent>, bs: nat, nodeSize: nat, k: nat, size: nat, n: nat, i: nat, a: nat, m: nat,
      j: nat, b: nat)
    requires nodeSize > 0 && bs == k * nodeSize && RunsOk(runs, bs, size) && n < m
    requires NodeIn(runs, bs, nodeSize, n, i, a) && NodeIn(runs, bs, nodeSize, m, j, b)
    ensures a + nodeSize <= b || b + nodeSize <= a
  {
    hide Total, Apart, Lo, Span;
    NodeInside(runs, bs, nodeSize, k, n, i, a);
    NodeInside(runs, bs, nodeSize, k, m, j, b);
    if i < j {
      RunsBytesApart(runs, bs, size, j);
      assert BytesApart(runs[..j][i], runs[j], bs);
    } else if j < i {
      RunsBytesApart(runs, bs, size, i);
      assert BytesApart(runs[..i][j], runs[i], bs);
    } else {
      Times(n, 1, m, nodeSize);
    }
  }

  /** The bytes the writer edits are those the reader reads at the node's offset of the fork. */
  lemma NodeIsStream(img: seq<bv8>, runs: seq<Extent>, bs: nat, nodeSize: nat, k: nat, n: nat, i: nat, abs: nat)
    requires nodeSize > 0 && bs == k * nodeSize && Inside(runs, bs, |img|) && NodeIn(runs, bs, nodeSize, n, i, abs)
    ensures abs + nodeSize <= |img| && n * nodeSize + nodeSize <= Total(runs, bs)
    ensures img[abs..abs + nodeSize] == Stream(img, runs, bs)[n * nodeSize..n * nodeSize + nodeSize]
  {
    hide Total, Stream, Lo, Span, Inside;
    NodeInside(runs, bs, nodeSize, k, n, i, abs);
    StreamPiece(img, runs, bs, i, n * nodeSize, nodeSize);
  }
}
