/** The bytes of B-tree records: a key with its length, padding to an even offset, data. */
module RecordCodec {
  import opened Nodes
  import opened ExtentsKeys
  import opened NodeCodec

  datatype Found<T> = Some(value: T) | None

  /** An encoded key starts with the number of bytes that follow. */
  predicate IsKey(key: Bytes8) {
    2 <= |key| < 0x1_0002 && Get16(key, 0) == |key| - 2
  }

  /** The key length, when that many bytes are there. */
  function RecordKeyLen(rec: Bytes8): Found<nat> {
    if |rec| < 2 || 2 + Get16(rec, 0) > |rec| then None else Some(Get16(rec, 0))
  }

  /** `keyBytesOf`: the key with its length. */
  function KeyBytesOf(rec: Bytes8): Bytes8 {
    match RecordKeyLen(rec)
    case Some(n) => rec[..2 + n]
    case None => []
  }

  /** `recordData`: the bytes from the next even offset on. */
  function RecordData(rec: Bytes8): Found<Bytes8> {
    match RecordKeyLen(rec)
    case Some(n) =>
      var start := 2 + n + n % 2;
      if start > |rec| then None else Some(rec[start..])
    case None => None
  }

  /** `assembleRecord` and `indexRecordFor`. */
  function AssembleRecord(key: Bytes8, data: Bytes8): Bytes8 {
    key + (if |key| % 2 != 0 then [0] else []) + data
  }

  /** A record's key and data can be taken apart again, and its length is what the tree model counts. */
  lemma AssembledParts(key: Bytes8, data: Bytes8)
    requires IsKey(key)
    ensures var rec := AssembleRecord(key, data);
      && KeyBytesOf(rec) == key && RecordData(rec) == Some(data)
      && |rec| == |key| + |key| % 2 + |data|
  {
    var rec := AssembleRecord(key, data);
    assert rec[0] == key[0] && rec[1] == key[1];
    assert Get16(rec, 0) == |key| - 2;
    assert rec[..|key|] == key;
    assert rec[|key| + |key| % 2..] == data;
  }

  /** The length the tree model counts for a record is that of its bytes. */
  lemma SameLength(key: Bytes8, data: Bytes8, r: Rec)
    requires IsKey(key) && r.klen == |key| && |data| == DataLen(r.data)
    ensures |AssembleRecord(key, data)| == RecLen(r)
  {
    AssembledParts(key, data);
  }

  function IndexChild(rec: Bytes8): Found<nat> {
    match RecordData(rec)
    case Some(data) => if |data| < 4 then None else Some(Get32(data, 0))
    case None => None
  }

  /** An index record names the child it was built for. */
  lemma IndexRecordNames(key: Bytes8, child: nat)
    requires IsKey(key) && child < U32
    ensures IndexChild(AssembleRecord(key, Put32(child))) == Some(child)
  {
    AssembledParts(key, Put32(child));
    Get32Put(child);
  }

  /** The bytes of a node's records come to what the tree model counts, when each record's do. */
  lemma {:induction false} SameBytes(raw: seq<Bytes8>, rs: seq<Rec>)
    requires |raw| == |rs| && forall i :: 0 <= i < |rs| ==> |raw[i]| == RecLen(rs[i])
    ensures NodeUsed(raw) == UsedBytes(rs) && forall size: nat :: Fits(size, rs) <==> NodeUsed(raw) <= size
  {
    if rs != [] {
      var n := |rs| - 1;
      SameBytes(raw[..n], rs[..n]);
      assert rs == rs[..n] + [rs[n]] && [rs[n]][1..] == [];
      SumLenCat(rs[..n], [rs[n]]);
    }
  }

  // ---- fields ----

  /** Numbers are written with the most significant byte first. */
  lemma BigEndian(x: nat)
    ensures x < U32 ==>
      var b := Put32(x);
      |b| == 4 && x == ((b[0] * 0x100 + b[1]) * 0x100 + b[2]) * 0x100 + b[3] &&
      forall i :: 0 <= i < 4 ==> b[i] < 0x100
    ensures x < 0x1_0000 ==>
      var b := Put16(x); |b| == 2 && x == b[0] * 0x100 + b[1] && b[0] < 0x100 && b[1] < 0x100
  {
    if x < U32 {
      Digits(x);
    }
  }

  /** Where the parts of a stored node are: the descriptor's fields, and each record where its offset, counted from the
      node's end, says. */
  lemma NodeFields(b: Bytes8, nd: RawNode)
    requires 512 <= |b| <= 0x8000 && FieldsOk(nd) && Encodes(b, nd)
    ensures nd.flink == ((b[0] * 0x100 + b[1]) * 0x100 + b[2]) * 0x100 + b[3]
    ensures nd.blink == ((b[4] * 0x100 + b[5]) * 0x100 + b[6]) * 0x100 + b[7]
    ensures nd.kind == b[8] && nd.height == b[9] && |nd.recs| == b[10] * 0x100 + b[11]
    ensures 2 * |nd.recs| + 2 <= |b| && b[|b| - 2] * 0x100 + b[|b| - 1] == 14
    ensures forall i :: 0 <= i < |nd.recs| ==>
      var at := b[|b| - 2 * i - 2] * 0x100 + b[|b| - 2 * i - 1];
      at + |nd.recs[i]| <= |b| && b[at..at + |nd.recs[i]|] == nd.recs[i]
  {
    hide Encodes, Concat, Offset, RecordBounds, RecordBytes, FieldsOk;
    FieldsRead(b, nd);
    TableRead(b, nd, 0);
    NoRecs(nd.recs);
    forall i | 0 <= i < |nd.recs|
      ensures var at := b[|b| - 2 * i - 2] * 0x100 + b[|b| - 2 * i - 1];
        at + |nd.recs[i]| <= |b| && b[at..at + |nd.recs[i]|] == nd.recs[i]
    {
      RecordThere(b, nd, i);
    }
  }

  lemma RecordThere(b: Bytes8, nd: RawNode, i: nat)
    requires 512 <= |b| <= 0x8000 && Encodes(b, nd) && i < |nd.recs|
    ensures 2 * |nd.recs| + 2 <= |b|
    ensures var at := b[|b| - 2 * i - 2] * 0x100 + b[|b| - 2 * i - 1];
      at + |nd.recs[i]| <= |b| && b[at..at + |nd.recs[i]|] == nd.recs[i]
  {
    hide Concat;
    TableRead(b, nd, i);
    RecordRead(b, nd, i);
    RecordAt(nd.recs, i);
  }

  /** Where the fields of an extents key are: its length, the fork type, a zero byte, the file and the block. */
  lemma ExtentsKeyFields(k: ExtentsKey)
    requires KeyOk(k)
    ensures var b := EncodeExtentsKey(k);
      && |b| == 12 && b[0] == 0 && b[1] == 10 && b[2] == k.forkType && b[3] == 0
      && k.fileID == ((b[4] * 0x100 + b[5]) * 0x100 + b[6]) * 0x100 + b[7]
      && k.startBlock == ((b[8] * 0x100 + b[9]) * 0x100 + b[10]) * 0x100 + b[11]
  {
    hide Put32;
    BigEndian(k.fileID);
    BigEndian(k.startBlock);
    var f, s := Put32(k.fileID), Put32(k.startBlock);
    assert EncodeExtentsKey(k) == [0, 10, k.forkType, 0, f[0], f[1], f[2], f[3], s[0], s[1], s[2], s[3]];
  }

  // ---- extents keys and records ----

  function EncodeExtentsKey(k: ExtentsKey): Bytes8 {
    Put16(10) + [k.forkType, 0] + Put32(k.fileID) + Put32(k.startBlock)
  }

  /** The key bytes without their length. */
  function ParseExtentsKey(b: Bytes8): Found<ExtentsKey> {
    if |b| < 10 then None else Some(ExtentsKey(b[0], Get32(b, 2), Get32(b, 6)))
  }

  lemma ExtentsKeyRoundTrip(k: ExtentsKey)
    requires KeyOk(k)
    ensures var key := EncodeExtentsKey(k);
      IsKey(key) && |key| == 12 && ParseExtentsKey(key[2..]) == Some(k)
  {
    Get32Put(k.fileID);
    Get32Put(k.startBlock);
    var key, f, s := EncodeExtentsKey(k), Put32(k.fileID), Put32(k.startBlock);
    assert key[4] == f[0] && key[5] == f[1] && key[6] == f[2] && key[7] == f[3];
    assert key[8] == s[0] && key[9] == s[1] && key[10] == s[2] && key[11] == s[3];
  }

  function EncodeExtents(slots: seq<Extent>): Bytes8 {
    if slots == [] then [] else Put32(slots[0].start) + Put32(slots[0].count) + EncodeExtents(slots[1..])
  }

  /** Descriptors are read up to the first one with no blocks. */
  function DecodeExtents(b: Bytes8): seq<Extent> {
    if |b| < 8 || Get32(b, 4) == 0 then [] else [Extent(Get32(b, 0), Get32(b, 4))] + DecodeExtents(b[8..])
  }

  ghost predicate ExtentsOk(slots: seq<Extent>) {
    forall i :: 0 <= i < |slots| ==> slots[i].start < U32 && slots[i].count < U32
  }

  lemma {:induction false} ExtentsRoundTrip(slots: seq<Extent>)
    requires ExtentsOk(slots)
    ensures DecodeExtents(EncodeExtents(slots)) == Used(slots) && |EncodeExtents(slots)| == 8 * |slots|
  {
    if slots != [] {
      var b, x, y := EncodeExtents(slots), Put32(slots[0].start), Put32(slots[0].count);
      Get32Put(slots[0].start);
      Get32Put(slots[0].count);
      assert b[0] == x[0] && b[1] == x[1] && b[2] == x[2] && b[3] == x[3];
      assert b[4] == y[0] && b[5] == y[1] && b[6] == y[2] && b[7] == y[3];
      assert b[8..] == EncodeExtents(slots[1..]);
      ExtentsRoundTrip(slots[1..]);
    }
  }

  /** A whole overflow record: key and runs come back, and its size is the one `FixedSizes` counts on. */
  lemma OverflowRecordRoundTrip(k: ExtentsKey, group: seq<Extent>)
    requires KeyOk(k) && |group| <= INLINE && Nonempty(group) && ExtentsOk(group)
    ensures var rec := AssembleRecord(EncodeExtentsKey(k), EncodeExtents(Pad(group)));
      && |rec| == 76 && (forall f: Fork, block: nat :: RecLen(GroupRec(f, block, group)) == 76)
      && ParseExtentsKey(KeyBytesOf(rec)[2..]) == Some(k)
      && RecordData(rec).Some? && DecodeExtents(RecordData(rec).value) == group
  {
    ExtentsKeyRoundTrip(k);
    ExtentsRoundTrip(Pad(group));
    UsedPad(group);
    AssembledParts(EncodeExtentsKey(k), EncodeExtents(Pad(group)));
  }
}
