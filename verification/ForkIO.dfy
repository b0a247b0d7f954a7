/** Forks as byte streams over the image: writing data across runs of blocks, and reading it back. */
module ForkIO {
  import opened Nodes
  import opened Bitmap
  import opened ExtentsKeys
  import opened Owners

  datatype ReadStatus = Ok | EndOfFork | Short | Corrupt

  const MAX_FORK := 0x4_0000_0000_0000
  const GROW_CHUNK := 0x10_0000

  // ---- bytes of runs ----

  function Lo(r: Extent, bs: nat): nat { r.start * bs }

  function Span(r: Extent, bs: nat): nat { r.count * bs }

  /** Every run lies in an image of `n` bytes. */
  ghost predicate Inside(runs: seq<Extent>, bs: nat, n: nat) {
    forall i :: 0 <= i < |runs| ==> RunInside(runs[i], bs, n)
  }

  predicate RunInside(r: Extent, bs: nat, n: nat) {
    Lo(r, bs) + Span(r, bs) <= n
  }

  function Total(runs: seq<Extent>, bs: nat): nat {
    if runs == [] then 0 else Total(runs[..|runs| - 1], bs) + Span(runs[|runs| - 1], bs)
  }

  function RunBytes(img: seq<bv8>, r: Extent, bs: nat): seq<bv8>
    requires RunInside(r, bs, |img|)
  {
    img[Lo(r, bs)..Lo(r, bs) + Span(r, bs)]
  }

  /** The bytes of the runs, end to end. */
  ghost function Stream(img: seq<bv8>, runs: seq<Extent>, bs: nat): (s: seq<bv8>)
    requires Inside(runs, bs, |img|)
    ensures |s| == Total(runs, bs)
  {
    if runs == [] then []
    else
      var last := |runs| - 1;
      Stream(img, runs[..last], bs) + RunBytes(img, runs[last], bs)
  }

  lemma StreamNext(img: seq<bv8>, runs: seq<Extent>, bs: nat, i: nat)
    requires Inside(runs, bs, |img|) && i < |runs|
    ensures Stream(img, runs[..i + 1], bs) == Stream(img, runs[..i], bs) + RunBytes(img, runs[i], bs)
    ensures Total(runs[..i + 1], bs) == Total(runs[..i], bs) + Span(runs[i], bs)
  {
    assert runs[..i + 1][..i] == runs[..i];
  }

  /** The stream of the first runs is a prefix of the whole stream. */
  lemma {:induction false} StreamPrefix(img: seq<bv8>, runs: seq<Extent>, bs: nat, i: nat, n: nat)
    requires Inside(runs, bs, |img|) && i <= n <= |runs|
    ensures Total(runs[..i], bs) <= Total(runs[..n], bs)
    ensures Stream(img, runs[..i], bs) == Stream(img, runs[..n], bs)[..Total(runs[..i], bs)]
    decreases n
  {
    hide Stream, Total, RunBytes, Span, Lo;
    if i < n {
      StreamPrefix(img, runs, bs, i, n - 1);
      StreamNext(img, runs, bs, n - 1);
      PrefixOfCat(Stream(img, runs[..n - 1], bs), RunBytes(img, runs[n - 1], bs), Total(runs[..i], bs));
    }
  }

  lemma PrefixOfCat<T>(a: seq<T>, b: seq<T>, t: nat)
    requires t <= |a|
    ensures (a + b)[..t] == a[..t]
  {
  }

  /** Where run `i` lies in the stream. */
  lemma StreamAt(img: seq<bv8>, runs: seq<Extent>, bs: nat, i: nat)
    requires Inside(runs, bs, |img|) && i < |runs|
    ensures var base := Total(runs[..i], bs);
      base + Span(runs[i], bs) <= Total(runs, bs) &&
        Stream(img, runs, bs)[base..base + Span(runs[i], bs)] == RunBytes(img, runs[i], bs)
  {
    StreamPrefix(img, runs, bs, i + 1, |runs|);
    StreamNext(img, runs, bs, i);
    assert runs[..|runs|] == runs;
    var base, whole := Total(runs[..i], bs), Stream(img, runs, bs);
    var front := Stream(img, runs[..i + 1], bs);
    assert whole[base..base + Span(runs[i], bs)] == front[base..];
  }

  /** Any piece of run `i`, as it lies in the stream. */
  lemma StreamPiece(img: seq<bv8>, runs: seq<Extent>, bs: nat, i: nat, off: nat, m: nat)
    requires Inside(runs, bs, |img|) && i < |runs| && Total(runs[..i], bs) <= off
    requires off + m <= Total(runs[..i], bs) + Span(runs[i], bs)
    ensures off + m <= Total(runs, bs) && RunInside(runs[i], bs, |img|)
    ensures var abs := Lo(runs[i], bs) + (off - Total(runs[..i], bs));
      abs + m <= |img| && Stream(img, runs, bs)[off..off + m] == img[abs..abs + m]
  {
    hide Total, Stream, Lo, Span;
    StreamAt(img, runs, bs, i);
    assert RunInside(runs[i], bs, |img|);
    PieceOf(Stream(img, runs, bs), img, Total(runs[..i], bs), Lo(runs[i], bs), Span(runs[i], bs), off, m);
  }

  /** Runs whose byte ranges do not meet. */
  ghost predicate BytesApart(a: Extent, b: Extent, bs: nat) {
    Lo(a, bs) + Span(a, bs) <= Lo(b, bs) || Lo(b, bs) + Span(b, bs) <= Lo(a, bs)
  }

  lemma BlocksApart(a: Extent, b: Extent, bs: nat)
    requires a.count > 0 && b.count > 0 && forall i: int :: InRun(a, i) ==> !InRun(b, i)
    ensures BytesApart(a, b, bs)
  {
    assert InRun(a, a.start) && InRun(b, b.start);
    assert !InRun(b, a.start) && !InRun(a, b.start);
    if a.start < b.start {
      Times(a.start, a.count, b.start, bs);
    } else {
      Times(b.start, b.count, a.start, bs);
    }
  }

  lemma Times(x: nat, y: nat, z: nat, bs: nat)
    requires x + y <= z
    ensures x * bs + y * bs <= z * bs
  {
    assert (x + y) * bs == x * bs + y * bs;
    assert (z - (x + y)) * bs >= 0;
  }

  lemma {:induction false} StreamSame(img: seq<bv8>, img': seq<bv8>, runs: seq<Extent>, bs: nat, r: Extent)
    requires |img'| == |img| && Inside(runs, bs, |img|)
    requires forall i :: 0 <= i < |runs| ==> BytesApart(runs[i], r, bs)
    requires forall x :: 0 <= x < |img| && !(Lo(r, bs) <= x < Lo(r, bs) + Span(r, bs)) ==> img'[x] == img[x]
    ensures Stream(img', runs, bs) == Stream(img, runs, bs)
    decreases |runs|
  {
    if runs != [] {
      var last := |runs| - 1;
      StreamSame(img, img', runs[..last], bs, r);
      assert BytesApart(runs[last], r, bs);
      assert RunBytes(img', runs[last], bs) == RunBytes(img, runs[last], bs);
    }
  }

  /** The data, filled up with zeros or cut to `n` bytes. */
  function Padded(data: seq<bv8>, n: nat): seq<bv8> {
    seq(n, i requires 0 <= i < n => if i < |data| then data[i] else 0)
  }

  /** Each run of the image holds its part of the data, and zeros where the data is over. */
  ghost predicate Written(img: seq<bv8>, runs: seq<Extent>, bs: nat, data: seq<bv8>) {
    forall i, x: nat ::
      0 <= i < |runs| && runs[i].start * bs <= x < runs[i].start * bs + runs[i].count * bs && x < |img| ==>
        var at := Total(runs[..i], bs) + (x - runs[i].start * bs);
        img[x] == if at < |data| then data[at] else 0
  }

  /** The stream, byte by byte of the image. */
  lemma StreamWritten(img: seq<bv8>, runs: seq<Extent>, bs: nat, data: seq<bv8>)
    requires Inside(runs, bs, |img|) && Stream(img, runs, bs) == Padded(data, Total(runs, bs))
    ensures Written(img, runs, bs, data)
    ensures forall x: nat :: x < Total(runs, bs) ==> Stream(img, runs, bs)[x] == if x < |data| then data[x] else 0
  {
    hide Total, Stream;
    forall i, x: nat | 0 <= i < |runs| && Lo(runs[i], bs) <= x < Lo(runs[i], bs) + Span(runs[i], bs)
      ensures x < |img|
      ensures img[x] ==
        var at := Total(runs[..i], bs) + (x - Lo(runs[i], bs)); if at < |data| then data[at] else 0
    {
      hide Padded;
      var at := Total(runs[..i], bs) + (x - Lo(runs[i], bs));
      StreamPiece(img, runs, bs, i, at, 1);
      PaddedAt(data, Total(runs, bs), at);
      assert img[x] == img[x..x + 1][0];
    }
  }

  lemma PaddedAt(data: seq<bv8>, n: nat, x: nat)
    requires x < n
    ensures Padded(data, n)[x..x + 1] == [if x < |data| then data[x] else 0]
  {
  }

  /** Byte `x` belongs to one of the runs. */
  ghost predicate Covered(runs: seq<Extent>, bs: nat, x: int) {
    exists i :: 0 <= i < |runs| && Lo(runs[i], bs) <= x < Lo(runs[i], bs) + Span(runs[i], bs)
  }

  lemma NotInRun(runs: seq<Extent>, bs: nat, x: int, i: nat)
    requires !Covered(runs, bs, x) && i < |runs|
    ensures !(Lo(runs[i], bs) <= x < Lo(runs[i], bs) + Span(runs[i], bs))
  {
  }

  /** Nonempty runs of different blocks, inside an image of `n` bytes. */
  ghost predicate RunsOk(runs: seq<Extent>, bs: nat, n: nat) {
    Inside(runs, bs, n) && Apart(runs) && Nonempty(runs)
  }

  lemma RunsBytesApart(runs: seq<Extent>, bs: nat, n: nat, i: nat)
    requires RunsOk(runs, bs, n) && i < |runs|
    ensures forall j :: 0 <= j < i ==> BytesApart(runs[..i][j], runs[i], bs)
  {
    forall j | 0 <= j < i ensures BytesApart(runs[j], runs[i], bs) {
      forall x: int | InRun(runs[j], x) ensures !InRun(runs[i], x) {
      }
      BlocksApart(runs[j], runs[i], bs);
    }
  }

  class Image {
    const bytes: array<bv8>
    const blockSize: nat

    constructor (bytes: array<bv8>, blockSize: nat)
      ensures this.bytes == bytes && this.blockSize == blockSize
    {
      this.bytes, this.blockSize := bytes, blockSize;
    }

    /** Copies the data across the runs in order, and zeros the rest of each run. */
    method WriteForkData(runs: seq<Extent>, data: seq<bv8>)
      requires RunsOk(runs, blockSize, bytes.Length)
      modifies bytes
      ensures Stream(bytes[..], runs, blockSize) == Padded(data, Total(runs, blockSize))
      ensures Written(bytes[..], runs, blockSize, data)
      ensures forall x: nat :: x < Total(runs, blockSize) ==>
        Stream(bytes[..], runs, blockSize)[x] == if x < |data| then data[x] else 0
      ensures forall x :: 0 <= x < bytes.Length && !Covered(runs, blockSize, x) ==> bytes[x] == old(bytes[x])
    {
      hide Stream, Total, Padded, Span, Lo, RunBytes, Covered, BytesApart, Written;
      var pos: nat := 0;
      NothingWritten(runs, data);
      for i := 0 to |runs|
        invariant pos == (if Total(runs[..i], blockSize) < |data| then Total(runs[..i], blockSize) else |data|)
        invariant Stream(bytes[..], runs[..i], blockSize) == Padded(data, Total(runs[..i], blockSize))
        invariant forall x :: 0 <= x < bytes.Length && !Covered(runs, blockSize, x) ==> bytes[x] == old(bytes[x])
      {
        assert RunInside(runs[i], blockSize, bytes.Length);
        ghost var was := bytes[..];
        pos := WriteRun(runs[i], data, pos);
        RunsBytesApart(runs, blockSize, bytes.Length, i);
        StreamSame(was, bytes[..], runs[..i], blockSize, runs[i]);
        StreamNext(bytes[..], runs, blockSize, i);
        PaddedNext(data, Total(runs[..i], blockSize), Span(runs[i], blockSize));
        forall x | 0 <= x < bytes.Length && !Covered(runs, blockSize, x) ensures bytes[x] == old(bytes[x]) {
          NotInRun(runs, blockSize, x, i);
        }
      }
      assert runs[..|runs|] == runs;
      StreamWritten(bytes[..], runs, blockSize, data);
    }

    lemma NothingWritten(runs: seq<Extent>, data: seq<bv8>)
      requires Inside(runs, blockSize, bytes.Length)
      ensures runs[..0] == [] && Total(runs[..0], blockSize) == 0
      ensures Stream(bytes[..], runs[..0], blockSize) == Padded(data, 0)
    {
      assert runs[..0] == [];
    }

    /** One run: as much of the data from `pos` on as fits, then zeros. */
    method WriteRun(r: Extent, data: seq<bv8>, pos: nat) returns (next: nat)
      requires RunInside(r, blockSize, bytes.Length) && pos <= |data|
      modifies bytes
      ensures next == if pos + Span(r, blockSize) < |data| then pos + Span(r, blockSize) else |data|
      ensures RunBytes(bytes[..], r, blockSize) == Padded(data[pos..], Span(r, blockSize))
      ensures forall x ::
        0 <= x < bytes.Length && !(Lo(r, blockSize) <= x < Lo(r, blockSize) + Span(r, blockSize)) ==>
          bytes[x] == old(bytes[x])
    {
      var off, span := r.start * blockSize, r.count * blockSize;
      var n := |data| - pos;
      if n > span {
        n := span;
      }
      next := pos;
      if n > 0 {
        forall j | 0 <= j < n {
          bytes[off + j] := data[pos + j];
        }
        next := pos + n;
      }
      ghost var copied := bytes[..];
      for i := off + n to off + span
        invariant forall x :: 0 <= x < bytes.Length ==> bytes[x] == if off + n <= x < i then 0 else copied[x]
      {
        bytes[i] := 0;
      }
    }

    /** Reads up to `want` bytes of a fork of `size` bytes from `start` on. */
    method ReadAt(runs: seq<Extent>, size: nat, want: nat, start: nat) returns (st: ReadStatus, out: seq<bv8>)
      ensures start >= size ==> st == EndOfFork && out == []
      ensures start < size && want > 0 && Inside(runs, blockSize, bytes.Length) ==>
        var n := if start + want <= size then want else size - start;
        ReadResult(Stream(bytes[..], runs, blockSize), start, n, st, out)
      ensures st == Ok ==> start < size && |out| == if start + want <= size then want else size - start
    {
      hide Stream, Total, Inside, ReadSoFar, Lo, Span, ReadResult;
      out := [];
      if start >= size {
        return EndOfFork, [];
      }
      var n := Wanted(size, want, start);
      var off: nat, blockBase: nat := start, 0;
      ghost var img := bytes[..];
      ghost var inside := Inside(runs, blockSize, bytes.Length);
      ReadStart(img, runs, blockSize, start);
      for i := 0 to |runs|
        invariant blockBase == Total(runs[..i], blockSize) <= off && start <= off
        invariant |out| == off - start <= n && (|out| < n || n == 0)
        invariant inside ==> ReadSoFar(img, runs, blockSize, start, off, out)
        invariant off == start || off == blockBase
      {
        var extLen := Span(runs[i], blockSize);
        TotalNext(runs, blockSize, i);
        if extLen != 0 {
          var extEnd := blockBase + extLen;
          if off < extEnd {
            var within := off - blockBase;
            var abs := Lo(runs[i], blockSize) + within;
            var m := extLen - within;
            if m > n - |out| {
              m := n - |out|;
            }
            if inside {
              ReadPiece(img, runs, blockSize, i, start, off, m, out);
            }
            if abs + m > bytes.Length {
              return Corrupt, out;
            }
            out := out + bytes[abs..abs + m];
            off := off + m;
            if |out| == n {
              if inside {
                ReadDone(img, runs, blockSize, start, off, out, n);
              }
              return Ok, out;
            }
          }
          blockBase := extEnd;
        }
      }
      if inside {
        assert runs[..|runs|] == runs;
        if |out| < n {
          ReadShort(img, runs, blockSize, start, off, out, n);
        }
      }
      return if |out| < n then Short else Ok, out;
    }

    /** Bytes the extents cover, at most `MAX_FORK`. */
    method ExtentBytes(runs: seq<Extent>) returns (n: nat)
      requires blockSize > 0
      ensures n == if Total(runs, blockSize) <= MAX_FORK then Total(runs, blockSize) else MAX_FORK
    {
      n := 0;
      assert runs[..0] == [];
      for i := 0 to |runs|
        invariant n == Total(runs[..i], blockSize) <= MAX_FORK
      {
        TotalNext(runs, blockSize, i);
        TotalUpto(runs, blockSize, i + 1);
        FitsMore(runs[i].count, blockSize, MAX_FORK - n);
        if runs[i].count > (MAX_FORK - n) / blockSize {
          return MAX_FORK;
        }
        n := n + runs[i].count * blockSize;
      }
      assert runs[..|runs|] == runs;
    }

    /** Every extent that holds part of the first `size` bytes lies inside the image. */
    method CheckExtentsInside(runs: seq<Extent>, size: nat) returns (ok: bool)
      ensures ok <==>
        forall i :: 0 <= i < |runs| && Total(runs[..i], blockSize) < size && runs[i].count > 0 ==>
          RunInside(runs[i], blockSize, bytes.Length)
    {
      hide Total, RunInside;
      var logical: nat := 0;
      TotalNone(runs, blockSize);
      for i := 0 to |runs|
        invariant logical == Total(runs[..i], blockSize)
        invariant forall j :: 0 <= j < i && Total(runs[..j], blockSize) < size && runs[j].count > 0 ==>
          RunInside(runs[j], blockSize, bytes.Length)
      {
        if logical >= size {
          forall j | i <= j < |runs| ensures Total(runs[..j], blockSize) >= size {
            TotalGrows(runs, blockSize, i, j);
          }
          return true;
        }
        TotalNext(runs, blockSize, i);
        if runs[i].count != 0 {
          if !RunInside(runs[i], blockSize, bytes.Length) {
            return false;
          }
          logical := logical + Span(runs[i], blockSize);
        } else {
          NoSpan(runs[i], blockSize);
        }
      }
      return true;
    }

    /** The whole fork: refused unless the extents cover the claimed size and lie inside the image. */
    method ReadAll(runs: seq<Extent>, size: nat) returns (st: ReadStatus, data: seq<bv8>)
      requires blockSize > 0
      ensures st == Ok ==> |data| == size
      ensures Inside(runs, blockSize, bytes.Length) ==>
        if size == 0 || (size <= MAX_FORK && size <= Total(runs, blockSize) && size <= bytes.Length)
        then st == Ok && data == Stream(bytes[..], runs, blockSize)[..size]
        else st == Corrupt
    {
      hide Stream, Total, Inside;
      StreamLong(bytes[..], runs, blockSize);
      data := [];
      if size == 0 {
        return Ok, [];
      }
      if size > MAX_FORK {
        return Corrupt, [];
      }
      var covered := ExtentBytes(runs);
      if size > covered {
        return Corrupt, [];
      }
      var probe;
      st, probe := ReadAt(runs, size, 1, size - 1);
      if st != Ok {
        return Corrupt, [];
      }
      if size > bytes.Length {
        return Corrupt, [];
      }
      var inside := CheckExtentsInside(runs, size);
      InsideEach(runs, blockSize, bytes.Length);
      if !inside {
        return Corrupt, [];
      }
      st, data := ReadAt(runs, size, size, 0);
      if st != Ok {
        return Corrupt, data;
      }
    }

    /** The same bytes, read in steps into a growing buffer. */
    method ReadGrow(runs: seq<Extent>, size: nat) returns (st: ReadStatus, data: seq<bv8>)
      ensures Inside(runs, blockSize, bytes.Length) && size <= Total(runs, blockSize) ==>
        st == Ok && data == Stream(bytes[..], runs, blockSize)[..size]
    {
      hide Stream, Total, Inside;
      ghost var inside := Inside(runs, blockSize, bytes.Length) && size <= Total(runs, blockSize);
      StreamLong(bytes[..], runs, blockSize);
      st, data := Ok, [];
      while |data| < size
        invariant |data| <= size && st == Ok
        invariant inside ==> data == Stream(bytes[..], runs, blockSize)[..|data|]
        decreases size - |data|
      {
        var chunk := if |data| > GROW_CHUNK then |data| else GROW_CHUNK;
        var step := if size - |data| < chunk then size - |data| else chunk;
        var piece;
        st, piece := ReadAt(runs, size, step, |data|);
        if st != Ok {
          return;
        }
        if inside {
          JoinPieces(Stream(bytes[..], runs, blockSize), |data|, step);
        }
        data := data + piece;
      }
    }
  }

  lemma {:induction false} TotalGrows(runs: seq<Extent>, bs: nat, i: nat, n: nat)
    requires i <= n <= |runs|
    ensures Total(runs[..i], bs) <= Total(runs[..n], bs)
    decreases n
  {
    if i < n {
      TotalGrows(runs, bs, i, n - 1);
      TotalNext(runs, bs, n - 1);
    }
  }

  lemma TotalUpto(runs: seq<Extent>, bs: nat, i: nat)
    requires i <= |runs|
    ensures Total(runs[..i], bs) <= Total(runs, bs)
  {
    TotalGrows(runs, bs, i, |runs|);
    assert runs[..|runs|] == runs;
  }

  lemma TotalNone(runs: seq<Extent>, bs: nat)
    ensures Total(runs[..0], bs) == 0
  {
  }

  lemma NoSpan(r: Extent, bs: nat)
    requires r.count == 0
    ensures Span(r, bs) == 0
  {
  }

  /** The overflow-free form of the comparison. */
  lemma FitsMore(count: nat, bs: nat, room: nat)
    requires bs > 0
    ensures count > room / bs <==> count * bs > room
  {
    var q := room / bs;
    assert room == q * bs + room % bs;
    if count > q {
      Times(q, 1, count, bs);
    } else {
      Times(count, 0, q, bs);
    }
  }

  lemma StreamLong(img: seq<bv8>, runs: seq<Extent>, bs: nat)
    ensures Inside(runs, bs, |img|) ==> |Stream(img, runs, bs)| == Total(runs, bs)
  {
  }

  lemma InsideEach(runs: seq<Extent>, bs: nat, n: nat)
    ensures Inside(runs, bs, n) ==> forall i :: 0 <= i < |runs| ==> RunInside(runs[i], bs, n)
  {
  }

  lemma JoinPieces(all: seq<bv8>, n: nat, m: nat)
    requires n + m <= |all|
    ensures all[..n] + all[n..n + m] == all[..n + m]
  {
  }

  /** Runs of enough blocks for the data hold exactly the data, followed by zeros. */
  lemma PaddedHolds(data: seq<bv8>, n: nat)
    requires |data| <= n
    ensures Padded(data, n)[..|data|] == data
  {
  }

  /** `ceil(len / blockSize)` blocks are enough. */
  lemma BlocksEnough(runs: seq<Extent>, bs: nat, len: nat)
    requires bs > 0 && Blocks(runs) == (len + bs - 1) / bs
    ensures len <= Total(runs, bs)
  {
    TotalBlocks(runs, bs);
    var q := (len + bs - 1) / bs;
    assert len + bs - 1 == q * bs + (len + bs - 1) % bs;
  }

  lemma {:induction false} TotalBlocks(runs: seq<Extent>, bs: nat)
    ensures Total(runs, bs) == Blocks(runs) * bs
    decreases |runs|
  {
    if runs != [] {
      var last := |runs| - 1;
      TotalBlocks(runs[..last], bs);
      assert (Blocks(runs[..last]) + runs[last].count) * bs == Blocks(runs[..last]) * bs + runs[last].count * bs;
    }
  }

  lemma RunEnd(r: Extent, bs: nat, n: nat)
    requires bs > 0 && RunInside(r, bs, n)
    ensures r.start + r.count <= n / bs
  {
    var end, blocks := r.start + r.count, n / bs;
    assert end * bs == r.start * bs + r.count * bs;
    assert n == blocks * bs + n % bs;
    if end > blocks {
      Times(blocks, 1, end, bs);
    }
  }

  /** Runs of different blocks inside the image cover no more bytes than it has. */
  lemma TotalInside(runs: seq<Extent>, bs: nat, n: nat)
    requires bs > 0 && RunsOk(runs, bs, n)
    ensures Total(runs, bs) <= n
  {
    hide Total, Free, RunInside, Apart;
    var blocks := n / bs;
    forall i: int | Within(runs, i) ensures i < blocks {
      var k :| 0 <= k < |runs| && InRun(runs[k], i);
      RunEnd(runs[k], bs, n);
    }
    var u := ApartSum(runs, blocks);
    TotalBlocks(runs, bs);
    TimesDiv(Blocks(runs), bs, n);
  }

  lemma TimesDiv(x: nat, bs: nat, n: nat)
    requires bs > 0 && x <= n / bs
    ensures x * bs <= n
  {
    assert n == n / bs * bs + n % bs;
    Times(x, 0, n / bs, bs);
  }

  /** Writing a file and reading it back, over any runs of different blocks that are enough for it. */
  method WriteThenRead(image: Image, runs: seq<Extent>, data: seq<bv8>)
    returns (st: ReadStatus, back: seq<bv8>, grown: seq<bv8>)
    requires image.blockSize > 0 && RunsOk(runs, image.blockSize, image.bytes.Length)
    requires Blocks(runs) == (|data| + image.blockSize - 1) / image.blockSize
    requires |data| <= MAX_FORK
    modifies image.bytes
    ensures st == Ok && back == data && grown == data
    ensures Written(image.bytes[..], runs, image.blockSize, data)
    ensures forall x :: 0 <= x < image.bytes.Length && !Covered(runs, image.blockSize, x) ==>
      image.bytes[x] == old(image.bytes[x])
  {
    image.WriteForkData(runs, data);
    BlocksEnough(runs, image.blockSize, |data|);
    TotalInside(runs, image.blockSize, image.bytes.Length);
    hide Written;
    PaddedHolds(data, Total(runs, image.blockSize));
    st, grown := image.ReadGrow(runs, |data|);
    st, back := image.ReadAll(runs, |data|);
  }

  function Wanted(size: nat, want: nat, start: nat): nat
    requires start < size
  {
    if want > size - start then size - start else want
  }

  /** `n` bytes from `start` on, or, when the stream is too short, what there is of them. */
  ghost predicate ReadResult(all: seq<bv8>, start: nat, n: nat, st: ReadStatus, out: seq<bv8>) {
    if start + n <= |all| then st == Ok && out == all[start..start + n]
    else st == Short && out == if start <= |all| then all[start..] else []
  }

  lemma ReadStart(img: seq<bv8>, runs: seq<Extent>, bs: nat, start: nat)
    ensures runs[..0] == [] && Total(runs[..0], bs) == 0
    ensures Inside(runs, bs, |img|) ==> ReadSoFar(img, runs, bs, start, start, [])
  {
  }

  lemma TotalNext(runs: seq<Extent>, bs: nat, i: nat)
    requires i < |runs|
    ensures Total(runs[..i + 1], bs) == Total(runs[..i], bs) + Span(runs[i], bs)
  {
    assert runs[..i + 1][..i] == runs[..i];
  }

  lemma ReadDone(img: seq<bv8>, runs: seq<Extent>, bs: nat, start: nat, off: nat, out: seq<bv8>, n: nat)
    requires Inside(runs, bs, |img|) && ReadSoFar(img, runs, bs, start, off, out) && off == start + n
    ensures n > 0 ==> ReadResult(Stream(img, runs, bs), start, n, Ok, out)
  {
  }

  lemma ReadShort(img: seq<bv8>, runs: seq<Extent>, bs: nat, start: nat, off: nat, out: seq<bv8>, n: nat)
    requires Inside(runs, bs, |img|) && ReadSoFar(img, runs, bs, start, off, out) && start <= off < start + n
    requires off >= Total(runs, bs) && (off == start || off == Total(runs, bs))
    ensures ReadResult(Stream(img, runs, bs), start, n, Short, out)
  {
  }

  lemma PaddedNext(data: seq<bv8>, n: nat, m: nat)
    ensures Padded(data, n) + Padded(data[if n < |data| then n else |data|..], m) == Padded(data, n + m)
  {
  }

  /** What has been read of a stream between `start` and `off`. */
  ghost predicate ReadSoFar(img: seq<bv8>, runs: seq<Extent>, bs: nat, start: nat, off: nat, out: seq<bv8>)
    requires Inside(runs, bs, |img|)
  {
    if off == start then out == [] else start < off <= Total(runs, bs) && out == Stream(img, runs, bs)[start..off]
  }

  /** The bytes taken from run `i` extend what was read so far. */
  lemma ReadPiece(img: seq<bv8>, runs: seq<Extent>, bs: nat, i: nat, start: nat, off: nat, m: nat, out: seq<bv8>)
    requires Inside(runs, bs, |img|) && i < |runs| && start <= off
    requires var base := Total(runs[..i], bs); base <= off && off + m <= base + Span(runs[i], bs)
    requires ReadSoFar(img, runs, bs, start, off, out)
    ensures off + m <= Total(runs, bs)
    ensures var abs := Lo(runs[i], bs) + (off - Total(runs[..i], bs));
      abs + m <= |img| && ReadSoFar(img, runs, bs, start, off + m, out + img[abs..abs + m])
  {
    hide Total, Stream, Lo, Span;
    StreamAt(img, runs, bs, i);
    assert RunInside(runs[i], bs, |img|);
    PieceOf(Stream(img, runs, bs), img, Total(runs[..i], bs), Lo(runs[i], bs), Span(runs[i], bs), off, m);
    var all := Stream(img, runs, bs);
    assert all[start..off + m] == all[start..off] + all[off..off + m];
  }

  lemma PieceOf(all: seq<bv8>, img: seq<bv8>, base: nat, lo: nat, span: nat, off: nat, m: nat)
    requires lo + span <= |img| && base + span <= |all| && all[base..base + span] == img[lo..lo + span]
    requires base <= off && off + m <= base + span
    ensures var abs := lo + (off - base); abs + m <= |img| && all[off..off + m] == img[abs..abs + m]
  {
    SliceOfSlice(all, base, span, off - base, m);
    SliceOfSlice(img, lo, span, off - base, m);
  }

  lemma SliceOfSlice<T>(s: seq<T>, a: nat, n: nat, b: nat, m: nat)
    requires a + n <= |s| && b + m <= n
    ensures s[a..a + n][b..b + m] == s[a + b..a + b + m]
  {
    var x, y := s[a..a + n][b..b + m], s[a + b..a + b + m];
    assert |x| == |y|;
    forall j | 0 <= j < m ensures x[j] == y[j] {
      assert x[j] == s[a..a + n][b + j];
    }
  }
}
