// Cutting a byte range into blocks (src/fs/hash_block/block_splitter.rs).
module BlockSplitter {
  import opened Types
  import opened Arith

  // The pieces of one write: an irregular first block, whole blocks, an irregular
  // last block.
  datatype Split = Split(
    firstIndex: nat,
    firstStart: nat,
    first: seq<Byte>,
    midIndex: nat,
    mid: seq<Byte>,
    lastIndex: nat,
    last: seq<Byte>)
  {
    // The block after the last one of the write.
    function RangeEnd(): nat {
      lastIndex + 1
    }
  }

  // How many bytes go into the irregular first block; none if it is a whole block.
  function FirstLength(blockSize: nat, start: nat, data: seq<Byte>): (n: nat)
    requires blockSize > 0
    ensures n <= |data| && n < blockSize
  {
    var n := Min(blockSize - start % blockSize, |data|);
    if n == blockSize then 0 else n
  }

  predicate StartsWithWholeBlock(blockSize: nat, start: nat, data: seq<Byte>)
    requires blockSize > 0
  {
    Min(blockSize - start % blockSize, |data|) == blockSize
  }

  // How many of `n` bytes fill whole blocks.
  function WholeBytes(n: nat, blockSize: nat): (w: nat)
    requires blockSize > 0
    ensures w <= n
  {
    MulMono(0, n / blockSize, blockSize);
    (n / blockSize) * blockSize
  }

  function SplitWrite(blockSize: nat, start: nat, data: seq<Byte>): Split
    requires blockSize > 0
  {
    var n := FirstLength(blockSize, start, data);
    var rest := data[n..];
    var midIndex := start / blockSize + if StartsWithWholeBlock(blockSize, start, data) then 0 else 1;
    var whole := WholeBytes(|rest|, blockSize);
    var last := rest[whole..];
    IndexNeverUnderflows(blockSize, start, data);
    Split(start / blockSize, start % blockSize, data[..n],
          midIndex, rest[..whole],
          midIndex + |rest| / blockSize - (if last == [] then 1 else 0), last)
  }

  // The index of the last block is never decremented below zero.
  lemma IndexNeverUnderflows(blockSize: nat, start: nat, data: seq<Byte>)
    requires blockSize > 0
    ensures StartsWithWholeBlock(blockSize, start, data) ==>
              FirstLength(blockSize, start, data) == 0 && |data| / blockSize >= 1
  {
    if |data| >= blockSize { QuotientAtLeast(1, |data|, blockSize); }
  }

  lemma RestIsAligned(blockSize: nat, start: nat, data: seq<Byte>)
    requires blockSize > 0
    ensures var n := FirstLength(blockSize, start, data);
      && start == (start / blockSize) * blockSize + start % blockSize
      && (StartsWithWholeBlock(blockSize, start, data) ==> n == 0 && start % blockSize == 0)
      && start % blockSize + n <= blockSize
      && (n < |data| ==> (SplitWrite(blockSize, start, data).midIndex) * blockSize == start + n)
  {
    var q := start / blockSize;
    assert (q + 1) * blockSize == q * blockSize + blockSize;
  }

  lemma WholeBlocksOf(n: nat, blockSize: nat)
    requires blockSize > 0
    ensures var w := WholeBytes(n, blockSize);
      && n < w + blockSize && w % blockSize == 0 && w / blockSize == n / blockSize
      && w == (n / blockSize) * blockSize
      && CeilDiv(n, blockSize) == n / blockSize + if n == w then 0 else 1
  {
    var full := n / blockSize;
    var w := full * blockSize;
    DivModUnique(w, blockSize, full, 0);
    if n == w {
      DivModUnique(n + blockSize - 1, blockSize, full, blockSize - 1);
    } else {
      assert (full + 1) * blockSize == w + blockSize;
      DivModUnique(n + blockSize - 1, blockSize, full + 1, n - w - 1);
    }
  }

  // The pieces put together are the data, and they occupy consecutive blocks.
  lemma SplitIndices(blockSize: nat, start: nat, data: seq<Byte>)
    requires blockSize > 0
    ensures var s := SplitWrite(blockSize, start, data);
      && s.first + s.mid + s.last == data
      && s.firstStart + |s.first| <= blockSize
      && |s.mid| % blockSize == 0 && |s.last| < blockSize
      && s.midIndex == s.firstIndex + (if s.first == [] && data != [] then 0 else 1)
      && (s.last != [] ==> s.lastIndex == s.midIndex + |s.mid| / blockSize)
      && s.RangeEnd() == s.midIndex + |s.mid| / blockSize + (if s.last == [] then 0 else 1)
  {
    var n := FirstLength(blockSize, start, data);
    var rest := data[n..];
    WholeBlocksOf(|rest|, blockSize);
    assert data[..n] + rest == data;
  }

  lemma LastPosition(s: Split, blockSize: nat, start: nat)
    requires blockSize > 0 && |s.mid| % blockSize == 0
    requires s.lastIndex == s.midIndex + |s.mid| / blockSize
    requires s.midIndex * blockSize == start + |s.first|
    ensures s.lastIndex * blockSize == start + |s.first| + |s.mid|
  {
    AfterWholeBlocks(s.midIndex, |s.mid|, blockSize);
  }

  // Every piece starts where its first block starts, but for the offset of the first one.
  lemma SplitPositions(blockSize: nat, start: nat, data: seq<Byte>)
    requires blockSize > 0
    ensures var s := SplitWrite(blockSize, start, data);
      && start == s.firstIndex * blockSize + s.firstStart
      && (s.mid + s.last != [] ==> s.midIndex * blockSize == start + |s.first|)
      && (s.last != [] ==> s.lastIndex * blockSize == start + |s.first| + |s.mid|)
  {
    var s := SplitWrite(blockSize, start, data);
    MidPosition(blockSize, start, data);
    SplitIndices(blockSize, start, data);
    if s.last != [] {
      LastPosition(s, blockSize, start);
    }
  }

  lemma MidPosition(blockSize: nat, start: nat, data: seq<Byte>)
    requires blockSize > 0
    ensures var s := SplitWrite(blockSize, start, data);
      && start == s.firstIndex * blockSize + s.firstStart
      && (s.mid + s.last != [] ==> s.midIndex * blockSize == start + |s.first|)
  {
    RestIsAligned(blockSize, start, data);
  }

  // The blocks that a read has to fetch.
  datatype ReadSplit = ReadSplit(
    blockSize: nat,
    start: nat,
    size: nat,
    firstIndex: nat,
    firstOffset: nat,
    bytesFirst: nat,
    endIndex: nat)

  function SplitRead(blockSize: nat, start: nat, size: nat): ReadSplit
    requires blockSize > 0
  {
    var offset := start % blockSize;
    var bytesFirst := Min(blockSize - offset, size);
    var remaining := size - bytesFirst;
    var blockCount := remaining / blockSize
      + (if bytesFirst > 0 then 1 else 0) + (if remaining % blockSize > 0 then 1 else 0);
    ReadSplit(blockSize, start, size, start / blockSize, offset, bytesFirst, start / blockSize + blockCount)
  }

  lemma EndInFirstBlock(q: nat, base: nat, n: nat, d: nat)
    requires base == q * d && 0 < n <= d
    ensures CeilDiv(base + n, d) == q + 1
  {
    CeilDivShift(q, n, d);
    DivModUnique(n + d - 1, d, 1, n - 1);
  }

  lemma EndAfterFirstBlock(q: nat, base: nat, n: nat, d: nat)
    requires base == q * d && n >= d > 0
    ensures CeilDiv(base + n, d) == q + 1 + CeilDiv(n - d, d)
  {
    assert (q + 1) * d == base + d;
    CeilDivShift(q + 1, n - d, d);
  }

  // A range that starts `offset` into block `q` ends that many blocks further on.
  lemma EndBlock(q: nat, base: nat, offset: nat, size: nat, d: nat)
    requires base == q * d && offset < d && size > 0
    ensures CeilDiv(base + offset + size, d) == q + 1 + CeilDiv(size - Min(d - offset, size), d)
  {
    if size <= d - offset {
      EndInFirstBlock(q, base, offset + size, d);
      DivModUnique(d - 1, d, 0, d - 1);
    } else {
      EndAfterFirstBlock(q, base, offset + size, d);
    }
  }

  lemma SplitReadEnd(blockSize: nat, start: nat, size: nat)
    requires blockSize > 0
    ensures SplitRead(blockSize, start, size).endIndex ==
            if size == 0 then start / blockSize else CeilDiv(start + size, blockSize)
  {
    var remaining := size - Min(blockSize - start % blockSize, size);
    CeilDivIs(remaining, blockSize);
    if size > 0 {
      EndBlock(start / blockSize, start - start % blockSize, start % blockSize, size, blockSize);
    } else {
      DivModUnique(0, blockSize, 0, 0);
    }
  }

  // The write splitter's end, from the number of bytes in the first block.
  function WriteEnd(start: nat, size: nat, d: nat): nat
    requires d > 0
  {
    var n := Min(d - start % d, size);
    if n == d then start / d + CeilDiv(size, d) else start / d + 1 + CeilDiv(size - n, d)
  }

  // The same with the start given by its block and offset.
  lemma WriteEndFrom(q: nat, base: nat, offset: nat, size: nat, d: nat)
    requires base == q * d && offset < d && size > 0
    ensures var n := Min(d - offset, size);
            (if n == d then q + CeilDiv(size, d) else q + 1 + CeilDiv(size - n, d)) == CeilDiv(base + offset + size, d)
  {
    if Min(d - offset, size) == d {
      CeilDivShift(q, size, d);
    } else {
      EndBlock(q, base, offset, size, d);
    }
  }

  lemma WriteEndIsCeil(start: nat, size: nat, d: nat)
    requires d > 0
    ensures WriteEnd(start, size, d) == if size == 0 then start / d + 1 else CeilDiv(start + size, d)
  {
    if size == 0 {
      DivModUnique(d - 1, d, 0, d - 1);
    } else {
      WriteEndFrom(start / d, start - start % d, start % d, size, d);
    }
  }

  lemma RangeEndIsWriteEnd(blockSize: nat, start: nat, data: seq<Byte>)
    requires blockSize > 0
    ensures SplitWrite(blockSize, start, data).RangeEnd() == WriteEnd(start, |data|, blockSize)
  {
    WholeBlocksOf(|data| - FirstLength(blockSize, start, data), blockSize);
  }

  lemma SplitWriteEnd(blockSize: nat, start: nat, data: seq<Byte>)
    requires blockSize > 0
    ensures SplitWrite(blockSize, start, data).RangeEnd() ==
            if data == [] then start / blockSize + 1 else CeilDiv(start + |data|, blockSize)
  {
    RangeEndIsWriteEnd(blockSize, start, data);
    WriteEndIsCeil(start, |data|, blockSize);
  }

  // The read splitter, the write splitter and the server's floor/ceiling range name
  // the same blocks exactly when the byte range is not empty.
  lemma RangesAgreeIffNonempty(blockSize: nat, start: nat, data: seq<Byte>)
    requires blockSize > 0
    ensures var r, w := SplitRead(blockSize, start, |data|), SplitWrite(blockSize, start, data);
      && r.firstIndex == w.firstIndex == start / blockSize
      && (r.endIndex == w.RangeEnd() == CeilDiv(start + |data|, blockSize) <==> data != [])
  {
    SplitReadEnd(blockSize, start, |data|);
    SplitWriteEnd(blockSize, start, data);
  }

  // For instance, writing nothing at the start of a file names its first block, reading
  // nothing there names none.
  lemma NothingIsOneBlockToWrite(blockSize: nat)
    requires blockSize > 0
    ensures SplitWrite(blockSize, 0, []).RangeEnd() == 1 && SplitRead(blockSize, 0, 0).endIndex == 0
  {
    SplitReadEnd(blockSize, 0, 0);
    SplitWriteEnd(blockSize, 0, []);
    DivModUnique(0, blockSize, 0, 0);
  }

  // The splitter object, filled field by field.
  class BlockSplitterWrite {
    const blockSize: nat
    const start: nat
    const data: seq<Byte>
    var firstStart: nat
    var firstIndex: nat
    var first: seq<Byte>
    var midIndex: nat
    var mid: seq<Byte>
    var lastIndex: nat
    var last: seq<Byte>

    function View(): Split
      reads this
    {
      Split(firstIndex, firstStart, first, midIndex, mid, lastIndex, last)
    }

    constructor (blockSize: nat, start: nat, data: seq<Byte>)
      requires blockSize > 0
      ensures View() == SplitWrite(blockSize, start, data)
    {
      this.blockSize, this.start, this.data := blockSize, start, data;
      firstStart, firstIndex, midIndex, lastIndex := 0, 0, 0, 0;
      first, mid, last := [], [], [];
      new;
      GetIrregularStartAndRest();
    }

    method GetIrregularStartAndRest()
      requires blockSize > 0 && first == [] && last == []
      modifies this
      ensures View() == SplitWrite(blockSize, start, data)
    {
      var blockIndex := start / blockSize;
      firstIndex := blockIndex;
      firstStart := start % blockSize;
      var firstBlockRemainingSpace := blockSize - firstStart;
      var firstBlockWriteLength := Min(firstBlockRemainingSpace, |data|);
      var rest := data;
      if firstBlockWriteLength != blockSize {
        first, rest := data[..firstBlockWriteLength], data[firstBlockWriteLength..];
        blockIndex := blockIndex + 1;
      }
      assert rest == data[FirstLength(blockSize, start, data)..];
      IndexNeverUnderflows(blockSize, start, data);
      SplitRest(blockIndex, rest);
    }

    // The part of the splitting after the irregular first block.
    method SplitRest(blockIndex: nat, rest: seq<Byte>)
      requires blockSize > 0 && last == [] && (blockIndex > 0 || |rest| / blockSize > 0)
      modifies `midIndex, `mid, `lastIndex, `last
      ensures midIndex == blockIndex
      ensures mid == rest[..WholeBytes(|rest|, blockSize)] && last == rest[WholeBytes(|rest|, blockSize)..]
      ensures lastIndex == blockIndex + |rest| / blockSize - if last == [] then 1 else 0
    {
      var fullBlocks := |rest| / blockSize;
      var beginOfLastIrregularBlock := WholeBytes(|rest|, blockSize);
      midIndex := blockIndex;
      mid := rest[..beginOfLastIrregularBlock];
      lastIndex := blockIndex + fullBlocks;
      var endBlock := rest[beginOfLastIrregularBlock..];
      if |endBlock| > 0 {
        last := endBlock;
      } else {
        lastIndex := lastIndex - 1;
      }
    }
  }
}
