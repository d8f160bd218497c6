// Putting a byte range together from the blocks it overlaps (src/fs/parsers.rs).
module ReadPath {
  import opened Types
  import opened Arith
  import opened BlockSplitter
  import opened FlatFile
  import opened HashedFile

  // At most `size` bytes of `data` from `from` on.
  function Piece(data: seq<Byte>, from: nat, size: nat): (r: seq<Byte>)
    ensures |r| <= size
  {
    if from < |data| then data[from..Min(from + size, |data|)] else []
  }

  // What block number `n` of a read adds to the bytes collected before; a missing or
  // short block gives fewer bytes and nothing is filled in.
  function ReadBlock(rs: ReadSplit, block: Block, n: nat, before: seq<Byte>): (r: seq<Byte>)
    requires rs.bytesFirst <= rs.size && |before| <= rs.size
    ensures n > 0 ==> |r| <= rs.size
  {
    before + if n == 0 then Piece(block, rs.firstOffset, rs.bytesFirst)
             else Piece(block, 0, Min(rs.size - |before|, rs.blockSize))
  }

  function ReadUpTo(rs: ReadSplit, m: Content, n: nat): (r: seq<Byte>)
    requires rs.bytesFirst <= rs.size
    ensures |r| <= rs.size
  {
    if n == 0 then [] else ReadBlock(rs, Get(m, rs.firstIndex + (n - 1)), n - 1, ReadUpTo(rs, m, n - 1))
  }

  lemma ReadUpToStep(rs: ReadSplit, m: Content, n: nat)
    requires rs.bytesFirst <= rs.size
    ensures ReadUpTo(rs, m, n + 1) == ReadBlock(rs, Get(m, rs.firstIndex + n), n, ReadUpTo(rs, m, n))
  {
  }

  // The block recorded under an index, or nothing.
  method BlockFor(hashes: map<nat, Hash>, blocks: map<Hash, Block>, k: nat) returns (data: Block)
    ensures data == Get(Resolve(hashes, blocks), k)
  {
    data := [];
    if k in hashes && hashes[k] in blocks {
      data := blocks[hashes[k]];
    }
  }

  method ReadOneBlock(rs: ReadSplit, data: Block, n: nat, before: seq<Byte>) returns (result: seq<Byte>)
    requires rs.bytesFirst <= rs.size && |before| <= rs.size
    ensures result == ReadBlock(rs, data, n, before)
  {
    result := before;
    var rdStart, rdSize := rs.firstOffset, rs.bytesFirst;
    if n != 0 {
      rdStart, rdSize := 0, Min(rs.size - |before|, rs.blockSize);
    }
    if rdStart < |data| {
      var rdEnd := Min(rdStart + rdSize, |data|);
      result := before + data[rdStart..rdEnd];
    }
  }

  method HbReadFromBlocks(rs: ReadSplit, hashes: map<nat, Hash>, blocks: map<Hash, Block>) returns (result: seq<Byte>)
    requires rs.bytesFirst <= rs.size && rs.firstIndex <= rs.endIndex
    ensures result == ReadUpTo(rs, Resolve(hashes, blocks), rs.endIndex - rs.firstIndex)
  {
    result := [];
    for blockIndex := rs.firstIndex to rs.endIndex
      invariant result == ReadUpTo(rs, Resolve(hashes, blocks), blockIndex - rs.firstIndex)
    {
      var data := BlockFor(hashes, blocks, blockIndex);
      ReadUpToStep(rs, Resolve(hashes, blocks), blockIndex - rs.firstIndex);
      result := ReadOneBlock(rs, data, blockIndex - rs.firstIndex, result);
    }
  }

  // ---------------------------------------------------------------------------
  // Reading a dense file

  lemma ReadNextBlock(f: seq<Byte>, start: nat, size: nat, base: nat, blockSize: nat)
    requires start < base < start + size && blockSize > 0
    ensures var before := Piece(f, start, base - start);
            before + Piece(Chunk(f, base, blockSize), 0, Min(size - |before|, blockSize)) ==
            Piece(f, start, Min(size, base + blockSize - start))
  {
    var before := Piece(f, start, base - start);
    if base < |f| {
      var z := Min(size - |before|, blockSize);
      var end := Min(base + z, |f|);
      assert Piece(Chunk(f, base, blockSize), 0, z) == f[base..end];
      assert f[start..base] + f[base..end] == f[start..end];
    } else {
      assert Chunk(f, base, blockSize) == [];
    }
  }

  lemma SliceOfSlice(f: seq<Byte>, base: nat, end: nat, from: nat, to: nat)
    requires base <= end <= |f| && from <= to <= end - base
    ensures f[base..end][from..to] == f[base + from..base + to]
  {
    var block := f[base..end];
    assert forall i | from <= i < to :: block[i] == f[base + i];
    assert forall i | 0 <= i < to - from :: block[from..to][i] == f[base + from..base + to][i];
  }

  lemma ReadFirstBlock(f: seq<Byte>, start: nat, size: nat, offset: nat, blockSize: nat)
    requires offset < blockSize && offset <= start
    ensures Piece(Chunk(f, start - offset, blockSize), offset, Min(blockSize - offset, size))
         == Piece(f, start, Min(blockSize - offset, size))
  {
    var base := start - offset;
    if start < |f| {
      var end := Min(base + blockSize, |f|);
      var to := Min(offset + Min(blockSize - offset, size), end - base);
      SliceOfSlice(f, base, end, offset, to);
    }
  }

  // A read whose first byte lies in its first block.
  predicate Aligned(rs: ReadSplit) {
    && rs.firstOffset < rs.blockSize && rs.bytesFirst == Min(rs.blockSize - rs.firstOffset, rs.size)
    && rs.firstOffset <= rs.start
  }

  // Block number `i` of the read starts at `base` in the file, overlaps the range, and
  // only the first block may start before it.
  predicate InPlace(rs: ReadSplit, i: nat, base: nat) {
    && base < rs.start + rs.size && base + rs.blockSize > rs.start
    && (if i == 0 then base == rs.start - rs.firstOffset else base > rs.start)
  }

  lemma FirstReadStep(rs: ReadSplit, f: seq<Byte>, base: nat)
    requires Aligned(rs) && InPlace(rs, 0, base)
    ensures ReadBlock(rs, Chunk(f, base, rs.blockSize), 0, [])
         == Piece(f, rs.start, Min(rs.size, base + rs.blockSize - rs.start))
  {
    ReadFirstBlock(f, rs.start, rs.size, rs.firstOffset, rs.blockSize);
  }

  lemma NextReadStep(rs: ReadSplit, f: seq<Byte>, i: nat, base: nat)
    requires Aligned(rs) && InPlace(rs, i, base) && i > 0
    ensures ReadBlock(rs, Chunk(f, base, rs.blockSize), i, Piece(f, rs.start, base - rs.start))
         == Piece(f, rs.start, Min(rs.size, base + rs.blockSize - rs.start))
  {
    ReadNextBlock(f, rs.start, rs.size, base, rs.blockSize);
  }

  // Block number `i` is where the arithmetic puts it and holds the bytes of `f` from there.
  predicate Stores(m: Content, rs: ReadSplit, f: seq<Byte>, i: nat, base: nat) {
    InPlace(rs, i, base) && Get(m, rs.firstIndex + i) == Chunk(f, base, rs.blockSize)
  }

  // The bytes of the range before position `end`.
  function Until(rs: ReadSplit, f: seq<Byte>, end: nat): seq<Byte>
    requires end >= rs.start
  {
    Piece(f, rs.start, Min(rs.size, end - rs.start))
  }

  lemma ReadUpToNext(rs: ReadSplit, m: Content, f: seq<Byte>, i: nat, base: nat)
    requires Aligned(rs) && Stores(m, rs, f, i, base)
    requires i > 0 ==> ReadUpTo(rs, m, i) == Until(rs, f, base)
    ensures ReadUpTo(rs, m, i + 1) == Until(rs, f, base + rs.blockSize)
  {
    ReadUpToStep(rs, m, i);
    if i == 0 {
      FirstReadStep(rs, f, base);
      assert ReadUpTo(rs, m, 0) == [];
    } else {
      NextReadStep(rs, f, i, base);
    }
  }

  function StartOf(k: nat, blockSize: nat): (base: nat)
    ensures base == k * blockSize
  {
    BaseIsNat(k, blockSize);
    k * blockSize
  }

  lemma StartsAround(start: nat, d: nat, i: nat, base: nat)
    requires d > 0 && base == (start / d + i) * d
    ensures base + d > start
    ensures if i == 0 then base == start - start % d else base > start
    ensures base + d == (start / d + (i + 1)) * d
  {
    var k := start / d + i;
    assert (k + 1) * d == k * d + d;
    if i > 0 {
      QuotientBelow(k - 1, start, d);
      assert (k - 1) * d + d == k * d;
    }
  }

  lemma BlockInPlace(rs: ReadSplit, i: nat, base: nat)
    requires rs.blockSize > 0 && rs == SplitRead(rs.blockSize, rs.start, rs.size)
    requires base == StartOf(rs.firstIndex + i, rs.blockSize)
    ensures base + rs.blockSize > rs.start
    ensures base + rs.blockSize == StartOf(rs.firstIndex + (i + 1), rs.blockSize)
    ensures if i < rs.endIndex - rs.firstIndex then InPlace(rs, i, base) else base >= rs.start + rs.size || rs.size == 0
  {
    StartsAround(rs.start, rs.blockSize, i, base);
    SplitReadEnd(rs.blockSize, rs.start, rs.size);
    BelowCeilDiv(rs.firstIndex + i, rs.start + rs.size, rs.blockSize);
  }

  // The first `n` blocks give the bytes of the range up to the end of those blocks.
  ghost predicate Correct(rs: ReadSplit, f: seq<Byte>, n: nat)
    requires rs.blockSize > 0 && rs.bytesFirst <= rs.size
  {
    var end := StartOf(rs.firstIndex + n, rs.blockSize);
    end >= rs.start && ReadUpTo(rs, Cut(f, rs.blockSize), n) == Until(rs, f, end)
  }

  lemma BlockStored(rs: ReadSplit, f: seq<Byte>, i: nat)
    requires rs.blockSize > 0 && rs == SplitRead(rs.blockSize, rs.start, rs.size) && i < rs.endIndex - rs.firstIndex
    ensures Aligned(rs)
    ensures var base := StartOf(rs.firstIndex + i, rs.blockSize);
            && Stores(Cut(f, rs.blockSize), rs, f, i, base)
            && base + rs.blockSize == StartOf(rs.firstIndex + (i + 1), rs.blockSize)
  {
    BlockInPlace(rs, i, StartOf(rs.firstIndex + i, rs.blockSize));
    CutAt(f, rs.blockSize, rs.firstIndex + i);
  }

  lemma OneMoreBlock(rs: ReadSplit, f: seq<Byte>, i: nat, base: nat)
    requires rs.blockSize > 0 && Aligned(rs) && Stores(Cut(f, rs.blockSize), rs, f, i, base)
    requires base == StartOf(rs.firstIndex + i, rs.blockSize)
    requires base + rs.blockSize == StartOf(rs.firstIndex + (i + 1), rs.blockSize)
    requires i > 0 ==> Correct(rs, f, i)
    ensures Correct(rs, f, i + 1)
  {
    ReadUpToNext(rs, Cut(f, rs.blockSize), f, i, base);
  }

  lemma {:induction false} AllBlocks(rs: ReadSplit, f: seq<Byte>, n: nat)
    requires rs.blockSize > 0 && rs == SplitRead(rs.blockSize, rs.start, rs.size)
    requires 0 < n <= rs.endIndex - rs.firstIndex
    ensures Correct(rs, f, n)
  {
    if n > 1 { AllBlocks(rs, f, n - 1); }
    BlockStored(rs, f, n - 1);
    OneMoreBlock(rs, f, n - 1, StartOf(rs.firstIndex + (n - 1), rs.blockSize));
  }

  // A read of a dense file returns the requested slice, cut off at the end of the file.
  lemma ReadReturnsSlice(f: seq<Byte>, blockSize: nat, start: nat, size: nat)
    requires blockSize > 0
    ensures var rs := SplitRead(blockSize, start, size);
            ReadUpTo(rs, Cut(f, blockSize), rs.endIndex - rs.firstIndex) == Piece(f, start, size)
  {
    var rs := SplitRead(blockSize, start, size);
    var n := rs.endIndex - rs.firstIndex;
    var end := StartOf(rs.firstIndex + n, blockSize);
    BlockInPlace(rs, n, end);
    if n > 0 {
      AllBlocks(rs, f, n);
    } else {
      StartsAround(start, blockSize, 0, end);
    }
  }

  // ---------------------------------------------------------------------------
  // Reading a file with a missing block

  predicate HasBytes(rs: ReadSplit, m: Content, i: nat) {
    Get(m, rs.firstIndex + i) != []
  }

  // How many of the first `n` blocks give any bytes.
  function PresentCount(rs: ReadSplit, m: Content, n: nat): nat {
    if n == 0 then 0 else PresentCount(rs, m, n - 1) + if HasBytes(rs, m, n - 1) then 1 else 0
  }

  // Not more than lie before the end, and one less with one missing.
  lemma {:induction false} PresentBelow(rs: ReadSplit, m: Content, all: nat, n: nat, missing: nat)
    requires missing < n && !HasBytes(rs, m, missing) && forall i: nat | i < all && HasBytes(rs, m, i) :: i < n
    ensures PresentCount(rs, m, all) <= if all <= missing then all else Min(all, n) - 1
  {
    if all > 0 { PresentBelow(rs, m, all - 1, n, missing); }
  }

  lemma OneBlockAtMost(rs: ReadSplit, block: Block, n: nat, before: seq<Byte>)
    requires Aligned(rs) && |before| <= rs.size
    ensures |ReadBlock(rs, block, n, before)| <= |before| + if block == [] then 0 else rs.blockSize
  {
  }

  lemma OneMoreBound(before: nat, after: nat, n: nat, d: nat, more: bool)
    requires before <= n * d && after <= before + if more then d else 0
    ensures after <= (if more then n + 1 else n) * d
  {
    assert (n + 1) * d == n * d + d;
  }

  lemma {:induction false} ReadIsBounded(rs: ReadSplit, m: Content, n: nat)
    requires Aligned(rs)
    ensures |ReadUpTo(rs, m, n)| <= PresentCount(rs, m, n) * rs.blockSize
  {
    if n > 0 {
      ReadIsBounded(rs, m, n - 1);
      LongerByOneBlock(rs, m, n - 1);
      OneMoreBound(
        |ReadUpTo(rs, m, n - 1)|, |ReadUpTo(rs, m, n)|, PresentCount(rs, m, n - 1), rs.blockSize,
        HasBytes(rs, m, n - 1));
    }
  }

  lemma LongerByOneBlock(rs: ReadSplit, m: Content, n: nat)
    requires Aligned(rs)
    ensures |ReadUpTo(rs, m, n + 1)| <= |ReadUpTo(rs, m, n)| + if HasBytes(rs, m, n) then rs.blockSize else 0
  {
    OneBlockAtMost(rs, Get(m, rs.firstIndex + n), n, ReadUpTo(rs, m, n));
  }

  // Where the block number `i` of a read lies that starts at the beginning of a block.
  lemma BlockBeforeEnd(f: seq<Byte>, rs: ReadSplit, i: nat)
    requires rs.blockSize > 0 && rs == SplitRead(rs.blockSize, rs.start, rs.size) && i < rs.endIndex - rs.firstIndex
    requires rs.firstIndex + i < CeilDiv(|f|, rs.blockSize)
    ensures rs.firstIndex + i < CeilDiv(Min(rs.start + rs.size, |f|), rs.blockSize)
  {
    SplitReadEnd(rs.blockSize, rs.start, rs.size);
    BelowCeilDiv(rs.firstIndex + i, rs.start + rs.size, rs.blockSize);
    BelowCeilDiv(rs.firstIndex + i, |f|, rs.blockSize);
    BelowCeilDiv(rs.firstIndex + i, Min(rs.start + rs.size, |f|), rs.blockSize);
  }

  lemma AllButOneIsShort(f: seq<Byte>, rs: ReadSplit, n: nat)
    requires rs.blockSize > 0 && rs == SplitRead(rs.blockSize, rs.start, rs.size) && rs.start % rs.blockSize == 0
    requires n > 0 && rs.firstIndex + n == CeilDiv(Min(rs.start + rs.size, |f|), rs.blockSize)
    ensures (n - 1) * rs.blockSize < |Piece(f, rs.start, rs.size)|
  {
    var end := Min(rs.start + rs.size, |f|);
    BelowCeilDiv(rs.firstIndex + (n - 1), end, rs.blockSize);
    StartOfBlock(rs.start, n - 1, rs.blockSize);
  }

  lemma StartOfBlock(start: nat, n: nat, d: nat)
    requires d > 0 && start % d == 0
    ensures (start / d + n) * d == start + n * d && n * d >= 0
  {
    var q := start / d;
    assert (q + n) * d == q * d + n * d;
    MulMono(0, n, d);
  }

  // A read that starts at the beginning of a block comes out short when a block of the
  // file is missing from its range.
  lemma MissingBlockShortens(f: seq<Byte>, m: Content, rs: ReadSplit, missing: nat)
    requires rs.blockSize > 0 && rs == SplitRead(rs.blockSize, rs.start, rs.size) && rs.start % rs.blockSize == 0
    requires forall k: nat | Get(m, k) != [] :: k < CeilDiv(|f|, rs.blockSize)
    requires missing < rs.endIndex - rs.firstIndex && rs.firstIndex + missing < CeilDiv(|f|, rs.blockSize)
    requires Get(m, rs.firstIndex + missing) == []
    ensures |ReadUpTo(rs, m, rs.endIndex - rs.firstIndex)| < |Piece(f, rs.start, rs.size)|
  {
    var all := rs.endIndex - rs.firstIndex;
    BlockBeforeEnd(f, rs, missing);
    var n := CeilDiv(Min(rs.start + rs.size, |f|), rs.blockSize) - rs.firstIndex;
    forall i: nat | i < all && HasBytes(rs, m, i) ensures i < n { BlockBeforeEnd(f, rs, i); }
    PresentBelow(rs, m, all, n, missing);
    ReadIsBounded(rs, m, all);
    MulMono(PresentCount(rs, m, all), n - 1, rs.blockSize);
    AllButOneIsShort(f, rs, n);
  }
}
