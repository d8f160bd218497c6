// A file as a flat byte sequence, and the same file cut into blocks
// (src/fs/hashed_block.rs, src/fs/hash_block/helpers.rs, src/fs/parsers.rs and the
// data path of src/fs/fuse_to_hashfs.rs, seen without hashes).
module FlatFile {
  import opened Types
  import opened Arith
  import opened BlockSplitter

  // Block index to block content.
  type Content = map<nat, Block>

  function Get(m: Content, k: nat): Block {
    if k in m then m[k] else []
  }

  // The bytes of `f` in the block that starts at `base`.
  function Chunk(f: seq<Byte>, base: nat, blockSize: nat): Block {
    if base <= |f| then f[base..Min(base + blockSize, |f|)] else []
  }

  lemma BaseIsNat(k: nat, d: nat)
    ensures k * d >= 0
  {
    MulMono(0, k, d);
  }

  // The dense file with content `f`: every block but the last is full.
  function Cut(f: seq<Byte>, blockSize: nat): Content
    requires blockSize > 0
  {
    map k: nat | k < CeilDiv(|f|, blockSize) :: BaseIsNat(k, blockSize); Chunk(f, k * blockSize, blockSize)
  }

  // `f` with `data` written at `start`, extended if necessary.
  function Overwrite(f: seq<Byte>, start: nat, data: seq<Byte>): seq<Byte>
    requires start <= |f|
  {
    f[..start] + data + if start + |data| <= |f| then f[start + |data|..] else []
  }

  function Zeros(n: nat): (r: seq<Byte>)
    ensures |r| == n && forall i | 0 <= i < n :: r[i] == 0
  {
    if n == 0 then [] else Zeros(n - 1) + [0]
  }

  // A block with `data` written at `pos`, zero-filled up to there.
  function UpdateRange(dest: Block, pos: nat, data: seq<Byte>): Block {
    var till := pos + |data|;
    var padded := if |dest| < till then dest + Zeros(till - |dest|) else dest;
    padded[..pos] + data + padded[till..]
  }

  // Writing into a block that is not there gives the same as writing into the old block
  // exactly when the old block has nothing but zeros before the data and nothing after it.
  lemma MergeWithoutOldIff(before: Block, pos: nat, data: seq<Byte>)
    ensures UpdateRange([], pos, data) == UpdateRange(before, pos, data) <==>
            |before| <= pos + |data| && forall i | 0 <= i < Min(pos, |before|) :: before[i] == 0
  {
    var l, r := UpdateRange([], pos, data), UpdateRange(before, pos, data);
    assert forall i | 0 <= i < Min(pos, |before|) :: r[i] == before[i];
    assert forall i | 0 <= i < pos :: l[i] == 0;
    assert |l| == pos + |data| && |r| >= |before|;
    if |before| <= pos + |data| && forall i | 0 <= i < Min(pos, |before|) :: before[i] == 0 {
      assert forall i | 0 <= i < |l| :: l[i] == r[i];
    }
  }

  method UpdateDataRangeInVec(pos: nat, data: seq<Byte>, dest: array<Byte>) returns (result: array<Byte>)
    ensures result[..] == UpdateRange(dest[..], pos, data)
    ensures fresh(result)
  {
    var till := pos + |data|;
    var len := if dest.Length < till then till else dest.Length;
    result := new Byte[len];
    var i := 0;
    while i < len
      invariant 0 <= i <= len
      invariant forall j | 0 <= j < i :: result[j] == if j < dest.Length then dest[j] else 0
    {
      result[i] := if i < dest.Length then dest[i] else 0;
      i := i + 1;
    }
    i := 0;
    while i < |data|
      invariant 0 <= i <= |data|
      invariant forall j | 0 <= j < len ::
        result[j] == if pos <= j < pos + i then data[j - pos] else if j < dest.Length then dest[j] else 0
    {
      result[pos + i] := data[i];
      i := i + 1;
    }
  }

  // ---------------------------------------------------------------------------
  // One write

  function MidChunk(s: Split, blockSize: nat, k: nat): Block
    requires s.midIndex <= k
  {
    BaseIsNat(k - s.midIndex, blockSize);
    Chunk(s.mid, (k - s.midIndex) * blockSize, blockSize)
  }

  function MidUpdates(s: Split, blockSize: nat): Content
    requires blockSize > 0
  {
    map k: nat | s.midIndex <= k < s.midIndex + |s.mid| / blockSize :: MidChunk(s, blockSize, k)
  }

  // The two irregular blocks are merged into what was there before.
  function IrregularUpdates(m: Content, s: Split): Content {
    (if s.first == [] then map[] else map[s.firstIndex := UpdateRange(Get(m, s.firstIndex), s.firstStart, s.first)])
    + (if s.last == [] then map[] else map[s.lastIndex := UpdateRange(Get(m, s.lastIndex), 0, s.last)])
  }

  function Updates(m: Content, s: Split, blockSize: nat): Content
    requires blockSize > 0
  {
    IrregularUpdates(m, s) + MidUpdates(s, blockSize)
  }

  // Block `k` overlaps the written byte range.
  predicate Touches(blockSize: nat, start: nat, data: seq<Byte>, k: nat) {
    data != [] && k * blockSize < start + |data| && start < k * blockSize + blockSize
  }

  lemma TouchesIffInRange(blockSize: nat, start: nat, data: seq<Byte>, k: nat)
    requires blockSize > 0 && data != []
    ensures Touches(blockSize, start, data, k) <==>
            start / blockSize <= k < SplitWrite(blockSize, start, data).RangeEnd()
  {
    SplitWriteEnd(blockSize, start, data);
    BelowCeilDiv(k, start + |data|, blockSize);
    QuotientBelow(k, start, blockSize);
  }

  predicate InMid(s: Split, blockSize: nat, k: nat)
    requires blockSize > 0
  {
    s.midIndex <= k < s.midIndex + |s.mid| / blockSize
  }

  // Which piece updates block `k`.
  lemma UpdatesAt(m: Content, s: Split, blockSize: nat, k: nat)
    requires blockSize > 0
    ensures k in Updates(m, s, blockSize) <==>
              InMid(s, blockSize, k) || (s.last != [] && k == s.lastIndex) || (s.first != [] && k == s.firstIndex)
    ensures k in Updates(m, s, blockSize) ==>
              (Updates(m, s, blockSize)[k] ==
               if InMid(s, blockSize, k) then MidChunk(s, blockSize, k)
               else if s.last != [] && k == s.lastIndex then UpdateRange(Get(m, k), 0, s.last)
               else UpdateRange(Get(m, k), s.firstStart, s.first))
  {
  }

  lemma PiecesCoverRange(s: Split, blockSize: nat, k: nat)
    requires blockSize > 0
    requires s.midIndex == s.firstIndex + (if s.first == [] then 0 else 1)
    requires s.last != [] ==> s.lastIndex == s.midIndex + |s.mid| / blockSize
    requires s.RangeEnd() == s.midIndex + |s.mid| / blockSize + (if s.last == [] then 0 else 1)
    ensures InMid(s, blockSize, k) || (s.last != [] && k == s.lastIndex) || (s.first != [] && k == s.firstIndex)
       <==> s.firstIndex <= k < s.RangeEnd()
  {
  }

  lemma SplitCoversRange(blockSize: nat, start: nat, data: seq<Byte>, k: nat)
    requires blockSize > 0
    ensures var s := SplitWrite(blockSize, start, data);
            (InMid(s, blockSize, k) || (s.last != [] && k == s.lastIndex) || (s.first != [] && k == s.firstIndex)) ==
            (data != [] && start / blockSize <= k < s.RangeEnd())
  {
    var s := SplitWrite(blockSize, start, data);
    SplitIndices(blockSize, start, data);
    if data == [] {
      assert |s.first + s.mid + s.last| == 0;
      DivModUnique(0, blockSize, 0, 0);
    } else {
      PiecesCoverRange(s, blockSize, k);
    }
  }

  // A write updates exactly the blocks it overlaps.
  lemma UpdatedKeys(m: Content, blockSize: nat, start: nat, data: seq<Byte>, k: nat)
    requires blockSize > 0
    ensures k in Updates(m, SplitWrite(blockSize, start, data), blockSize) <==> Touches(blockSize, start, data, k)
  {
    UpdatesAt(m, SplitWrite(blockSize, start, data), blockSize, k);
    SplitCoversRange(blockSize, start, data, k);
    if data != [] {
      TouchesIffInRange(blockSize, start, data, k);
    }
  }

  // The part of the data that falls into the block starting at `base`.
  function PieceAt(base: nat, blockSize: nat, start: nat, data: seq<Byte>): seq<Byte>
    requires base < start + |data| && start < base + blockSize
  {
    data[if base < start then 0 else base - start .. Min(base + blockSize - start, |data|)]
  }

  function PositionAt(base: nat, start: nat): nat {
    if base < start then start - base else 0
  }

  lemma WholeUpdate(dest: Block, piece: seq<Byte>)
    requires |dest| <= |piece|
    ensures UpdateRange(dest, 0, piece) == piece
  {
  }

  lemma ChunkBase(index: nat, whole: nat, blockSize: nat, k: nat)
    requires blockSize > 0 && whole % blockSize == 0 && index <= k < index + whole / blockSize
    ensures (k - index) * blockSize >= 0
    ensures k * blockSize == index * blockSize + (k - index) * blockSize
    ensures (k - index) * blockSize + blockSize <= whole
  {
    var j := k - index;
    BaseIsNat(j, blockSize);
    MulMono(j + 1, whole / blockSize, blockSize);
    assert (j + 1) * blockSize == j * blockSize + blockSize;
    AfterWholeBlocks(0, whole, blockSize);
  }

  lemma MiddleOf(first: seq<Byte>, mid: seq<Byte>, last: seq<Byte>, from: nat, to: nat)
    requires from <= to <= |mid|
    ensures mid[from..to] == (first + mid + last)[|first| + from..|first| + to]
  {
  }

  lemma MidPiece(s: Split, blockSize: nat, start: nat, data: seq<Byte>, from: nat, base: nat)
    requires data == s.first + s.mid + s.last && from + blockSize <= |s.mid| && base == start + |s.first| + from
    ensures base + blockSize <= start + |data|
    ensures blockSize > 0 ==> Chunk(s.mid, from, blockSize) == PieceAt(base, blockSize, start, data)
    ensures |Chunk(s.mid, from, blockSize)| == blockSize
  {
    MiddleOf(s.first, s.mid, s.last, from, from + blockSize);
  }

  lemma MidValue(blockSize: nat, start: nat, data: seq<Byte>, k: nat)
    requires blockSize > 0
    requires InMid(SplitWrite(blockSize, start, data), blockSize, k)
    ensures k * blockSize >= start && k * blockSize + blockSize <= start + |data|
    ensures MidChunk(SplitWrite(blockSize, start, data), blockSize, k) == PieceAt(k * blockSize, blockSize, start, data)
    ensures |MidChunk(SplitWrite(blockSize, start, data), blockSize, k)| == blockSize
  {
    var s := SplitWrite(blockSize, start, data);
    MidStart(blockSize, start, data, k);
    MidPiece(s, blockSize, start, data, (k - s.midIndex) * blockSize, k * blockSize);
  }

  lemma MidStart(blockSize: nat, start: nat, data: seq<Byte>, k: nat)
    requires blockSize > 0
    requires InMid(SplitWrite(blockSize, start, data), blockSize, k)
    ensures var s := SplitWrite(blockSize, start, data);
            && data == s.first + s.mid + s.last
            && 0 <= (k - s.midIndex) * blockSize && (k - s.midIndex) * blockSize + blockSize <= |s.mid|
            && k * blockSize == start + |s.first| + (k - s.midIndex) * blockSize
  {
    var s := SplitWrite(blockSize, start, data);
    SplitIndices(blockSize, start, data);
    SplitPositions(blockSize, start, data);
    ChunkBase(s.midIndex, |s.mid|, blockSize, k);
  }

  lemma FirstValue(blockSize: nat, start: nat, data: seq<Byte>)
    requires blockSize > 0
    ensures var s := SplitWrite(blockSize, start, data);
            var base := start - s.firstStart;
            && s.firstIndex * blockSize == base
            && (s.first != [] ==> s.firstStart == PositionAt(base, start))
            && (s.first != [] ==> s.first == PieceAt(base, blockSize, start, data))
  {
    var s := SplitWrite(blockSize, start, data);
    SplitPositions(blockSize, start, data);
  }

  lemma LastValue(blockSize: nat, start: nat, data: seq<Byte>)
    requires blockSize > 0
    requires SplitWrite(blockSize, start, data).last != []
    ensures var s := SplitWrite(blockSize, start, data);
            var base := start + |s.first| + |s.mid|;
            && s.lastIndex * blockSize == base
            && base < start + |data| && s.last == PieceAt(base, blockSize, start, data)
  {
    var s := SplitWrite(blockSize, start, data);
    SplitPositions(blockSize, start, data);
    SplitIndices(blockSize, start, data);
  }

  // The old block with its part of the data merged in.
  function Merged(before: Block, base: nat, blockSize: nat, start: nat, data: seq<Byte>): Block
    requires base < start + |data| && start < base + blockSize
  {
    UpdateRange(before, PositionAt(base, start), PieceAt(base, blockSize, start, data))
  }

  lemma MidMerged(before: Block, blockSize: nat, start: nat, data: seq<Byte>, k: nat, base: nat)
    requires blockSize > 0 && |before| <= blockSize && base == k * blockSize
    requires InMid(SplitWrite(blockSize, start, data), blockSize, k)
    ensures start <= base && base + blockSize <= start + |data|
    ensures MidChunk(SplitWrite(blockSize, start, data), blockSize, k) == Merged(before, base, blockSize, start, data)
  {
    MidValue(blockSize, start, data, k);
    WholeUpdate(before, PieceAt(base, blockSize, start, data));
  }

  lemma LastMerged(before: Block, blockSize: nat, start: nat, data: seq<Byte>, base: nat)
    requires blockSize > 0 && SplitWrite(blockSize, start, data).last != []
    requires base == SplitWrite(blockSize, start, data).lastIndex * blockSize
    ensures start <= base < start + |data|
    ensures UpdateRange(before, 0, SplitWrite(blockSize, start, data).last) ==
            Merged(before, base, blockSize, start, data)
  {
    LastValue(blockSize, start, data);
  }

  lemma FirstMerged(before: Block, blockSize: nat, start: nat, data: seq<Byte>, base: nat)
    requires blockSize > 0 && SplitWrite(blockSize, start, data).first != []
    requires base == SplitWrite(blockSize, start, data).firstIndex * blockSize
    ensures base < start + |data| && start < base + blockSize
    ensures var s := SplitWrite(blockSize, start, data);
            UpdateRange(before, s.firstStart, s.first) == Merged(before, base, blockSize, start, data)
  {
    FirstValue(blockSize, start, data);
  }

  // Every updated block is the old block with its part of the data merged in.
  lemma UpdatedValue(m: Content, blockSize: nat, start: nat, data: seq<Byte>, k: nat, base: nat)
    requires blockSize > 0 && Touches(blockSize, start, data, k) && |Get(m, k)| <= blockSize && base == k * blockSize
    ensures k in Updates(m, SplitWrite(blockSize, start, data), blockSize)
    ensures Updates(m, SplitWrite(blockSize, start, data), blockSize)[k] ==
            Merged(Get(m, k), base, blockSize, start, data)
  {
    var s := SplitWrite(blockSize, start, data);
    UpdatedKeys(m, blockSize, start, data, k);
    UpdatesAt(m, s, blockSize, k);
    if InMid(s, blockSize, k) {
      MidMerged(Get(m, k), blockSize, start, data, k, base);
    } else if s.last != [] && k == s.lastIndex {
      LastMerged(Get(m, k), blockSize, start, data, base);
    } else {
      FirstMerged(Get(m, k), blockSize, start, data, base);
    }
  }

  // ---------------------------------------------------------------------------
  // A write on a dense file is a write on the flat file

  lemma SameSlice(f: seq<Byte>, g: seq<Byte>, from: nat, to: nat)
    requires from <= to <= |f| && to <= |g|
    requires forall i | from <= i < to :: f[i] == g[i]
    ensures f[from..to] == g[from..to]
  {
  }

  lemma OverwriteAt(f: seq<Byte>, start: nat, data: seq<Byte>)
    requires start <= |f|
    ensures var g := Overwrite(f, start, data);
      && |g| == (if |f| < start + |data| then start + |data| else |f|)
      && forall i | 0 <= i < |g| :: g[i] == if start <= i < start + |data| then data[i - start] else f[i]
  {
  }

  lemma UpdateRangeAt(dest: Block, pos: nat, data: seq<Byte>)
    requires pos <= |dest|
    ensures UpdateRange(dest, pos, data) == Overwrite(dest, pos, data)
  {
  }

  // One byte of a block of the overwritten file.
  lemma ChunkByte(f: seq<Byte>, base: nat, blockSize: nat, start: nat, data: seq<Byte>, i: nat)
    requires start <= |f| && base <= |Overwrite(f, start, data)|
    requires i < |Chunk(Overwrite(f, start, data), base, blockSize)|
    ensures Chunk(Overwrite(f, start, data), base, blockSize)[i] ==
            if start <= base + i < start + |data| then data[base + i - start] else f[base + i]
  {
    OverwriteAt(f, start, data);
  }

  // One byte of a merged block.
  lemma MergedByte(before: Block, base: nat, blockSize: nat, start: nat, data: seq<Byte>, i: nat)
    requires base < start + |data| && start < base + blockSize && PositionAt(base, start) <= |before| <= blockSize
    requires i < |Merged(before, base, blockSize, start, data)|
    ensures |Merged(before, base, blockSize, start, data)| <= blockSize
    ensures Merged(before, base, blockSize, start, data)[i] ==
            if start <= base + i < start + |data| then data[base + i - start] else before[i]
  {
    var pos, piece := PositionAt(base, start), PieceAt(base, blockSize, start, data);
    UpdateRangeAt(before, pos, piece);
    OverwriteAt(before, pos, piece);
  }

  lemma MergedLength(f: seq<Byte>, base: nat, blockSize: nat, start: nat, data: seq<Byte>)
    requires start <= |f| && base < start + |data| && start < base + blockSize
    ensures PositionAt(base, start) <= |Chunk(f, base, blockSize)| <= blockSize
    ensures |Merged(Chunk(f, base, blockSize), base, blockSize, start, data)|
         == |Chunk(Overwrite(f, start, data), base, blockSize)|
  {
    var before, pos, piece := Chunk(f, base, blockSize), PositionAt(base, start), PieceAt(base, blockSize, start, data);
    OverwriteAt(f, start, data);
    UpdateRangeAt(before, pos, piece);
    OverwriteAt(before, pos, piece);
  }

  lemma UpdatedChunk(f: seq<Byte>, base: nat, blockSize: nat, start: nat, data: seq<Byte>)
    requires start <= |f| && base < start + |data| && start < base + blockSize
    ensures Merged(Chunk(f, base, blockSize), base, blockSize, start, data) ==
            Chunk(Overwrite(f, start, data), base, blockSize)
  {
    var before := Chunk(f, base, blockSize);
    var l, r := Merged(before, base, blockSize, start, data), Chunk(Overwrite(f, start, data), base, blockSize);
    MergedLength(f, base, blockSize, start, data);
    OverwriteAt(f, start, data);
    forall i | 0 <= i < |l| ensures l[i] == r[i] {
      MergedByte(before, base, blockSize, start, data, i);
      ChunkByte(f, base, blockSize, start, data, i);
    }
  }

  lemma UntouchedChunk(f: seq<Byte>, base: nat, blockSize: nat, start: nat, data: seq<Byte>)
    requires blockSize > 0 && start <= |f|
    requires data == [] || base >= start + |data| || start >= base + blockSize
    ensures Chunk(Overwrite(f, start, data), base, blockSize) == Chunk(f, base, blockSize)
    ensures base < |Overwrite(f, start, data)| <==> base < |f|
  {
    var g := Overwrite(f, start, data);
    OverwriteAt(f, start, data);
    if base <= |f| {
      SameSlice(f, g, base, Min(base + blockSize, |f|));
    } else if base <= |g| {
      assert g[base..Min(base + blockSize, |g|)] == [];
    }
  }

  lemma CutAt(f: seq<Byte>, blockSize: nat, k: nat)
    requires blockSize > 0
    ensures k * blockSize >= 0
    ensures k in Cut(f, blockSize) <==> k * blockSize < |f|
    ensures Get(Cut(f, blockSize), k) == Chunk(f, k * blockSize, blockSize)
    ensures |Get(Cut(f, blockSize), k)| <= blockSize
  {
    BaseIsNat(k, blockSize);
    BelowCeilDiv(k, |f|, blockSize);
  }

  lemma WrittenAt(f: seq<Byte>, blockSize: nat, start: nat, data: seq<Byte>, k: nat)
    requires blockSize > 0 && start <= |f|
    ensures var m := Cut(f, blockSize);
            Lookup(m + Updates(m, SplitWrite(blockSize, start, data), blockSize), k) ==
            Lookup(Cut(Overwrite(f, start, data), blockSize), k)
  {
    var m := Cut(f, blockSize);
    CutAt(f, blockSize, k);
    CutAt(Overwrite(f, start, data), blockSize, k);
    UpdatedKeys(m, blockSize, start, data, k);
    var base := k * blockSize;
    if Touches(blockSize, start, data, k) {
      UpdatedValue(m, blockSize, start, data, k, base);
      UpdatedChunk(f, base, blockSize, start, data);
    } else {
      UntouchedChunk(f, base, blockSize, start, data);
    }
  }

  lemma WriteRefinesOverwrite(f: seq<Byte>, blockSize: nat, start: nat, data: seq<Byte>)
    requires blockSize > 0 && start <= |f|
    ensures Cut(f, blockSize) + Updates(Cut(f, blockSize), SplitWrite(blockSize, start, data), blockSize)
         == Cut(Overwrite(f, start, data), blockSize)
  {
    var m, m' := Cut(f, blockSize), Cut(Overwrite(f, start, data), blockSize);
    var written := m + Updates(m, SplitWrite(blockSize, start, data), blockSize);
    forall k: nat ensures Lookup(written, k) == Lookup(m', k) { WrittenAt(f, blockSize, start, data, k); }
    SameLookups(written, m');
  }
}
