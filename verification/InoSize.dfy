// The size of an inode and its block count (`InoSize` in src/fs/inode.rs).
module InoSizes {
  import opened Arith
  import opened FlatFile

  class InoSize {
    var size: nat
    var blocks: nat

    // The block count is the size in blocks, rounded up.
    ghost predicate Valid(blockSize: nat)
      reads this
    {
      blockSize > 0 && blocks == CeilDiv(size, blockSize)
    }

    constructor (ghost blockSize: nat)
      requires blockSize > 0
      ensures Valid(blockSize) && size == 0
    {
      size, blocks := 0, 0;
      new;
      DivModUnique(blockSize - 1, blockSize, 0, blockSize - 1);
    }

    // Nothing is recomputed when the size stays the same.
    method SetSize(size: nat, blockSize: nat)
      requires Valid(blockSize)
      modifies this
      ensures Valid(blockSize) && this.size == size
    {
      if this.size != size {
        this.size := size;
        blocks := CeilDiv(size, blockSize);
      }
    }

    // After a write the block is counted, and the size has not shrunk.
    method BlockWriteSizeUpdate(index: nat, blockSize: nat, actualSize: nat) returns (changed: bool)
      requires Valid(blockSize)
      modifies this
      ensures Valid(blockSize)
      ensures size == if changed then index * blockSize + actualSize else old(size)
      ensures changed <==> old(size) < index * blockSize + actualSize
      ensures actualSize > 0 ==> index < blocks
      ensures old(blocks) <= blocks
    {
      BaseIsNat(index, blockSize);
      var targetSize := index * blockSize + actualSize;
      changed := targetSize > size;
      ghost var before := size;
      if changed {
        SetSize(targetSize, blockSize);
      }
      BelowCeilDiv(index, size, blockSize);
      CountsGrow(before, size, blockSize);
    }
  }

  lemma CountsGrow(before: nat, size: nat, blockSize: nat)
    requires blockSize > 0 && before <= size
    ensures CeilDiv(before, blockSize) <= CeilDiv(size, blockSize)
  {
    var last := CeilDiv(before, blockSize) - 1;
    if last >= 0 {
      BelowCeilDiv(last, before, blockSize);
      BelowCeilDiv(last, size, blockSize);
    }
  }
}
