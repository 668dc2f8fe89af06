/** The block-growing buffer of dbuffer.c, refined to an append-only byte sequence. */
module DBuffer {
  import opened Bytes

  const DEFAULT_BLOCK_SIZE := 512

  lemma BlockCount(required: nat, block: nat)
    requires block > 0
    ensures (required / block + 1) * block > required
  {
    assert required == block * (required / block) + required % block;
  }

  /** The number of blocks once `required` octets are needed. */
  function Blocks(held: nat, block: nat, required: nat): nat
    requires block > 0
  {
    if held * block < required then required / block + 1 else held
  }

  class Buffer {
    var len: nat
    const blockSize: nat
    var numBlocks: nat
    var data: array<byte>  // of length 0 where the program holds a null pointer

    ghost predicate Valid()
      reads this
    {
      && blockSize > 0
      && data.Length == numBlocks * blockSize
      && (if data.Length == 0 then len == 0 else len < data.Length)
    }

    ghost function Contents(): (s: seq<byte>)
      requires Valid()
      reads this, data
      ensures |s| == len
    {
      data[..len]
    }

    constructor (n: nat)
      requires n > 0
      ensures Valid() && fresh(data) && blockSize == n && Contents() == []
    {
      blockSize := n;
      len, numBlocks := 0, 0;
      data := new byte[0];
    }

    method Reset()
      requires Valid()
      modifies this
      ensures Valid() && fresh(data) && Contents() == []
    {
      data := new byte[0];
      len, numBlocks := 0, 0;
    }

    /** Append `src`, moving to a larger array when the blocks held do not leave room for
        it and one more octet. */
    method Write(src: seq<byte>) returns (written: nat)
      requires Valid()
      modifies this, data
      ensures Valid() && written == |src|
      ensures Contents() == old(Contents()) + src
      ensures data == old(data) || fresh(data)
      ensures numBlocks == Blocks(old(numBlocks), blockSize, old(len) + |src| + 1)
    {
      var requiredLen := len + |src| + 1;
      var allocatedLen := numBlocks * blockSize;
      if allocatedLen < requiredLen {
        Grow(requiredLen);
      }
      ghost var before := data[..];
      CopyInto(data, len, src);
      len := len + |src|;
      written := |src|;
      assert Splice(before, len - |src|, src)[..len] == before[..len - |src|] + src;
    }

    /** The reallocation in `dbuffer_write`. */
    method Grow(requiredLen: nat)
      requires Valid() && numBlocks * blockSize < requiredLen
      modifies this`numBlocks, this`data
      ensures Valid() && Contents() == old(Contents()) && fresh(data)
      ensures requiredLen < data.Length && numBlocks == Blocks(old(numBlocks), blockSize, requiredLen)
    {
      var newBlockCount := requiredLen / blockSize + 1;
      BlockCount(requiredLen, blockSize);
      var newData := new byte[newBlockCount * blockSize](_ => 0);
      assert numBlocks * blockSize < newBlockCount * blockSize;
      CopyInto(newData, 0, data[..]);
      assert newData[..len] == data[..len];
      numBlocks := newBlockCount;
      data := newData;
    }

    method Read() returns (out: seq<byte>)
      requires Valid()
      ensures out == Contents()
    {
      return data[..len];
    }
  }
}
