/** Cutting a file into blocks, with the integer widths of the code. */
module Blocks {
  import opened SyncTypes

  const KIB := 1024
  const MIB := 1024 * 1024
  const GIB := 1024 * 1024 * 1024
  const TWO_31 := 0x8000_0000
  const TWO_32 := 0x1_0000_0000
  const TWO_64 := 0x1_0000_0000_0000_0000

  function BlockSize(fileSize: nat): (size: nat)
    ensures 128 * KIB <= size <= 16 * MIB
  {
    if fileSize < 250 * MIB then 128 * KIB
    else if fileSize < 500 * MIB then 256 * KIB
    else if fileSize < GIB then 512 * KIB
    else if fileSize < 2 * GIB then MIB
    else if fileSize < 4 * GIB then 2 * MIB
    else if fileSize < 8 * GIB then 4 * MIB
    else if fileSize < 16 * GIB then 8 * MIB
    else 16 * MIB
  }

  /** The 32 bits of x read as a signed number. */
  function AsI32(x: nat): int
    requires x < TWO_32
  {
    if x < TWO_31 then x else x - TWO_32
  }

  /** Remainder with the sign of the dividend. */
  function Rem(a: int, b: nat): int
    requires b > 0
  {
    if a >= 0 then a % b else -((-a) % b)
  }

  /** `u64` reading of a signed size. */
  function AsU64(x: int): int {
    if x < 0 then x + 0x1_0000_0000_0000_0000 else x
  }

  function DivCeil(a: nat, b: nat): nat
    requires b > 0
  {
    (a + b - 1) / b
  }

  function BlockLen(data: Bytes): nat {
    BlockSize(|data| % TWO_32)
  }

  function BlockCount(data: Bytes): nat {
    DivCeil(|data| % TWO_32, BlockLen(data))
  }

  lemma BlockCountBounds(data: Bytes)
    requires |data| % TWO_32 != 0
    ensures var n, size := BlockCount(data), BlockLen(data);
            1 <= n <= 2048 && (n - 1) * size < |data| % TWO_32 <= n * size
  {
  }

  /** Start of block i is within the file. */
  lemma OffsetInFile(data: Bytes, i: nat)
    requires |data| % TWO_32 != 0 && i < BlockCount(data)
    ensures 0 <= i * BlockLen(data) < |data|
    ensures i + 1 < BlockCount(data) ==> (i + 1) * BlockLen(data) == i * BlockLen(data) + BlockLen(data) <= |data|
  {
    BlockCountBounds(data);
    OffsetBelow(|data| % TWO_32, BlockLen(data), BlockCount(data), i);
  }

  lemma OffsetBelow(len: nat, size: nat, n: nat, i: nat)
    requires i < n && (n - 1) * size < len
    ensures 0 <= i * size < len
    ensures i + 1 < n ==> (i + 1) * size == i * size + size < len
  {
    MulMonotone(i, n - 1, size);
    if i + 1 < n {
      MulMonotone(i + 1, n - 1, size);
    }
  }

  lemma MulMonotone(x: nat, y: nat, b: nat)
    requires x <= y
    ensures x * b <= y * b
  {
  }

  /** All blocks but the last are full; the last takes the rest of the file, whatever its size says. */
  function BlockAt(data: Bytes, i: nat, H: HashFn): Block
    requires |data| % TWO_32 != 0 && i < BlockCount(data)
  {
    OffsetInFile(data, i);
    var size := BlockLen(data);
    if i + 1 < BlockCount(data) then Block(i * size, size, H(data[i * size..(i + 1) * size]))
    else Block(i * size, Rem(AsI32(|data| % TWO_32), size), H(data[i * size..]))
  }

  /** `gen_blocks`; absent when the block count minus one underflows. */
  function BlocksOf(data: Bytes, H: HashFn): Option<seq<Block>> {
    if |data| % TWO_32 == 0 then None
    else Some(seq(BlockCount(data), i requires 0 <= i < BlockCount(data) => BlockAt(data, i, H)))
  }

  /** `gen_blocks` over an open file: a cursor, a loop over the full blocks, then the rest. */
  method GenBlocks(data: Bytes, H: HashFn) returns (r: Option<seq<Block>>)
    ensures r == BlocksOf(data, H)
  {
    var len := |data| % TWO_32;
    var blockLen := BlockSize(len);
    var numBlocks := DivCeil(len, blockLen);
    if len == 0 {
      // `num_blocks - 1` underflows
      return None;
    }
    BlockCountBounds(data);
    var blocks: seq<Block> := [];
    var cursor := 0;
    OffsetInFile(data, 0);
    while |blocks| < numBlocks - 1
      invariant |blocks| < numBlocks
      invariant cursor == |blocks| * blockLen <= |data|
      invariant forall k :: 0 <= k < |blocks| ==> blocks[k] == BlockAt(data, k, H)
    {
      OffsetInFile(data, |blocks|);
      var block := Block(cursor, blockLen, H(data[cursor..cursor + blockLen]));
      assert block == BlockAt(data, |blocks|, H);
      cursor := cursor + blockLen;
      blocks := blocks + [block];
    }
    var last := Block(blockLen * (numBlocks - 1), Rem(AsI32(len), blockLen), H(data[cursor..]));
    assert last == BlockAt(data, numBlocks - 1, H);
    blocks := blocks + [last];
    assert blocks == BlocksOf(data, H).value;
    r := Some(blocks);
  }

  // ---------------------------------------------------------------------------
  // When the blocks tile the file
  // ---------------------------------------------------------------------------

  /** Non-empty blocks, contiguous from 0, ending at `length`. */
  ghost predicate Tiles(blocks: seq<Block>, length: nat) {
    && blocks != []
    && blocks[0].offset == 0
    && (forall i :: 0 <= i < |blocks| ==> blocks[i].size > 0)
    && (forall i :: 0 <= i < |blocks| - 1 ==> blocks[i + 1].offset == blocks[i].offset + blocks[i].size)
    && Last(blocks).offset + Last(blocks).size == length
  }

  /** Each hash is the hash of the range its block names. */
  ghost predicate HashesOwnRanges(blocks: seq<Block>, data: Bytes, H: HashFn) {
    forall i :: 0 <= i < |blocks| ==>
      && 0 <= blocks[i].offset <= blocks[i].offset + blocks[i].size <= |data|
      && blocks[i].hash == H(data[blocks[i].offset..blocks[i].offset + blocks[i].size])
  }

  /** Lengths `gen_blocks` handles: signed 32 bits, and not a whole number of blocks. */
  predicate Splittable(data: Bytes) {
    0 < |data| < TWO_31 && |data| % BlockSize(|data|) != 0
  }

  lemma ModIs(a: nat, b: nat, q: nat, r: nat)
    requires b > 0 && r < b && a == q * b + r
    ensures a % b == r
  {
    var d := a / b;
    assert a == d * b + a % b;
    assert q <= d by {
      if q > d {
        MulMonotone(d + 1, q, b);
      }
    }
    assert d <= q by {
      if q < d {
        MulMonotone(q + 1, d, b);
      }
    }
  }

  /** The size of the last block, from the 32-bit length, the block size and the block count. */
  lemma LastSizeIs(len: nat, size: nat, n: nat)
    requires 0 < size && 0 < n && (n - 1) * size < len <= n * size && len < TWO_32
    requires len < TWO_31 || size == 2 * MIB
    ensures n * size == (n - 1) * size + size
    ensures len % size == if len == n * size then 0 else len - (n - 1) * size
    ensures Rem(AsI32(len), size) == if len == n * size then 0
                                     else if len < TWO_31 then len - (n - 1) * size
                                     else len - n * size
  {
    assert n * size == (n - 1) * size + size;
    if len == n * size {
      ModIs(len, size, n, 0);
    } else {
      ModIs(len, size, n - 1, len - (n - 1) * size);
    }
  }

  lemma LastSize(data: Bytes)
    requires |data| % TWO_32 != 0
    ensures var len, size, n := |data| % TWO_32, BlockLen(data), BlockCount(data);
            && n * size == (n - 1) * size + size
            && (len % size == 0 <==> len == n * size)
            && Rem(AsI32(len), size) == if len == n * size then 0
                                        else if len < TWO_31 then len - (n - 1) * size
                                        else len - n * size
  {
    BlockCountBounds(data);
    LastSizeIs(|data| % TWO_32, BlockLen(data), BlockCount(data));
  }

  lemma BlocksContiguous(data: Bytes, H: HashFn)
    requires |data| % TWO_32 != 0
    ensures var blocks := BlocksOf(data, H).value;
            forall i :: 0 <= i < |blocks| - 1 ==>
              blocks[i].size == BlockLen(data) && blocks[i + 1].offset == blocks[i].offset + blocks[i].size
  {
    var blocks := BlocksOf(data, H).value;
    forall i | 0 <= i < |blocks| - 1
      ensures blocks[i].size == BlockLen(data) && blocks[i + 1].offset == blocks[i].offset + blocks[i].size
    {
      OffsetInFile(data, i);
    }
  }

  lemma OwnRange(data: Bytes, i: nat, H: HashFn)
    requires Splittable(data) && i < BlockCount(data)
    ensures var b := BlockAt(data, i, H);
            0 <= b.offset <= b.offset + b.size <= |data| && b.hash == H(data[b.offset..b.offset + b.size])
  {
    OffsetInFile(data, i);
    if i + 1 == BlockCount(data) {
      LastOwnRange(data, H);
    }
  }

  lemma LastOwnRange(data: Bytes, H: HashFn)
    requires Splittable(data) && BlockCount(data) > 0
    ensures var b := BlockAt(data, BlockCount(data) - 1, H);
            b.offset + b.size == |data| && 0 <= b.offset <= |data| && b.hash == H(data[b.offset..b.offset + b.size])
  {
    var i := BlockCount(data) - 1;
    OffsetInFile(data, i);
    LastSize(data);
    var b := BlockAt(data, i, H);
    assert b.offset + b.size == |data|;
    assert data[b.offset..] == data[b.offset..|data|];
  }

  lemma OwnRanges(data: Bytes, H: HashFn)
    requires Splittable(data)
    ensures HashesOwnRanges(BlocksOf(data, H).value, data, H)
  {
    forall i | 0 <= i < BlockCount(data)
      ensures var b := BlockAt(data, i, H);
              0 <= b.offset <= b.offset + b.size <= |data| && b.hash == H(data[b.offset..b.offset + b.size])
    {
      OwnRange(data, i, H);
    }
  }

  /** What decides tiling: the last block ends at the end of the file and is not empty. */
  lemma TileEnds(data: Bytes, H: HashFn)
    requires |data| % TWO_32 != 0
    ensures var blocks := BlocksOf(data, H).value;
            Tiles(blocks, |data|) <==> Splittable(data)
  {
    var blocks := BlocksOf(data, H).value;
    var n := BlockCount(data);
    BlockCountBounds(data);
    BlocksContiguous(data, H);
    LastSize(data);
    assert blocks[0].offset == 0;
    assert Last(blocks).offset == (n - 1) * BlockLen(data);
    assert Tiles(blocks, |data|) <==> Last(blocks).size > 0 && Last(blocks).offset + Last(blocks).size == |data|;
  }

  /**
    * The blocks cut from a file tile it, each with the hash of its own range, exactly when its
    * length fits a signed 32-bit number and is not a multiple of its block size.
    */
  lemma BlocksTileIff(data: Bytes, H: HashFn)
    requires |data| % TWO_32 != 0
    ensures var blocks := BlocksOf(data, H).value;
            && 1 <= |blocks| <= 2048
            && (Tiles(blocks, |data|) <==> Splittable(data))
            && (Splittable(data) ==> HashesOwnRanges(blocks, data, H))
  {
    BlockCountBounds(data);
    TileEnds(data, H);
    if Splittable(data) {
      OwnRanges(data, H);
    }
  }

  // ---------------------------------------------------------------------------
  // The block list in numbers
  // ---------------------------------------------------------------------------

  /**
    * As many blocks as `length` takes, one every `unit` bytes, all full but the last, which carries the
    * hash of the rest of the file. The last size is a signed remainder.
    */
  ghost predicate CutEvery(unit: nat, length: nat, data: Bytes, blocks: seq<Block>, H: HashFn)
    requires unit > 0
  {
    var n := |blocks|;
    && n == (length + unit - 1) / unit > 0
    && (forall i :: 0 <= i < n - 1 ==> IsFull(blocks[i], unit, i, data, H))
    && Last(blocks).offset == unit * (n - 1) <= |data|
    && Last(blocks).hash == H(data[unit * (n - 1)..])
    && Last(blocks).size == if length == unit * n then 0
                            else if length < 2147483648 then length - unit * (n - 1) else length - unit * n
  }

  ghost predicate IsFull(b: Block, unit: nat, i: nat, data: Bytes, H: HashFn) {
    && b.offset == unit * i && b.size == unit
    && unit * i <= unit * (i + 1) <= |data| && b.hash == H(data[unit * i..unit * (i + 1)])
  }

  lemma CutByBlockLen(data: Bytes, H: HashFn)
    requires |data| % TWO_32 != 0
    ensures CutEvery(BlockLen(data), |data| % TWO_32, data, BlocksOf(data, H).value, H)
  {
    var unit, n, blocks := BlockLen(data), BlockCount(data), BlocksOf(data, H).value;
    BlockCountBounds(data);
    forall i | 0 <= i < n - 1 ensures IsFull(blocks[i], unit, i, data, H) {
      FullBlock(data, i, H);
    }
    RestBlock(data, H);
    LastSize(data);
  }

  lemma FullBlock(data: Bytes, i: nat, H: HashFn)
    requires |data| % TWO_32 != 0 && i + 1 < BlockCount(data)
    ensures IsFull(BlockAt(data, i, H), BlockLen(data), i, data, H)
  {
    OffsetInFile(data, i);
  }

  lemma RestBlock(data: Bytes, H: HashFn)
    requires |data| % TWO_32 != 0 && BlockCount(data) > 0
    ensures var i, size := BlockCount(data) - 1, BlockLen(data);
            && size * i <= |data|
            && BlockAt(data, i, H) == Block(size * i, Rem(AsI32(|data| % TWO_32), size), H(data[size * i..]))
  {
    OffsetInFile(data, BlockCount(data) - 1);
  }

  /**
    * How a file is cut, by its length in 32 bits: below 250 MiB every 128 KiB, and so on. One without length in 32 bits
    * is not: the count of blocks underflows.
    */
  lemma BlocksByLength(data: Bytes, H: HashFn)
    ensures BlocksOf(data, H).None? <==> |data| % 4294967296 == 0
    ensures var length := |data| % 4294967296;
            length != 0 ==>
            var blocks := BlocksOf(data, H).value;
            && (length < 262144000 ==> CutEvery(131072, length, data, blocks, H))
            && (262144000 <= length < 524288000 ==> CutEvery(262144, length, data, blocks, H))
            && (524288000 <= length < 1073741824 ==> CutEvery(524288, length, data, blocks, H))
            && (1073741824 <= length < 2147483648 ==> CutEvery(1048576, length, data, blocks, H))
            && (2147483648 <= length ==> CutEvery(2097152, length, data, blocks, H))
  {
    if |data| % TWO_32 != 0 {
      CutByBlockLen(data, H);
    }
  }

  /** The same for a small file, outright. */
  lemma SmallFileCut(data: Bytes, H: HashFn)
    requires 0 < |data| < 262144000
    ensures BlocksOf(data, H).Some?
    ensures var blocks := BlocksOf(data, H).value;
            && |blocks| == (|data| + 131071) / 131072
            && (forall i :: 0 <= i < |blocks| ==> blocks[i].offset == 131072 * i)
            && (forall i :: 0 <= i < |blocks| - 1 ==> blocks[i].size == 131072)
  {
    BlocksByLength(data, H);
    var blocks := BlocksOf(data, H).value;
    forall i | 0 <= i < |blocks| ensures blocks[i].offset == 131072 * i {
      assert i < |blocks| - 1 ==> IsFull(blocks[i], 131072, i, data, H);
    }
    forall i | 0 <= i < |blocks| - 1 ensures blocks[i].size == 131072 {
      assert IsFull(blocks[i], 131072, i, data, H);
    }
  }

  // ---------------------------------------------------------------------------
  // The size an index reports
  // ---------------------------------------------------------------------------

  function GetSize(blocks: seq<Block>): int {
    if blocks == [] then 0 else GetSize(blocks[..|blocks| - 1]) + AsU64(Last(blocks).size)
  }

  lemma {:induction false} SizeOfFullBlocks(blocks: seq<Block>, size: nat)
    requires forall i :: 0 <= i < |blocks| ==> blocks[i].size == size
    ensures GetSize(blocks) == |blocks| * size
  {
    if blocks != [] {
      SizeOfFullBlocks(blocks[..|blocks| - 1], size);
      assert |blocks| * size == (|blocks| - 1) * size + size;
    }
  }

  /** The reported size, from the 32-bit length, the block size and the block count; a negative last size counts as a huge one. */
  lemma ReportedSize(data: Bytes, H: HashFn)
    requires |data| % TWO_32 != 0
    ensures var len, size, n := |data| % TWO_32, BlockLen(data), BlockCount(data);
            GetSize(BlocksOf(data, H).value) ==
            if len == n * size then len - size else if len < TWO_31 then len else len - size + TWO_64
  {
    var blocks := BlocksOf(data, H).value;
    var n, size := BlockCount(data), BlockLen(data);
    BlockCountBounds(data);
    BlocksContiguous(data, H);
    LastSize(data);
    SizeOfFullBlocks(blocks[..n - 1], size);
  }

  /**
    * It is the length of the file, even if the sum wraps at 64 bits, exactly for files under 2 GiB that are
    * not a whole number of blocks; for those that are, it is short by one whole block.
    */
  lemma ReportedSizeIff(data: Bytes, H: HashFn)
    requires |data| % TWO_32 != 0
    ensures var size := GetSize(BlocksOf(data, H).value);
            && size >= 0
            && (size == |data| <==> Splittable(data)) && (size % TWO_64 == |data| <==> Splittable(data))
            && (|data| < TWO_31 && !Splittable(data) ==> size == |data| - BlockSize(|data|))
  {
    ReportedSize(data, H);
    LastSize(data);
    BlockCountBounds(data);
    SizeIsLengthIff(|data|, |data| / TWO_32, |data| % TWO_32, BlockLen(data), GetSize(BlocksOf(data, H).value));
  }

  lemma SizeIsLengthIff(length: nat, q: nat, len: nat, block: nat, size: int)
    requires length == q * TWO_32 + len && 0 < len < TWO_32 && 0 < block <= 16 * MIB
    requires size == len - block || (size == len && len < TWO_31) || (size == len - block + TWO_64 && len >= TWO_31)
    requires size == len - block ==> block <= len
    ensures size >= 0
    ensures size == length <==> size == len && q == 0
    ensures size % TWO_64 == length <==> size == len && q == 0
  {
    if size == len - block + TWO_64 {
      assert size % TWO_64 == len - block;
      WholeWords(q, block);
    } else {
      assert size % TWO_64 == size;
    }
  }

  /** Less than 2^32 short of 2^64 is no multiple of 2^32. */
  lemma WholeWords(q: nat, block: nat)
    requires 0 < block < TWO_32
    ensures q * TWO_32 != TWO_64 - block
  {
    if q <= TWO_32 - 1 {
      assert q * TWO_32 <= TWO_64 - TWO_32;
    } else {
      assert q * TWO_32 >= TWO_64;
    }
  }
}
