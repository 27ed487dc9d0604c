/** Disk blocks as byte arrays, and the little-endian 32-bit words that the log header,
    the indirect blocks and the on-disk inodes store in them (kernel/fs.h, kernel/log.c). */
module Blocks {
  const BSIZE := 1024
  const WORDS := 256             // BSIZE / sizeof(uint)
  const UINT := 0x1_0000_0000    // one more than the largest uint

  type Byte = x: int | 0 <= x < 256
  type Block = s: seq<Byte> | |s| == BSIZE witness seq(BSIZE, i => 0)
  type Disk = seq<Block>

  const ZeroBlock: Block := seq(BSIZE, i => 0)

  /** data with chunk from off on. */
  function Patch(data: seq<Byte>, off: nat, chunk: seq<Byte>): (d: seq<Byte>)
    requires off + |chunk| <= |data|
    ensures |d| == |data| && forall i :: 0 <= i < |d| ==>
            d[i] == if off <= i < off + |chunk| then chunk[i - off] else data[i]
  {
    data[..off] + chunk + data[off + |chunk|..]
  }

  function Word(b: Block, i: nat): (w: nat)
    requires i < WORDS
    ensures w < UINT
  {
    (b[4 * i] as int) + 0x100 * (b[4 * i + 1] as int)
    + 0x1_0000 * (b[4 * i + 2] as int) + 0x100_0000 * (b[4 * i + 3] as int)
  }

  function PutWord(b: Block, i: nat, w: nat): (r: Block)
    requires i < WORDS && w < UINT
  {
    b[4 * i := w % 0x100][4 * i + 1 := w / 0x100 % 0x100]
     [4 * i + 2 := w / 0x1_0000 % 0x100][4 * i + 3 := w / 0x100_0000]
  }

  /** A word is the sum of its bytes. */
  lemma ByteSum(w: nat)
    ensures w == w % 0x100 + 0x100 * (w / 0x100 % 0x100) + 0x1_0000 * (w / 0x1_0000 % 0x100)
                 + 0x100_0000 * (w / 0x100_0000)
  {
    assert w / 0x1_0000 == w / 0x100 / 0x100 && w / 0x100_0000 == w / 0x1_0000 / 0x100;
  }

  /** Storing a word and loading it back is the identity, and no other word moves. */
  lemma WordOfPutWord(b: Block, i: nat, j: nat, w: nat)
    requires i < WORDS && j < WORDS && w < UINT
    ensures Word(PutWord(b, i, w), j) == if i == j then w else Word(b, j)
  {
    ByteSum(w);
  }
}
