/** Where the fields of kernel/fs.h and kernel/log.c lie in their blocks, byte by byte. */
module DiskLayout {
  import opened Blocks
  import opened Params
  import opened FsLayout
  import FsSpec
  import LogSpec

  /** A little-endian 16-bit, and 32-bit, number at byte at. */
  function Short(b: Block, at: nat): nat
    requires at + 2 <= 1024
  {
    (b[at] as int) + 256 * (b[at + 1] as int)
  }

  function Uint(b: Block, at: nat): nat
    requires at + 4 <= 1024
  {
    Short(b, at) + 65536 * Short(b, at + 2)
  }

  lemma WordIs(b: Block, i: nat)
    requires i < WORDS
    ensures Word(b, i) == Uint(b, 4 * i)
    ensures Word(b, i) % 0x1_0000 == Short(b, 4 * i) && Word(b, i) / 0x1_0000 == Short(b, 4 * i + 2)
  {
    var lo, hi := Short(b, 4 * i), Short(b, 4 * i + 2);
    assert Word(b, i) == lo + 0x1_0000 * hi && lo < 0x1_0000;
  }

  /** Equal words are equal bytes. */
  lemma SameBytes(b: Block, c: Block, i: nat, at: nat)
    requires i < WORDS && Word(b, i) == Word(c, i) && 4 * i <= at < 4 * i + 4
    ensures b[at] == c[at]
  {
    WordIs(b, i);
    WordIs(c, i);
    assert at == 4 * i || at == 4 * i + 1 || at == 4 * i + 2 || at == 4 * i + 3;
  }

  /** struct dinode, 64 bytes each, sixteen in a block: type, major, minor and nlink at bytes 0, 2, 4
      and 6, size at byte 8, address k at byte 12 + 4 * k; iupdate leaves every other byte alone. */
  lemma InodeBytes(bp: Block, i: nat, ino: Inode)
    requires ino.Ok()
    ensures var b, o := PutInode(bp, i, ino), i % 16 * 64;
            && Short(b, o) == ino.typ && Short(b, o + 2) == ino.major
            && Short(b, o + 4) == ino.minor && Short(b, o + 6) == ino.nlink && Uint(b, o + 8) == ino.size
            && (forall k :: 0 <= k < 13 ==> Uint(b, o + 12 + 4 * k) == ino.addrs[k])
            && forall at :: 0 <= at < 1024 && !(o <= at < o + 64) ==> b[at] == bp[at]
  {
    var b, o := PutInode(bp, i, ino), i % 16 * 64;
    var w := o / 4;
    assert Offset(i) == w && o == 4 * w;
    forall j: nat | j < WORDS
      ensures Word(b, j) == if w <= j < w + 16 then ino.Words()[j - w] else Word(bp, j)
    {
      PutWordsAt(bp, w, ino.Words(), INODE_WORDS, j);
    }
    WordIs(b, w);
    WordIs(b, w + 1);
    WordIs(b, w + 2);
    Halves(ino.typ, ino.major);
    Halves(ino.minor, ino.nlink);
    forall k | 0 <= k < 13 ensures Uint(b, o + 12 + 4 * k) == ino.addrs[k] {
      WordIs(b, w + 3 + k);
    }
    forall at | 0 <= at < 1024 && !(o <= at < o + 64) ensures b[at] == bp[at] {
      SameBytes(b, bp, at / 4, at);
    }
  }

  lemma Halves(lo: nat, hi: nat)
    requires lo < 0x1_0000
    ensures (lo + 0x1_0000 * hi) % 0x1_0000 == lo && (lo + 0x1_0000 * hi) / 0x1_0000 == hi
  {
  }

  /** Reading: ilock takes inode i from bytes i % 16 * 64 on of block inodestart + i / 16. */
  lemma InodeReads(sb: Super, store: Disk, i: nat)
    requires sb.Ok() && |store| == sb.size && i < sb.ninodes
    ensures sb.inodestart + i / 16 < sb.size
    ensures var b, o, ino := store[sb.inodestart + i / 16], i % 16 * 64, GetInode(store[sb.IBlock(i)], i);
            && ino.typ == Short(b, o) && ino.major == Short(b, o + 2) && ino.minor == Short(b, o + 4)
            && ino.nlink == Short(b, o + 6) && ino.size == Uint(b, o + 8)
            && |ino.addrs| == 13 && forall k :: 0 <= k < 13 ==> ino.addrs[k] == Uint(b, o + 12 + 4 * k)
  {
    var b, o := store[sb.inodestart + i / 16], i % 16 * 64;
    var w := o / 4;
    assert Offset(i) == w && o == 4 * w;
    WordIs(b, w);
    WordIs(b, w + 1);
    WordIs(b, w + 2);
    forall k | 0 <= k < 13 ensures ReadWords(b, w).addrs[k] == Uint(b, o + 12 + 4 * k) {
      WordIs(b, w + 3 + k);
    }
  }

  /** Block k of a file: the first twelve from the inode, then the words of the indirect block. */
  lemma BlocksOfFile(store: Disk, ino: Inode, k: nat)
    requires ino.Ok() && k < 268
    ensures k < 12 ==> FsSpec.Blk(store, ino, k) == ino.addrs[k]
    ensures 12 <= k && 0 < ino.addrs[12] < |store| ==>
            FsSpec.Blk(store, ino, k) == Uint(store[ino.addrs[12]], 4 * (k - 12))
  {
    if 12 <= k && 0 < ino.addrs[12] < |store| { WordIs(store[ino.addrs[12]], k - 12); }
  }

  /** The free map: block b is in use exactly if bit b % 8 of byte b % 8192 / 8 of block
      bmapstart + b / 8192 is set. */
  lemma MapBit(sb: Super, store: Disk, b: nat)
    requires sb.Ok() && |store| == sb.size && b < sb.size
    ensures sb.bmapstart + b / 8192 < sb.datastart
    ensures InUse(sb, store, b)
            <==> (store[sb.bmapstart + b / 8192][b % 8192 / 8] as int) / [1, 2, 4, 8, 16, 32, 64, 128][b % 8] % 2 == 1
  {
    BitIs(store[sb.bmapstart + b / 8192][b % 8192 / 8], b % 8);
  }

  lemma {:induction false} BitIs(x: nat, k: nat)
    requires k < 8
    ensures TestBit(x, k) <==> x / [1, 2, 4, 8, 16, 32, 64, 128][k] % 2 == 1
  {
    if k > 0 {
      BitIs(x / 2, k - 1);
      HalfOf(x, k);
    }
  }

  lemma HalfOf(x: nat, k: nat)
    requires 0 < k < 8
    ensures x / 2 / [1, 2, 4, 8, 16, 32, 64, 128][k - 1] == x / [1, 2, 4, 8, 16, 32, 64, 128][k]
  {
    if k == 1 { assert x / 2 / 1 == x / 2; }
    else if k == 2 { assert x / 2 / 2 == x / 4; }
    else if k == 3 { assert x / 2 / 4 == x / 8; }
    else if k == 4 { assert x / 2 / 8 == x / 16; }
    else if k == 5 { assert x / 2 / 16 == x / 32; }
    else if k == 6 { assert x / 2 / 32 == x / 64; }
    else { assert x / 2 / 64 == x / 128; }
  }

  /** struct logheader: the count at byte 0, the number of the block whose copy is log block 1 + t at
      byte 4 + 4 * t; write_head leaves every other byte of the header block alone. */
  lemma HeaderBytes(h: Block, lh: seq<nat>)
    requires |lh| <= LOGSIZE && forall t :: 0 <= t < |lh| ==> lh[t] < UINT
    ensures var b := LogSpec.PutHeader(h, lh);
            && Uint(b, 0) == |lh| && (forall t :: 0 <= t < |lh| ==> Uint(b, 4 + 4 * t) == lh[t])
            && forall at :: 4 + 4 * |lh| <= at < 1024 ==> b[at] == h[at]
  {
    var b, z := LogSpec.PutHeader(h, lh), PutWord(h, 0, |lh|);
    forall j: nat | j < WORDS
      ensures Word(b, j) == if j == 0 then |lh| else if j <= |lh| then lh[j - 1] else Word(h, j)
    {
      LogSpec.PutBlocksWord(z, lh, |lh|, j);
      WordOfPutWord(h, 0, j, |lh|);
    }
    WordIs(b, 0);
    forall t | 0 <= t < |lh| ensures Uint(b, 4 + 4 * t) == lh[t] { WordIs(b, 1 + t); }
    forall at | 4 + 4 * |lh| <= at < 1024 ensures b[at] == h[at] { SameBytes(b, h, at / 4, at); }
  }

  /** Reading: read_head takes the count and the blocks from the same bytes. */
  lemma HeaderReads(g: LogSpec.Geometry, d: Disk)
    requires g.Ok() && |d| == g.blocks
    ensures LogSpec.HeaderN(g, d) == Uint(d[g.start], 0)
    ensures LogSpec.HeaderN(g, d) <= LOGSIZE ==> |LogSpec.HeaderBlocks(g, d)| == Uint(d[g.start], 0)
    ensures LogSpec.HeaderN(g, d) <= LOGSIZE ==>
            forall t :: 0 <= t < Uint(d[g.start], 0) ==>
                 LogSpec.HeaderBlocks(g, d)[t] == Uint(d[g.start], 4 + 4 * t)
  {
    WordIs(d[g.start], 0);
    if LogSpec.HeaderN(g, d) <= LOGSIZE {
      forall t | 0 <= t < Uint(d[g.start], 0)
        ensures LogSpec.HeaderBlocks(g, d)[t] == Uint(d[g.start], 4 + 4 * t)
      {
        WordIs(d[g.start], 1 + t);
      }
    }
  }
}
