/** The inode layer of kernel/fs.c and the chunked filewrite of kernel/file.c, over the flat block
    store that the log and the buffer cache provide: store[b] is what bread(b) gives, and log_write
    of block b adds b to logged. */
module InodeFs {
  import opened Blocks
  import opened Common
  import opened Params
  import opened FsLayout
  import opened FsSpec
  import opened Counting

  // keys of guarded predicates that are opened separately
  const VISITS := 1
  const LOOPING := 2
  const SPENT := 3
  const PATCHED := 4
  const WRITTEN := 5
  const PIECES := 6
  const MAPS := 7
  const TOLD := 8
  const FILING := 9

  lemma BitPosition(q: nat, bi: nat)
    requires bi < BPB
    ensures (q * BPB + bi) / BPB == q && (q * BPB + bi) % BPB == bi
  {
  }

  lemma BitInByte(q: nat, bi: nat)
    ensures (q * BPB + bi) % 8 == bi % 8
  {
    var k, m := bi / 8, bi % 8;
    assert q * BPB + bi == 8 * (1024 * q + k) + m;
  }

  /** Bit bi of the bitmap block that covers block b, b being a multiple of BPB. */
  lemma BitOf(sb: Super, store: Disk, b: nat, bi: nat)
    requires sb.Ok() && |store| == sb.size && b % BPB == 0 && bi < BPB && b + bi < sb.size
    ensures sb.BBlock(b + bi) == sb.BBlock(b) && (b + bi) % BPB == bi
    ensures InUse(sb, store, b + bi) == TestBit(store[sb.BBlock(b)][bi / 8], bi % 8)
  {
    var q := b / BPB;
    assert b == q * BPB;
    BitPosition(q, bi);
    BitInByte(q, bi);
  }

  /** Nothing below the free map, where the inodes are, has changed. */
  ghost predicate InodeAreaSame(sb: Super, store: Disk, store': Disk) {
    |store| == |store'| && forall b :: 0 <= b < sb.bmapstart && b < |store| ==> store'[b] == store[b]
  }

  /** How one turn of the writei loop ends: disk full, user copy failed, or block written. */
  datatype Turn = Full | Fault | Done

  /** The bytes of inode i after bytes went to offset o of its block bn: mapped blocks stay where
      they are and every other mapped byte is as before. */
  ghost predicate Patched(store: Disk, ino: Inode, store': Disk, ino': Inode, bn: nat, o: nat, bytes: seq<Byte>) {
    ino.Ok() && ino'.Ok() && forall k {:trigger Open(k)} :: Open(k) && k == PATCHED ==>
      && (forall n: nat {:trigger Blk(store, ino, n)} {:trigger Blk(store', ino', n)} ::
          n < MAXFILE && Blk(store, ino, n) != 0 ==>
            Blk(store', ino', n) == Blk(store, ino, n))
      && (forall p: nat {:trigger Peek(store', ino', p)} :: p < MAXBYTES && Blk(store, ino, p / BSIZE) != 0 ==>
            Peek(store', ino', p) == if p / BSIZE == bn && o <= p % BSIZE < o + |bytes| then bytes[p % BSIZE - o]
                                     else Peek(store, ino, p))
  }

  /** Block bn is there and has bytes at offset o. */
  ghost predicate Landed(store: Disk, ino: Inode, bn: nat, o: nat, bytes: seq<Byte>) {
    ino.Ok() && bn < MAXFILE && Blk(store, ino, bn) != 0 && forall k {:trigger Open(k)} :: Open(k) && k == PATCHED ==>
      forall p: nat :: p < MAXBYTES && p / BSIZE == bn && o <= p % BSIZE < o + |bytes| ==>
        Peek(store, ino, p) == bytes[p % BSIZE - o]
  }

  /** Number of file blocks that n bytes from off on touch. */
  function Span(off: nat, n: nat): nat {
    if n == 0 then 0 else (off + n - 1) / BSIZE - off / BSIZE + 1
  }

  /** Blocks that a write may log: each file block it visits, a bitmap block for each one that it
      has to allocate (a partly filled first block never needs that), one more for the indirect
      block, and the indirect block. */
  ghost predicate Spent(off: nat, visits: nat, inds: nat, logged: set<nat>, data: set<nat>, bitmap: set<nat>,
                        ind: nat) {
    forall k {:trigger Open(k)} :: Open(k) && k == SPENT ==>
      && logged <= data + bitmap + {ind}
      && |data| <= visits
      && |bitmap| <= visits - (if off % BSIZE != 0 && visits > 0 then 1 else 0) + inds
  }

  /** Only blocks of the free map. */
  ghost predicate InMap(sb: Super, maps: set<nat>) {
    forall k {:trigger Open(k)} :: Open(k) && k == MAPS ==>
      forall b :: b in maps ==> sb.bmapstart <= b <= sb.bmapstart + sb.size / BPB
  }

  lemma MapCount(sb: Super, maps: set<nat>)
    requires InMap(sb, maps)
    ensures |maps| <= sb.size / BPB + 1
  {
    assert Open(MAPS);
    RangeCount(sb.bmapstart, sb.size / BPB + 1);
    SubsetCount(maps, Range(sb.bmapstart, sb.size / BPB + 1));
  }

  lemma MapOne(sb: Super, b: nat)
    requires b < sb.size
    ensures InMap(sb, {}) && InMap(sb, {sb.BBlock(b)})
  {
  }

  lemma MapAdd(sb: Super, maps: set<nat>, more: set<nat>)
    requires InMap(sb, maps) && InMap(sb, more)
    ensures InMap(sb, maps + more)
  {
    assert Open(MAPS);
  }

  lemma SpentTotal(off: nat, visits: nat, inds: nat, logged: set<nat>, data: set<nat>, bitmap: set<nat>, ind: nat)
    requires Spent(off, visits, inds, logged, data, bitmap, ind)
    ensures |logged| <= 2 * visits + inds + 1 - (if off % BSIZE != 0 && visits > 0 then 1 else 0)
    ensures |logged| <= visits + |bitmap| + 1
  {
    assert Open(SPENT);
    SubsetCount(logged, data + bitmap + {ind});
  }

  lemma SpentMore(off: nat, visits: nat, inds: nat, logged: set<nat>, data: set<nat>, bitmap: set<nat>, ind: nat,
                  inds': nat, logged': set<nat>, meta: set<nat>, addr: nat, ind': nat)
    requires Spent(off, visits, inds, logged, data, bitmap, ind)
    requires logged' <= logged + meta + ({addr, ind'} - {0})
    requires ind == 0 || ind' == ind
    requires 0 !in logged && 0 !in meta
    requires |meta| <= (if off % BSIZE != 0 && visits == 0 then 0 else 1) + inds' - inds
    ensures Spent(off, visits + 1, inds', logged', data + {addr}, bitmap + meta, ind') && 0 !in logged'
  {
    assert Open(SPENT);
  }

  /** No block of the free map is block 0. */
  lemma MapNotZero(sb: Super, maps: set<nat>)
    requires sb.Ok() && InMap(sb, maps)
    ensures 0 !in maps
  {
    assert Open(MAPS);
  }

  /** After tot bytes of src went to off0 on: the blocks up to there exist, those bytes are src's
      and the others are as before. The size field is still the old one. */
  ghost predicate Written(store0: Disk, ino0: Inode, store: Disk, ino: Inode, off0: nat, src: seq<Byte>, tot: nat) {
    && ino0.Ok() && ino.Ok() && ino == ino0.(addrs := ino.addrs)
    && tot <= |src| && off0 + tot <= MAXBYTES && off0 <= ino0.size <= MAXBYTES
    && forall k {:trigger Open(k)} :: Open(k) && k == WRITTEN ==>
         && (forall n: nat {:trigger Blk(store, ino, n)} :: n < MAXFILE && n * BSIZE < Max(ino0.size, off0 + tot) ==>
             Blk(store, ino, n) != 0)
         && (forall p: nat {:trigger Peek(store, ino, p)} :: p < Max(ino0.size, off0 + tot) ==>
               Peek(store, ino, p) == if off0 <= p < off0 + tot then src[p - off0] else Peek(store0, ino0, p))
  }

  /** A write that starts inside a block finds that block in place. */
  lemma FirstMapped(store0: Disk, ino0: Inode, store: Disk, ino: Inode, off0: nat, src: seq<Byte>)
    requires Written(store0, ino0, store, ino, off0, src, 0) && off0 % BSIZE != 0
    ensures off0 / BSIZE < MAXFILE && Blk(store, ino, off0 / BSIZE) != 0
  {
    assert Open(WRITTEN);
  }

  lemma WrittenStart(store: Disk, ino: Inode, off0: nat, src: seq<Byte>)
    requires HoleFree(store, ino) && off0 <= ino.size && off0 + |src| <= MAXBYTES
    ensures Written(store, ino, store, ino, off0, src, 0)
  {
  }

  /** A turn that copies m more bytes within one block. */
  lemma WrittenMore(store0: Disk, ino0: Inode, store: Disk, ino: Inode, store': Disk, ino': Inode, off0: nat,
                    src: seq<Byte>, tot: nat, m: nat)
    requires Written(store0, ino0, store, ino, off0, src, tot)
    requires m <= |src| - tot && m <= BSIZE - (off0 + tot) % BSIZE && off0 + tot + m <= MAXBYTES
    requires Patched(store, ino, store', ino', (off0 + tot) / BSIZE, (off0 + tot) % BSIZE, src[tot..tot + m])
    requires ino' == ino.(addrs := ino'.addrs)
    requires m > 0 ==> Landed(store', ino', (off0 + tot) / BSIZE, (off0 + tot) % BSIZE, src[tot..tot + m])
    ensures Written(store0, ino0, store', ino', off0, src, tot + m)
  {
    assert Open(WRITTEN) && Open(PATCHED);
    var off := off0 + tot;
    forall n: nat | n < MAXFILE && n * BSIZE < Max(ino0.size, off + m) ensures Blk(store', ino', n) != 0 {
      if n != off / BSIZE {
        assert n * BSIZE < Max(ino0.size, off);
        assert Blk(store, ino, n) != 0;
      } else if m == 0 {
        assert Blk(store, ino, n) != 0;
      }
    }
    forall p: nat | p < Max(ino0.size, off + m)
      ensures Peek(store', ino', p) == if off0 <= p < off + m then src[p - off0] else Peek(store0, ino0, p)
    {
      assert off <= p < off + m <==> p / BSIZE == off / BSIZE && off % BSIZE <= p % BSIZE < off % BSIZE + m;
      if off <= p < off + m {
        assert p % BSIZE - off % BSIZE == p - off;
      } else {
        assert p < Max(ino0.size, off);
        assert Blk(store, ino, p / BSIZE) != 0;
        assert Peek(store, ino, p) == if off0 <= p < off then src[p - off0] else Peek(store0, ino0, p);
      }
    }
  }

  /** s with t written over it from off on, growing if need be. */
  function Splice(s: seq<Byte>, off: nat, t: seq<Byte>): (r: seq<Byte>)
    requires off <= |s|
    ensures |r| == Max(|s|, off + |t|)
    ensures forall p :: 0 <= p < |r| ==> r[p] == if off <= p < off + |t| then t[p - off] else s[p]
  {
    s[..off] + t + (if off + |t| < |s| then s[off + |t|..] else [])
  }

  /** Once the size field is raised, the file is the spliced sequence and has no hole. */
  lemma WrittenDone(store0: Disk, ino0: Inode, store: Disk, ino: Inode, off0: nat, src: seq<Byte>, tot: nat,
                    done: Inode)
    requires Written(store0, ino0, store, ino, off0, src, tot) && HoleFree(store0, ino0)
    requires done == ino.(size := Max(ino0.size, off0 + tot))
    ensures HoleFree(store, done)
    ensures Contents(store, done) == Splice(Contents(store0, ino0), off0, src[..tot])
  {
    assert Open(WRITTEN);
    assert done.Ok();
    forall n: nat | n < MAXFILE ensures Blk(store, done, n) == Blk(store, ino, n) {}
    forall p: nat | p < done.size ensures Peek(store, done, p) == Peek(store, ino, p) {}
  }

  /** The inode blocks and the other inodes have not changed, so only inode i is out of date. */
  lemma OnlyStale(sb: Super, store0: Disk, inodes0: seq<Inode>, store: Disk, inodes: seq<Inode>, i: nat)
    requires SyncedBut(sb, store0, inodes0, -1) && InodeAreaSame(sb, store0, store)
    requires i < |inodes0| == |inodes| && inodes == inodes0[i := inodes[i]]
    ensures SyncedBut(sb, store, inodes, i)
  {
    forall j: nat | j < |inodes| && j != i ensures GetInode(store[sb.IBlock(j)], j) == inodes[j] {
      assert sb.IBlock(j) < sb.bmapstart;
    }
  }

  /** From the end of the writei loop to after iupdate: the file is the spliced sequence, every
      other file is as it was, and there are no holes. */
  lemma WriteEnds(sb: Super, store0: Disk, inodes0: seq<Inode>, owner0: map<nat, Slot>, store1: Disk, ino1: Inode,
                  owner1: map<nat, Slot>,
                  store2: Disk, inodes2: seq<Inode>, i: nat, off: nat, src: seq<Byte>, tot: nat)
    requires Wf(sb, store0, inodes0, owner0, {}, {}) && AllHoleFree(store0, inodes0) && i < |inodes0|
    requires Wf(sb, store1, inodes2, owner1, {}, {}) && Grows(store0, owner0, store1, owner1, i)
    requires Written(store0, inodes0[i], store1, ino1, off, src, tot)
    requires inodes2 == inodes0[i := ino1.(size := Max(inodes0[i].size, off + tot))]
    requires Wf(sb, store2, inodes2, owner1, {}, {}) && Grows(store1, owner1, store2, owner1, -1)
    ensures AllHoleFree(store2, inodes2)
    ensures Contents(store2, inodes2[i]) == Splice(Contents(store0, inodes0[i]), off, src[..tot])
    ensures forall j: nat :: j < |inodes0| && j != i ==> Contents(store2, inodes2[j]) == Contents(store0, inodes0[j])
  {
    WrittenDone(store0, inodes0[i], store1, ino1, off, src, tot, inodes2[i]);
    ContentsStable(sb, store1, inodes2, owner1, store2, inodes2, owner1, -1, i);
    GrowsTrans(store0, owner0, store1, owner1, store2, owner1, i, -1, i);
    forall j: nat | j < |inodes0| && j != i
      ensures HoleFree(store2, inodes2[j]) && Contents(store2, inodes2[j]) == Contents(store0, inodes0[j])
    {
      ContentsStable(sb, store0, inodes0, owner0, store2, inodes2, owner1, i, j);
    }
  }

  /** Every block is in use. */
  ghost predicate DiskFull(sb: Super, store: Disk) {
    sb.Ok() && |store| == sb.size && forall c: nat :: c < sb.size ==> InUse(sb, store, c)
  }

  class Fs {
    const sb: Super
    var store: Disk
    var inodes: seq<Inode>           // the in-memory inodes
    ghost var owner: map<nat, Slot>
    ghost var logged: set<nat>       // blocks logged by the current operation
    ghost var start: Disk            // the store when the operation began

    ghost predicate Sound(extra: set<nat>, gone: set<nat>)
      reads this
    {
      Wf(sb, store, inodes, owner, extra, gone) && Traced()
    }

    /** Since the operation began only logged blocks have changed, none of them in the log area. */
    ghost predicate Traced()
      reads this`store, this`logged, this`start
    {
      |start| == |store| && forall b: nat {:trigger Open(b)} :: Open(b) && b < |store| ==>
        if b in logged then sb.inodestart <= b < sb.size else store[b] == start[b]
    }

    /** Between operations: ownership and free map agree, the inode blocks are up to date, and no
        file has a hole. */
    ghost predicate Valid()
      reads this
    {
      && Sound({}, {})
      && forall n {:trigger Open(n)} :: Open(n) ==> SyncedBut(sb, store, inodes, -1) && AllHoleFree(store, inodes)
    }

    /** The byte sequence that file i stands for. */
    ghost function File(i: nat): (s: seq<Byte>)
      requires Valid() && i < |inodes|
      reads this
      ensures |s| == inodes[i].size
    {
      assert Open(0);
      Contents(store, inodes[i])
    }

    /** The contents of all files. */
    ghost function Files(): (r: seq<seq<Byte>>)
      requires Valid()
      reads this
      ensures |r| == |inodes| && forall j :: 0 <= j < |r| ==> r[j] == File(j)
    {
      seq(|inodes|, j reads this requires Valid() && 0 <= j < |inodes| => File(j))
    }

    /** Boot: the in-memory inodes are those on disk. */
    constructor Mount(sb: Super, store: Disk, ghost owner: map<nat, Slot>)
      requires sb.Ok() && |store| == sb.size && Wf(sb, store, DiskInodes(sb, store), owner, {}, {})
      requires AllHoleFree(store, DiskInodes(sb, store))
      ensures Valid() && this.sb == sb && this.store == store && inodes == DiskInodes(sb, store)
              && this.owner == owner && logged == {}
    {
      this.sb, this.store, this.inodes, this.owner := sb, store, DiskInodes(sb, store), owner;
      logged, start := {}, store;
    }

    /** Nothing lives in memory only: mounting the current store again gives the same inodes, and
        so the same files. */
    lemma RemountSeesSame()
      requires Valid()
      ensures DiskInodes(sb, store) == inodes
      ensures forall i: nat :: i < |inodes| ==>
                DiskInodes(sb, store)[i].size <= MAXBYTES && Contents(store, DiskInodes(sb, store)[i]) == File(i)
    {
      assert Open(0);
      forall j: nat | j < |inodes| ensures DiskInodes(sb, store)[j] == inodes[j] {}
    }

    /** Edit of a held buffer followed by log_write. */
    method LogWrite(b: nat, data: Block)
      requires sb.inodestart <= b < |store| == sb.size && Traced()
      modifies this`store, this`logged
      ensures store == old(store)[b := data] && logged == old(logged) + {b} && Traced()
    {
      store := store[b := data];
      logged := logged + {b};
    }

    /** The two loops of balloc: the first block whose bit is clear, sb.size if there is none. */
    method FindFree() returns (f: nat)
      requires sb.Ok() && |store| == sb.size
      ensures f <= sb.size && (forall c: nat :: c < f ==> InUse(sb, store, c))
      ensures f < sb.size ==> !InUse(sb, store, f)
    {
      var b := 0;
      while b < sb.size
        invariant b % BPB == 0
        invariant forall c: nat :: c < b && c < sb.size ==> InUse(sb, store, c)
      {
        var bp := store[sb.BBlock(b)];
        var bi := 0;
        while bi < BPB && b + bi < sb.size
          invariant 0 <= bi <= BPB
          invariant forall c: nat :: c < b + bi && c < sb.size ==> InUse(sb, store, c)
        {
          BitOf(sb, store, b, bi);
          if !TestBit(bp[bi / 8], bi % 8) {
            return b + bi;
          }
          bi := bi + 1;
        }
        b := b + BPB;
      }
      f := sb.size;
    }

    /** balloc: the first free block, marked and zeroed; 0 when the disk is full. */
    method Balloc() returns (addr: nat)
      requires Sound({}, {})
      modifies this`store, this`logged
      ensures addr == 0 ==> store == old(store) && logged == old(logged) && DiskFull(sb, store)
      ensures addr != 0 ==>
                && sb.datastart <= addr < sb.size && addr !in owner
                && !InUse(sb, old(store), addr) && (forall c: nat :: c < addr ==> InUse(sb, old(store), c))
                && Sound({addr}, {}) && store[addr] == ZeroBlock
                && InodeAreaSame(sb, old(store), store)
                && (forall b :: b in owner ==> b < |store| && store[b] == old(store)[b])
                && logged == old(logged) + {sb.BBlock(addr), addr}
    {
      addr := FindFree();
      if addr == sb.size {
        return 0;
      }
      Take(sb, store, inodes, owner, {}, addr);
      Apart(sb, store, inodes, owner);
      LogWrite(sb.BBlock(addr), Mark(store[sb.BBlock(addr)], addr % BPB, true));
      LogWrite(addr, ZeroBlock);
      assert {} + {addr} == {addr};
    }

    /** Owned blocks are in the data area and differ from a block that is not owned. */
    static lemma Apart(sb: Super, store: Disk, inodes: seq<Inode>, owner: map<nat, Slot>)
      requires Wf(sb, store, inodes, owner, {}, {})
      ensures forall c :: c in owner ==> sb.datastart <= c < sb.size
    {
      assert Open(0);
    }

    /** bfree of a block that an inode owns: its bit was set, so the panic is out of reach. */
    method Bfree(b: nat, ghost gone: set<nat>)
      requires Sound({}, gone) && b in owner && b !in gone
      modifies this`store, this`logged
      ensures Sound({}, gone + {b}) && sb.datastart <= b < sb.size && InUse(sb, old(store), b)
      ensures InodeAreaSame(sb, old(store), store)
      ensures forall c :: sb.datastart <= c < sb.size ==> store[c] == old(store)[c]
      ensures logged == old(logged) + {sb.BBlock(b)}
    {
      Give(sb, store, inodes, owner, gone, b);
      assert sb.datastart <= b by { assert Open(0); }
      var bp, bi := store[sb.BBlock(b)], b % BPB;
      assert TestBit(bp[bi / 8], bi % 8) by { assert bi % 8 == b % 8; }
      LogWrite(sb.BBlock(b), Mark(bp, bi, false));
    }

    /** The part of bmap that makes sure ip->addrs[k] names a block. */
    method EnsureAddr(i: nat, k: nat) returns (addr: nat, ghost meta: set<nat>)
      requires Sound({}, {}) && i < |inodes| && k <= NDIRECT
      modifies this`store, this`inodes, this`owner, this`logged
      ensures Sound({}, {}) && Grows(old(store), old(owner), store, owner, -1) && InodeAreaSame(sb, old(store), store)
      ensures addr == inodes[i].addrs[k] && inodes == old(inodes)[i := inodes[i]]
      ensures inodes[i] == old(inodes[i]).(addrs := old(inodes[i]).addrs[k := addr])
      ensures old(inodes[i].addrs[k]) != 0 ==>
                addr == old(inodes[i].addrs[k]) && store == old(store) && owner == old(owner)
                  && inodes == old(inodes) && logged == old(logged)
      ensures addr == 0 ==> store == old(store) && DiskFull(sb, store)
      ensures addr != 0 && old(inodes[i].addrs[k]) == 0 ==>
              addr !in old(owner) && addr < |store| && store[addr] == ZeroBlock
      ensures InMap(sb, meta) && |meta| <= if old(inodes[i].addrs[k]) == 0 then 1 else 0
      ensures logged <= old(logged) + meta + ({addr} - {0})
    {
      addr, meta := inodes[i].addrs[k], {};
      if addr == 0 {
        addr := Balloc();
        if addr == 0 { return; }
        AttachAddr(sb, store, inodes, owner, i, k, addr);
        inodes := inodes[i := SetAddr(inodes[i], k, addr)];
        owner := owner[addr := Slot(i, k)];
        MapOne(sb, addr);
        meta := {sb.BBlock(addr)};
      }
    }

    /** The part of bmap that makes sure entry e of the indirect block names a block. */
    method EnsureEntry(i: nat, e: nat) returns (addr: nat, ghost meta: set<nat>)
      requires Sound({}, {}) && i < |inodes| && e < NINDIRECT && inodes[i].addrs[NDIRECT] != 0
      modifies this`store, this`owner, this`logged
      ensures Sound({}, {}) && Grows(old(store), old(owner), store, owner, -1) && InodeAreaSame(sb, old(store), store)
      ensures inodes[i].addrs[NDIRECT] < |store| && addr == Word(store[inodes[i].addrs[NDIRECT]], e)
      ensures var was := Word(old(store)[inodes[i].addrs[NDIRECT]], e);
              && (was != 0 ==> addr == was && store == old(store) && owner == old(owner) && logged == old(logged))
              && (addr != 0 && was == 0 ==> addr !in old(owner) && addr < |store| && store[addr] == ZeroBlock)
              && InMap(sb, meta) && |meta| <= if was == 0 then 1 else 0
      ensures addr == 0 ==> store == old(store) && DiskFull(sb, store)
      ensures logged <= old(logged) + meta + ({addr, inodes[i].addrs[NDIRECT]} - {0})
    {
      var ind := inodes[i].addrs[NDIRECT];
      IndirectOwned(sb, store, inodes, owner, i);
      var bp := store[ind];
      addr, meta := Word(bp, e), {};
      MapOne(sb, ind);
      if addr == 0 {
        addr := Balloc();
        if addr != 0 {
          LinkEntry(i, e, addr, bp);
          MapOne(sb, addr);
          meta := {sb.BBlock(addr)};
        }
      }
    }

    /** The fresh block addr becomes entry e of the indirect block, whose bytes are bp. */
    method LinkEntry(i: nat, e: nat, addr: nat, bp: Block)
      requires Sound({addr}, {}) && i < |inodes| && e < NINDIRECT && 0 < inodes[i].addrs[NDIRECT] < |store|
      requires sb.datastart <= addr < sb.size && addr !in owner && store[addr] == ZeroBlock
      requires inodes[i].addrs[NDIRECT] in owner && bp == store[inodes[i].addrs[NDIRECT]] && Word(bp, e) == 0
      modifies this`store, this`owner, this`logged
      ensures Sound({}, {}) && store == old(store)[inodes[i].addrs[NDIRECT] := PutWord(bp, e, addr)]
      ensures owner == old(owner)[addr := Slot(i, NDIRECT + 1 + e)] && Word(PutWord(bp, e, addr), e) == addr
      ensures logged == old(logged) + {inodes[i].addrs[NDIRECT]}
    {
      var ind := inodes[i].addrs[NDIRECT];
      AttachEntry(sb, store, inodes, owner, i, e, addr);
      WordOfPutWord(bp, e, e, addr);
      LogWrite(ind, PutWord(bp, e, addr));
      owner := owner[addr := Slot(i, NDIRECT + 1 + e)];
    }

    static lemma IndirectOwned(sb: Super, store: Disk, inodes: seq<Inode>, owner: map<nat, Slot>, i: nat)
      requires Wf(sb, store, inodes, owner, {}, {}) && i < |inodes| && inodes[i].addrs[NDIRECT] != 0
      ensures inodes[i].addrs[NDIRECT] in owner && owner[inodes[i].addrs[NDIRECT]] == Slot(i, NDIRECT)
      ensures sb.datastart <= inodes[i].addrs[NDIRECT] < sb.size
    {
      assert Open(0);
      assert Ref(store, inodes[i], NDIRECT) == inodes[i].addrs[NDIRECT];
    }

    /** bmap behind the direct addresses. */
    method BmapIndirect(i: nat, bn: nat) returns (addr: nat, ghost meta: set<nat>)
      requires Sound({}, {}) && i < |inodes| && NDIRECT <= bn < MAXFILE
      modifies this`store, this`inodes, this`owner, this`logged
      ensures Sound({}, {}) && Grows(old(store), old(owner), store, owner, -1) && InodeAreaSame(sb, old(store), store)
      ensures inodes == old(inodes)[i := inodes[i]] && inodes[i] == old(inodes[i]).(addrs := inodes[i].addrs)
      ensures addr == Blk(store, inodes[i], bn)
      ensures var was := Blk(old(store), old(inodes[i]), bn);
              && (was != 0 ==> addr == was && store == old(store) && owner == old(owner) && inodes == old(inodes)
                               && logged == old(logged))
              && (was == 0 && addr != 0 ==> addr !in old(owner) && addr < |store| && store[addr] == ZeroBlock)
      ensures addr == 0 ==> DiskFull(sb, store)
      ensures InMap(sb, meta) && |meta| <= (if Blk(old(store), old(inodes[i]), bn) == 0 then 1 else 0)
                        + (if old(inodes[i].addrs[NDIRECT]) == 0 && inodes[i].addrs[NDIRECT] != 0 then 1 else 0)
      ensures old(inodes[i].addrs[NDIRECT]) != 0 ==> inodes[i].addrs[NDIRECT] == old(inodes[i].addrs[NDIRECT])
      ensures logged <= old(logged) + meta + ({addr, inodes[i].addrs[NDIRECT]} - {0})
    {
      ghost var meta1, meta2;
      addr, meta1 := EnsureAddr(i, NDIRECT);
      meta := meta1;
      if addr != 0 {
        ghost var s1, o1 := store, owner;
        IndirectOwned(sb, store, inodes, owner, i);
        EntryOf(old(store), old(inodes[i]), s1, inodes[i], bn - NDIRECT);
        addr, meta2 := EnsureEntry(i, bn - NDIRECT);
        GrowsTrans(old(store), old(owner), s1, o1, store, owner, -1, -1, -1);
        MapAdd(sb, meta1, meta2);
        meta := meta1 + meta2;
      }
    }

    /** bmap: the disk block of block bn of inode i, allocating it and its indirect block on the
        way; 0 when the disk is full. Nothing that any file already had moves or changes. */
    method Bmap(i: nat, bn: nat) returns (addr: nat, ghost meta: set<nat>)
      requires Sound({}, {}) && i < |inodes| && bn < MAXFILE
      modifies this`store, this`inodes, this`owner, this`logged
      ensures Sound({}, {}) && Grows(old(store), old(owner), store, owner, -1) && InodeAreaSame(sb, old(store), store)
      ensures inodes == old(inodes)[i := inodes[i]] && inodes[i] == old(inodes[i]).(addrs := inodes[i].addrs)
      ensures addr == Blk(store, inodes[i], bn)
      ensures var was := Blk(old(store), old(inodes[i]), bn);
              && (was != 0 ==> addr == was && store == old(store) && owner == old(owner) && inodes == old(inodes)
                               && logged == old(logged))
              && (was == 0 && addr != 0 ==> addr !in old(owner) && addr < |store| && store[addr] == ZeroBlock)
      ensures addr == 0 ==> DiskFull(sb, store)
      ensures InMap(sb, meta) && |meta| <= (if Blk(old(store), old(inodes[i]), bn) == 0 then 1 else 0)
                        + (if old(inodes[i].addrs[NDIRECT]) == 0 && inodes[i].addrs[NDIRECT] != 0 then 1 else 0)
      ensures old(inodes[i].addrs[NDIRECT]) != 0 ==> inodes[i].addrs[NDIRECT] == old(inodes[i].addrs[NDIRECT])
      ensures logged <= old(logged) + meta + ({addr, inodes[i].addrs[NDIRECT]} - {0})
    {
      if bn < NDIRECT {
        addr, meta := EnsureAddr(i, bn);
      } else {
        addr, meta := BmapIndirect(i, bn);
      }
    }

    /** A fresh indirect block has no entries, an old one has the entries it had. */
    static lemma EntryOf(store: Disk, ino: Inode, store': Disk, ino': Inode, e: nat)
      requires ino.Ok() && ino'.Ok() && e < NINDIRECT && 0 < ino'.addrs[NDIRECT] < |store'|
      requires if ino.addrs[NDIRECT] != 0 then store' == store && ino' == ino
               else store'[ino'.addrs[NDIRECT]] == ZeroBlock
      ensures Word(store'[ino'.addrs[NDIRECT]], e) == Blk(store, ino, NDIRECT + e)
    {
      ZeroWords(e);
    }

    /** iupdate: the fields of ip go to its slot in the inode block, word by word. */
    method Iupdate(i: nat)
      requires Sound({}, {}) && i < |inodes|
      modifies this`store, this`logged
      ensures Sound({}, {}) && sb.IBlock(i) < sb.bmapstart
      ensures store == old(store)[sb.IBlock(i) := PutInode(old(store)[sb.IBlock(i)], i, inodes[i])]
      ensures Grows(old(store), owner, store, owner, -1)
      ensures logged == old(logged) + {sb.IBlock(i)}
    {
      InodeBlock(sb, i);
      var bp, ws, k := store[sb.IBlock(i)], inodes[i].Words(), 0;
      while k < INODE_WORDS
        invariant 0 <= k <= INODE_WORDS && bp == PutWords(store[sb.IBlock(i)], Offset(i), ws, k)
      {
        bp := PutWord(bp, Offset(i) + k, ws[k]);
        k := k + 1;
      }
      Scribble(sb, store, inodes, owner, {}, {}, sb.IBlock(i), bp);
      Apart(sb, store, inodes, owner);
      LogWrite(sb.IBlock(i), bp);
    }

    static lemma InodeBlock(sb: Super, i: nat)
      requires sb.Ok() && i < sb.ninodes
      ensures sb.IBlock(i) < sb.bmapstart < sb.size
    {
    }

    /** Block bn of file i is not there, and there is no free block for it. */
    ghost predicate Stuck(i: nat, bn: nat)
      reads this
    {
      StuckAt(sb, store, inodes, i, bn)
    }

    static ghost predicate StuckAt(sb: Super, store: Disk, inodes: seq<Inode>, i: nat, bn: nat) {
      i < |inodes| && inodes[i].Ok() && bn < MAXFILE && Blk(store, inodes[i], bn) == 0 && DiskFull(sb, store)
    }

    /** One turn of the writei loop: map block bn, copy bytes to offset o of it, log it. */
    method WriteBlock(i: nat, bn: nat, o: nat, bytes: seq<Byte>, copies: bool)
      returns (turn: Turn, ghost addr: nat, ghost meta: set<nat>)
      requires Sound({}, {}) && i < |inodes| && bn < MAXFILE && o + |bytes| <= BSIZE
      modifies this`store, this`inodes, this`owner, this`logged
      ensures Sound({}, {}) && Grows(old(store), old(owner), store, owner, i) && InodeAreaSame(sb, old(store), store)
      ensures inodes == old(inodes)[i := inodes[i]] && inodes[i] == old(inodes[i]).(addrs := inodes[i].addrs)
      ensures Patched(old(store), old(inodes[i]), store, inodes[i], bn, o, if turn.Done? then bytes else [])
      ensures turn.Done? ==> Landed(store, inodes[i], bn, o, bytes)
      ensures turn.Full? ==> Stuck(i, bn)
      ensures turn.Fault? ==> !copies
      ensures turn.Done? ==> copies
      ensures InMap(sb, meta) && |meta| <= (if Blk(old(store), old(inodes[i]), bn) == 0 then 1 else 0)
                        + (if old(inodes[i].addrs[NDIRECT]) == 0 && inodes[i].addrs[NDIRECT] != 0 then 1 else 0)
      ensures old(inodes[i].addrs[NDIRECT]) != 0 ==> inodes[i].addrs[NDIRECT] == old(inodes[i].addrs[NDIRECT])
      ensures logged <= old(logged) + meta + ({addr, inodes[i].addrs[NDIRECT]} - {0})
    {
      var a;
      a, meta := Bmap(i, bn);
      addr := a;
      MappedStays(sb, old(store), old(inodes), old(owner), store, inodes, owner, i, bn, o);
      if a == 0 { return Full, addr, meta; }
      if !copies { return Fault, addr, meta; }
      ghost var s1, o1 := store, owner;
      BlkOwned(sb, store, inodes, owner, i, bn);
      var data: Block := Patch(store[a], o, bytes);
      Scribble(sb, store, inodes, owner, {}, {}, a, data);
      OverlayPatches(sb, old(store), old(inodes[i]), s1, inodes, owner, i, bn, o, bytes);
      LogWrite(a, data);
      assert Grows(s1, o1, store, owner, i);
      GrowsTrans(old(store), old(owner), s1, o1, store, owner, -1, i, i);
      turn := Done;
    }

    /** bmap patches nothing. */
    static lemma MappedStays(sb: Super, store: Disk, inodes: seq<Inode>, owner: map<nat, Slot>,
                             store': Disk, inodes': seq<Inode>, owner': map<nat, Slot>, i: nat, bn: nat, o: nat)
      requires Wf(sb, store, inodes, owner, {}, {}) && Wf(sb, store', inodes', owner', {}, {})
      requires Grows(store, owner, store', owner', -1) && i < |inodes|
      ensures Patched(store, inodes[i], store', inodes'[i], bn, o, [])
      ensures Grows(store, owner, store', owner', i)
    {
      forall n: nat | n < MAXFILE && Blk(store, inodes[i], n) != 0
        ensures Blk(store', inodes'[i], n) == Blk(store, inodes[i], n) {
        BlkStable(sb, store, inodes, owner, store', inodes', owner', -1, i, n);
      }
      forall p: nat | p < MAXBYTES && Blk(store, inodes[i], p / BSIZE) != 0
        ensures Peek(store', inodes'[i], p) == Peek(store, inodes[i], p)
      {
        PeekStable(sb, store, inodes, owner, store', inodes', owner', -1, i, p);
      }
    }

    /** Then the copy patches exactly its bytes. */
    static lemma OverlayPatches(sb: Super, store: Disk, ino: Inode, s1: Disk, inodes: seq<Inode>, owner: map<nat, Slot>,
                                i: nat, bn: nat, o: nat, bytes: seq<Byte>)
      requires Wf(sb, s1, inodes, owner, {}, {}) && i < |inodes| && bn < MAXFILE && o + |bytes| <= BSIZE
      requires 0 < Blk(s1, inodes[i], bn) < |s1| && Patched(store, ino, s1, inodes[i], bn, o, [])
      ensures var s2 := s1[Blk(s1, inodes[i], bn) := Patch(s1[Blk(s1, inodes[i], bn)], o, bytes)];
              Patched(store, ino, s2, inodes[i], bn, o, bytes) && Landed(s2, inodes[i], bn, o, bytes)
    {
      assert Open(PATCHED);
      var data: Block := Patch(s1[Blk(s1, inodes[i], bn)], o, bytes);
      var s2 := s1[Blk(s1, inodes[i], bn) := data];
      forall p: nat | p < MAXBYTES
        ensures Blk(s2, inodes[i], p / BSIZE) == Blk(s1, inodes[i], p / BSIZE)
        ensures Peek(s2, inodes[i], p) == if p / BSIZE == bn then data[p % BSIZE] else Peek(s1, inodes[i], p)
      {
        PeekWrite(sb, s1, inodes, owner, i, bn, data, p);
      }
      forall n: nat | n < MAXFILE ensures Blk(s2, inodes[i], n) == Blk(s1, inodes[i], n) {
        assert n * BSIZE / BSIZE == n && n * BSIZE < MAXBYTES;
        PeekWrite(sb, s1, inodes, owner, i, bn, data, n * BSIZE);
      }
      forall p: nat | p < MAXBYTES && Blk(store, ino, p / BSIZE) != 0
        ensures Peek(s2, inodes[i], p) == if p / BSIZE == bn && o <= p % BSIZE < o + |bytes| then bytes[p % BSIZE - o]
                                          else Peek(store, ino, p)
      {
        assert Peek(s1, inodes[i], p) == Peek(store, ino, p);
      }
    }

    /** One block of the indirect kind is new since ino. */
    static function NewIndirect(ino: Inode, ino': Inode): nat
      requires ino.Ok() && ino'.Ok()
    {
      if ino.addrs[NDIRECT] == 0 && ino'.addrs[NDIRECT] != 0 then 1 else 0
    }

    /** What the writei loop has done since store0, owner0 and ino0, having written tot bytes. */
    ghost predicate Writing(i: nat, src: seq<Byte>, off0: nat, tot: nat, store0: Disk, owner0: map<nat, Slot>,
                            ino0: Inode)
      reads this
    {
      && Sound({}, {}) && i < |inodes|
      && Grows(store0, owner0, store, owner, i) && InodeAreaSame(sb, store0, store)
      && Written(store0, ino0, store, inodes[i], off0, src, tot)
      && (ino0.addrs[NDIRECT] != 0 ==> inodes[i].addrs[NDIRECT] == ino0.addrs[NDIRECT])
    }

    /** One turn of the writei loop, seen from its start. */
    method WriteTurn(i: nat, src: seq<Byte>, off0: nat, tot: nat, m: nat, copies: bool,
                     ghost store0: Disk, ghost owner0: map<nat, Slot>, ghost ino0: Inode)
      returns (turn: Turn, ghost addr: nat, ghost meta: set<nat>)
      requires Writing(i, src, off0, tot, store0, owner0, ino0)
      requires tot < |src| && off0 + |src| <= MAXBYTES && m == Min(|src| - tot, BSIZE - (off0 + tot) % BSIZE)
      modifies this`store, this`inodes, this`owner, this`logged
      ensures Writing(i, src, off0, if turn.Done? then tot + m else tot, store0, owner0, ino0)
      ensures inodes == old(inodes)[i := inodes[i]]
      ensures turn.Full? ==> Stuck(i, (off0 + tot) / BSIZE)
      ensures turn.Fault? ==> !copies
      ensures turn.Done? ==> copies
      ensures InMap(sb, meta)
      ensures |meta| <= (if (off0 + tot) % BSIZE != 0 && tot == 0 then 0 else 1)
                        + NewIndirect(old(inodes[i]), inodes[i])
      ensures logged <= old(logged) + meta + ({addr, inodes[i].addrs[NDIRECT]} - {0})
      ensures NewIndirect(ino0, inodes[i]) == NewIndirect(ino0, old(inodes[i])) + NewIndirect(old(inodes[i]), inodes[i])
      ensures old(inodes[i].addrs[NDIRECT]) != 0 ==> inodes[i].addrs[NDIRECT] == old(inodes[i].addrs[NDIRECT])
    {
      var off := off0 + tot;
      if tot == 0 && off % BSIZE != 0 {
        FirstMapped(store0, ino0, store, inodes[i], off0, src);
      }
      turn, addr, meta := WriteBlock(i, off / BSIZE, off % BSIZE, src[tot..tot + m], copies);
      GrowsTrans(store0, owner0, old(store), old(owner), store, owner, i, i, i);
      if turn.Done? {
        WrittenMore(store0, ino0, old(store), old(inodes[i]), store, inodes[i], off0, src, tot, m);
      } else {
        assert src[tot..tot + 0] == [];
        WrittenMore(store0, ino0, old(store), old(inodes[i]), store, inodes[i], off0, src, tot, 0);
      }
    }

    /** The accounts of the writei loop: which blocks its visits may have logged so far. */
    ghost predicate Charged(i: nat, off0: nat, visits: nat, data: set<nat>, bitmap: set<nat>, ino0: Inode,
                            logged0: set<nat>)
      requires i < |inodes| && inodes[i].Ok() && ino0.Ok()
      reads this
    {
      && Spent(off0, visits, NewIndirect(ino0, inodes[i]), logged - logged0, data, bitmap, inodes[i].addrs[NDIRECT])
      && 0 !in logged - logged0 && InMap(sb, bitmap)
    }

    /** The visits that writing tot of n bytes from off0 on takes. */
    static ghost predicate Visits(off0: nat, n: nat, tot: nat, visits: nat) {
      forall k {:trigger Open(k)} :: Open(k) && k == VISITS ==>
        && visits <= Span(off0, n) && (visits == 0 ==> tot == 0)
        && (tot < n ==> visits == (off0 + tot) / BSIZE - off0 / BSIZE && (visits == 0 || (off0 + tot) % BSIZE == 0))
    }

    static lemma NextVisit(off0: nat, n: nat, tot: nat, m: nat, visits: nat)
      requires tot < n && m == Min(n - tot, BSIZE - (off0 + tot) % BSIZE) && Visits(off0, n, tot, visits)
      ensures m > 0 && Visits(off0, n, tot + m, visits + 1)
    {
      assert Open(VISITS);
      SpanStep(off0, tot, n, m);
    }

    /** The bound that the visits give for what has been logged. */
    static lemma LoggedAtMost(off0: nat, n: nat, tot: nat, visits: nat, inds: nat, logged: set<nat>, data: set<nat>,
                              bitmap: set<nat>, ind: nat)
      requires Visits(off0, n, tot, visits) && Spent(off0, visits, inds, logged, data, bitmap, ind) && inds <= 1
      ensures |logged| <= 2 * Span(off0, n) + 2 - (if off0 % BSIZE != 0 && n > 0 then 1 else 0)
      ensures |logged| <= Span(off0, n) + |bitmap| + 1
    {
      assert Open(VISITS);
      SpentTotal(off0, visits, inds, logged, data, bitmap, ind);
    }

    /** The state of the writei loop since store0, owner0 and inodes0. */
    ghost predicate Looping(i: nat, src: seq<Byte>, off0: nat, tot: nat, visits: nat, data: set<nat>, bitmap: set<nat>,
                            store0: Disk, owner0: map<nat, Slot>, inodes0: seq<Inode>, logged0: set<nat>)
      reads this
    {
      forall k {:trigger Open(k)} :: Open(k) && k == LOOPING ==>
        && i < |inodes0| && Writing(i, src, off0, tot, store0, owner0, inodes0[i]) && inodes == inodes0[i := inodes[i]]
        && Charged(i, off0, visits, data, bitmap, inodes0[i], logged0)
    }

    /** What the loop has achieved when it stops. */
    lemma LoopDone(i: nat, src: seq<Byte>, off0: nat, tot: nat, seen: nat, visits: nat, data: set<nat>,
                   bitmap: set<nat>,
                   store0: Disk, owner0: map<nat, Slot>, inodes0: seq<Inode>, logged0: set<nat>)
      requires Looping(i, src, off0, tot, visits, data, bitmap, store0, owner0, inodes0, logged0)
               && Visits(off0, |src|, seen, visits)
      ensures i < |inodes0| && Writing(i, src, off0, tot, store0, owner0, inodes0[i])
              && inodes == inodes0[i := inodes[i]]
      ensures |logged - logged0| <= 2 * Span(off0, |src|) + 2 - (if off0 % BSIZE != 0 && |src| > 0 then 1 else 0)
      ensures |logged - logged0| <= Span(off0, |src|) + sb.size / BPB + 2
    {
      assert Open(LOOPING);
      LoggedAtMost(off0, |src|, seen, visits, NewIndirect(inodes0[i], inodes[i]), logged - logged0, data, bitmap,
                   inodes[i].addrs[NDIRECT]);
      MapCount(sb, bitmap);
    }

    /** One turn of the writei loop with its account. */
    method WriteStep(i: nat, src: seq<Byte>, off0: nat, tot: nat, m: nat, copies: bool,
                     ghost visits: nat, ghost data: set<nat>, ghost bitmap: set<nat>,
                     ghost store0: Disk, ghost owner0: map<nat, Slot>, ghost inodes0: seq<Inode>,
                     ghost logged0: set<nat>)
      returns (turn: Turn, next: nat, ghost data': set<nat>, ghost bitmap': set<nat>)
      requires Looping(i, src, off0, tot, visits, data, bitmap, store0, owner0, inodes0, logged0)
      requires tot < |src| && off0 + |src| <= MAXBYTES && m == Min(|src| - tot, BSIZE - (off0 + tot) % BSIZE)
      requires Visits(off0, |src|, tot, visits)
      modifies this`store, this`inodes, this`owner, this`logged
      ensures next == (if turn.Done? then tot + m else tot)
      ensures Looping(i, src, off0, next, visits + 1, data', bitmap', store0, owner0, inodes0, logged0)
      ensures turn.Full? ==> Stuck(i, (off0 + tot) / BSIZE)
      ensures turn.Fault? ==> !copies
      ensures turn.Done? ==> copies
    {
      assert if visits == 0 then tot == 0 else (off0 + tot) % BSIZE == 0 by { assert Open(VISITS); }
      assert Open(LOOPING);
      ghost var addr, meta;
      turn, addr, meta := WriteTurn(i, src, off0, tot, m, copies, store0, owner0, inodes0[i]);
      MapNotZero(sb, meta);
      MapAdd(sb, bitmap, meta);
      SpentMore(off0, visits, NewIndirect(inodes0[i], old(inodes[i])), old(logged) - logged0, data, bitmap,
                old(inodes[i]).addrs[NDIRECT],
                NewIndirect(inodes0[i], inodes[i]), logged - logged0, meta, addr, inodes[i].addrs[NDIRECT]);
      data', bitmap' := data + {addr}, bitmap + meta;
      next := if turn.Done? then tot + m else tot;
    }

    lemma LoopStart(i: nat, src: seq<Byte>, off0: nat)
      requires Sound({}, {}) && i < |inodes| && HoleFree(store, inodes[i])
      requires off0 <= inodes[i].size && off0 + |src| <= MAXBYTES
      ensures Looping(i, src, off0, 0, 0, {}, {}, store, owner, inodes, logged)
    {
      WrittenStart(store, inodes[i], off0, src);
    }

    /** The loop of writei: tot bytes are written, fewer than asked for only if the disk is full or
        a copy from the user failed. */
    method WriteLoop(i: nat, src: seq<Byte>, off0: nat, copies: (nat, nat) -> bool)
      returns (tot: nat, ghost seen: nat, ghost visits: nat, ghost data: set<nat>, ghost bitmap: set<nat>)
      requires Sound({}, {}) && i < |inodes| && HoleFree(store, inodes[i])
      requires off0 <= inodes[i].size && off0 + |src| <= MAXBYTES
      modifies this`store, this`inodes, this`owner, this`logged
      ensures Looping(i, src, off0, tot, visits, data, bitmap, old(store), old(owner), old(inodes), old(logged))
              && Visits(off0, |src|, seen, visits)
      ensures tot <= |src| && Pieces(copies, off0, |src|, tot)
      ensures tot < |src| ==> Stuck(i, (off0 + tot) / BSIZE) || CopyFails(copies, off0, |src|, tot)
    {
      LoopStart(i, src, off0);
      tot, seen, visits, data, bitmap := 0, 0, 0, {}, {};
      while tot < |src|
        invariant tot == seen <= |src| && Visits(off0, |src|, tot, visits) && Pieces(copies, off0, |src|, tot)
        invariant Looping(i, src, off0, tot, visits, data, bitmap, old(store), old(owner), old(inodes), old(logged))
      {
        var m := Min(|src| - tot, BSIZE - (off0 + tot) % BSIZE);
        var turn, next;
        turn, next, data, bitmap := WriteStep(i, src, off0, tot, m, copies(tot, m), visits, data, bitmap, old(store),
                                              old(owner), old(inodes), old(logged));
        NextVisit(off0, |src|, tot, m, visits);
        seen, visits := tot + m, visits + 1;
        if !turn.Done? {
          if turn.Fault? { PieceFails(copies, off0, |src|, tot); }
          break;
        }
        NextPiece(copies, off0, |src|, tot);
        tot := next;
      }
    }

    static lemma SpanStep(off0: nat, tot: nat, n: nat, m: nat)
      requires tot < n && m == Min(n - tot, BSIZE - (off0 + tot) % BSIZE)
      ensures m > 0
      ensures (off0 + tot) / BSIZE - off0 / BSIZE + 1 <= Span(off0, n)
      ensures tot + m < n ==> (off0 + tot + m) % BSIZE == 0 && (off0 + tot + m) / BSIZE == (off0 + tot) / BSIZE + 1
    {
    }

    /** The end of writei: raise the size, write the inode back. */
    method FinishWrite(i: nat, src: seq<Byte>, off0: nat, tot: nat, ghost store0: Disk, ghost inodes0: seq<Inode>,
                       ghost owner0: map<nat, Slot>)
      requires Wf(sb, store0, inodes0, owner0, {}, {}) && AllHoleFree(store0, inodes0)
               && SyncedBut(sb, store0, inodes0, -1)
      requires i < |inodes0| == |inodes| && inodes == inodes0[i := inodes[i]]
      requires Writing(i, src, off0, tot, store0, owner0, inodes0[i])
      modifies this`store, this`inodes, this`logged
      ensures Valid() && inodes == inodes0[i := inodes[i]]
      ensures inodes[i] == old(inodes[i]).(size := Max(inodes0[i].size, off0 + tot))
      ensures AllHoleFree(store0, inodes0) && File(i) == Splice(Contents(store0, inodes0[i]), off0, src[..tot])
      ensures forall j: nat :: j < |inodes| && j != i ==> File(j) == Contents(store0, inodes0[j])
      ensures sb.IBlock(i) < sb.bmapstart && store == old(store)[sb.IBlock(i) := store[sb.IBlock(i)]]
      ensures logged == old(logged) + {sb.IBlock(i)}
    {
      var off := off0 + tot;
      Resize(sb, store, inodes, owner, i, Max(inodes[i].size, off));
      if off > inodes[i].size {
        inodes := inodes[i := inodes[i].(size := off)];
      }
      assert inodes == old(inodes)[i := old(inodes[i]).(size := Max(inodes0[i].size, off0 + tot))];
      ghost var s1 := store;
      OnlyStale(sb, store0, inodes0, s1, inodes, i);
      Sync(sb, s1, inodes, i);
      Iupdate(i);
      WriteEnds(sb, store0, inodes0, owner0, s1, old(inodes[i]), owner, store, inodes, i, off0, src, tot);
    }

    /** Writing the inode back frees no block and maps none. */
    static lemma StillStuck(sb: Super, store: Disk, inodes: seq<Inode>, owner: map<nat, Slot>, store': Disk,
                            inodes': seq<Inode>, i: nat)
      requires Wf(sb, store, inodes, owner, {}, {}) && i < |inodes| == |inodes'| && inodes'[i].Ok()
      requires inodes'[i].addrs == inodes[i].addrs && sb.IBlock(i) < sb.bmapstart && |store'| == |store|
      requires store' == store[sb.IBlock(i) := store'[sb.IBlock(i)]]
      ensures forall bn :: StuckAt(sb, store, inodes, i, bn) ==> StuckAt(sb, store', inodes', i, bn)
    {
      if inodes[i].addrs[NDIRECT] != 0 { IndirectOwned(sb, store, inodes, owner, i); }
      forall c: nat | c < sb.size ensures InUse(sb, store', c) == InUse(sb, store, c) {
        assert sb.bmapstart <= sb.BBlock(c) < sb.datastart;
      }
    }

    /** The end of writei, after its loop. */
    method EndWrite(i: nat, src: seq<Byte>, off0: nat, tot: nat, ghost seen: nat, ghost visits: nat,
                    ghost data: set<nat>, ghost bitmap: set<nat>,
                    ghost store0: Disk, ghost inodes0: seq<Inode>, ghost owner0: map<nat, Slot>,
                    ghost logged0: set<nat>)
      requires Wf(sb, store0, inodes0, owner0, {}, {}) && AllHoleFree(store0, inodes0)
               && SyncedBut(sb, store0, inodes0, -1)
      requires Looping(i, src, off0, tot, visits, data, bitmap, store0, owner0, inodes0, logged0)
               && Visits(off0, |src|, seen, visits) && i < |inodes0|
      requires tot <= |src| && off0 <= inodes0[i].size <= MAXBYTES
      modifies this`store, this`inodes, this`logged
      ensures Valid() && inodes == inodes0[i := inodes[i]] && |inodes| == |inodes0|
      ensures inodes[i] == inodes0[i].(addrs := inodes[i].addrs, size := Max(inodes0[i].size, off0 + tot))
      ensures File(i) == Splice(Contents(store0, inodes0[i]), off0, src[..tot])
      ensures forall j: nat :: j < |inodes| && j != i ==>
              inodes0[j].size <= MAXBYTES && File(j) == Contents(store0, inodes0[j])
      ensures forall bn :: old(Stuck(i, bn)) ==> Stuck(i, bn)
      ensures |logged - logged0| <= 2 * Span(off0, |src|) + 3 - (if off0 % BSIZE != 0 && |src| > 0 then 1 else 0)
      ensures |logged - logged0| <= Span(off0, |src|) + sb.size / BPB + 3
    {
      LoopDone(i, src, off0, tot, seen, visits, data, bitmap, store0, owner0, inodes0, logged0);
      FinishWrite(i, src, off0, tot, store0, inodes0, owner0);
      StillStuck(sb, old(store), old(inodes), owner, store, inodes, i);
      SubsetCount(logged - logged0, (old(logged) - logged0) + {sb.IBlock(i)});
    }

    /** writei: -1 and nothing changed if the range is refused; otherwise the first r bytes of src
        are spliced into the file, and r falls short only when the disk is full or the copy from
        the user failed. The size bound on what is logged is the reservation of one operation. */
    method Writei(i: nat, src: seq<Byte>, off: nat, copies: (nat, nat) -> bool) returns (r: int)
      requires Valid() && i < |inodes| && off < UINT && |src| < UINT
      modifies this
      ensures Valid() && |inodes| == old(|inodes|) && start == old(start)
      ensures r == -1 <==> off > old(inodes[i].size) || off + |src| >= UINT || off + |src| > MAXBYTES
      ensures r == -1 ==> store == old(store) && inodes == old(inodes) && owner == old(owner) && logged == old(logged)
      ensures r != -1 ==>
                && 0 <= r <= |src| && File(i) == Splice(old(File(i)), off, src[..r])
                && inodes == old(inodes)[i := inodes[i]]
                && inodes[i] == old(inodes[i]).(addrs := inodes[i].addrs, size := Max(old(inodes[i].size), off + r))
      ensures forall j: nat :: j < |inodes| && j != i ==> File(j) == old(File(j))
      ensures r != -1 ==> forall t :: CopyFails(copies, off, |src|, t) ==> t >= r
      ensures 0 <= r < |src| ==> Stuck(i, (off + r) / BSIZE) || CopyFails(copies, off, |src|, r)
      ensures |logged - old(logged)| <= 2 * Span(off, |src|) + 3 - (if off % BSIZE != 0 && |src| > 0 then 1 else 0)
      ensures |logged - old(logged)| <= Span(off, |src|) + sb.size / BPB + 3
    {
      if off > inodes[i].size || (off + |src|) % UINT < off {
        return -1;
      }
      if off + |src| > MAXBYTES {
        return -1;
      }
      assert AllHoleFree(store, inodes) && SyncedBut(sb, store, inodes, -1) by { assert Open(0); }
      var tot;
      ghost var seen, visits, data, bitmap;
      tot, seen, visits, data, bitmap := WriteLoop(i, src, off, copies);
      EndWrite(i, src, off, tot, seen, visits, data, bitmap, old(store), old(inodes), old(owner), old(logged));
      assert forall t :: CopyFails(copies, off, |src|, t) ==> t >= tot by { assert Open(PIECES); }
      r := tot;
    }

    /** One turn of the readi loop: the block is there, and m bytes from its offset o are the
        file's bytes. */
    static lemma ReadTurn(sb: Super, store: Disk, inodes: seq<Inode>, owner: map<nat, Slot>, i: nat, off: nat, m: nat)
      requires Wf(sb, store, inodes, owner, {}, {}) && i < |inodes| && HoleFree(store, inodes[i])
      requires 0 < m <= BSIZE - off % BSIZE && off + m <= inodes[i].size
      ensures off / BSIZE < MAXFILE
      ensures var b := Blk(store, inodes[i], off / BSIZE);
              0 < b < |store| && store[b][off % BSIZE..off % BSIZE + m] == Contents(store, inodes[i])[off..off + m]
    {
      BlkOwned(sb, store, inodes, owner, i, off / BSIZE);
      var b := Blk(store, inodes[i], off / BSIZE);
      var got, want := store[b][off % BSIZE..off % BSIZE + m], Contents(store, inodes[i])[off..off + m];
      forall q | 0 <= q < m ensures got[q] == want[q] {
        assert (off + q) / BSIZE == off / BSIZE && (off + q) % BSIZE == off % BSIZE + q;
      }
    }

    /** bmap in the readi loop: the block is there, so nothing is allocated, and it holds the bytes
        of the file. */
    method MapPiece(i: nat, at: nat, m: nat) returns (addr: nat)
      requires Sound({}, {}) && i < |inodes| && HoleFree(store, inodes[i])
      requires 0 < m <= BSIZE - at % BSIZE && at + m <= inodes[i].size
      modifies this`store, this`inodes, this`owner, this`logged
      ensures store == old(store) && inodes == old(inodes) && owner == old(owner) && logged == old(logged)
      ensures 0 < addr < |store| && store[addr][at % BSIZE..at % BSIZE + m] == Contents(store, inodes[i])[at..at + m]
    {
      ReadTurn(sb, store, inodes, owner, i, at, m);
      ghost var meta;
      addr, meta := Bmap(i, at / BSIZE);
    }

    /** The copy of the piece at position t, one of those that a loop over k bytes from off makes,
        fails. */
    static ghost predicate CopyFails(copies: (nat, nat) -> bool, off: nat, k: int, t: int) {
      0 <= t < k && (t == 0 || (off + t) % BSIZE == 0) && !copies(t, Min(k - t, BSIZE - (off + t) % BSIZE))
    }

    /** The first tot bytes have been copied in whole pieces, none of which failed. */
    static ghost predicate Pieces(copies: (nat, nat) -> bool, off: nat, k: nat, tot: nat) {
      forall n {:trigger Open(n)} :: Open(n) && n == PIECES ==>
        && (tot == 0 || tot == k || (off + tot) % BSIZE == 0)
        && (forall t :: CopyFails(copies, off, k, t) ==> t >= tot)
    }

    static lemma PieceFails(copies: (nat, nat) -> bool, off: nat, k: nat, tot: nat)
      requires tot < k && Pieces(copies, off, k, tot) && !copies(tot, Min(k - tot, BSIZE - (off + tot) % BSIZE))
      ensures CopyFails(copies, off, k, tot)
    {
      assert Open(PIECES);
    }

    static lemma NextPiece(copies: (nat, nat) -> bool, off: nat, k: nat, tot: nat)
      requires tot < k && Pieces(copies, off, k, tot) && copies(tot, Min(k - tot, BSIZE - (off + tot) % BSIZE))
      ensures Pieces(copies, off, k, tot + Min(k - tot, BSIZE - (off + tot) % BSIZE))
    {
      assert Open(PIECES);
      var m := Min(k - tot, BSIZE - (off + tot) % BSIZE);
      forall t | tot <= t < tot + m ensures !CopyFails(copies, off, k, t) {
        assert (off + t) % BSIZE == (off + tot) % BSIZE + (t - tot);
      }
    }

    /** The loop of readi over n bytes of the file. */
    method ReadLoop(i: nat, off: nat, n: nat, copies: (nat, nat) -> bool) returns (tot: int, out: seq<Byte>)
      requires Sound({}, {}) && i < |inodes| && HoleFree(store, inodes[i]) && off + n <= inodes[i].size
      modifies this`store, this`inodes, this`owner, this`logged
      ensures store == old(store) && inodes == old(inodes) && owner == old(owner) && logged == old(logged)
      ensures tot != -1 ==> tot == n && out == Contents(store, inodes[i])[off..off + n]
      ensures tot == -1 <==> exists t :: CopyFails(copies, off, n, t)
    {
      ghost var file := Contents(store, inodes[i]);
      tot, out := 0, [];
      while tot < n
        invariant 0 <= tot <= n && store == old(store) && inodes == old(inodes) && owner == old(owner)
                  && logged == old(logged)
        invariant out == file[off..off + tot] && Pieces(copies, off, n, tot)
      {
        var at := off + tot;
        var m := Min(n - tot, BSIZE - at % BSIZE);
        var addr := MapPiece(i, at, m);
        if addr == 0 { break; }
        if !copies(tot, m) {
          PieceFails(copies, off, n, tot);
          return -1, out;
        }
        NextPiece(copies, off, n, tot);
        assert file[off..at] + file[at..at + m] == file[off..at + m];
        out := out + store[addr][at % BSIZE..at % BSIZE + m];
        tot := tot + m;
      }
      assert forall t :: !CopyFails(copies, off, n, t) by { assert Open(PIECES); }
    }

    /** readi: the bytes of the file from off on, as many as asked for and available; 0 when off is
        past the end or off + n overflows, -1 when a copy to the user failed. Nothing changes. */
    method Readi(i: nat, off: nat, n: nat, copies: (nat, nat) -> bool) returns (tot: int, out: seq<Byte>)
      requires Valid() && i < |inodes| && off < UINT && n < UINT
      modifies this
      ensures Valid() && store == old(store) && inodes == old(inodes) && owner == old(owner)
              && logged == old(logged) && start == old(start)
      ensures var k := if off > inodes[i].size || off + n >= UINT then 0 else Min(n, inodes[i].size - off);
              && (k == 0 || off + k <= |File(i)|)
              && (tot != -1 ==> tot == k && out == if k == 0 then [] else File(i)[off..off + k])
              && (tot == -1 <==> exists t :: CopyFails(copies, off, k, t))
    {
      if off > inodes[i].size || (off + n) % UINT < off {
        return 0, [];
      }
      assert HoleFree(store, inodes[i]) by { assert Open(0); }
      tot, out := ReadLoop(i, off, Min(n, inodes[i].size - off), copies);
    }

    /** Blocks of the data area and of the inode area are as in store0. */
    ghost predicate OnlyMapChanged(store0: Disk)
      reads this
    {
      && |store| == |store0| == sb.size && InodeAreaSame(sb, store0, store)
      && forall c :: sb.datastart <= c < sb.size ==> store[c] == store0[c]
    }

    /** First loop of itrunc: give back the direct blocks. */
    method FreeDirect(i: nat)
      requires Sound({}, {}) && i < |inodes|
      modifies this`store, this`inodes, this`owner, this`logged
      ensures Sound({}, {}) && OnlyMapChanged(old(store))
      ensures inodes == old(inodes)[i := inodes[i]] && inodes[i] == old(inodes[i]).(addrs := inodes[i].addrs)
      ensures forall k :: 0 <= k < NDIRECT ==> inodes[i].addrs[k] == 0
      ensures inodes[i].addrs[NDIRECT] == old(inodes[i].addrs[NDIRECT])
      ensures owner == old(owner) - BlocksOf(old(owner), i, 0, NDIRECT)
    {
      var k := 0;
      while k < NDIRECT
        invariant 0 <= k <= NDIRECT && Sound({}, {}) && OnlyMapChanged(old(store))
        invariant inodes == old(inodes)[i := inodes[i]] && inodes[i] == old(inodes[i]).(addrs := inodes[i].addrs)
        invariant forall j :: 0 <= j < k ==> inodes[i].addrs[j] == 0
        invariant forall j :: k <= j <= NDIRECT ==> inodes[i].addrs[j] == old(inodes[i].addrs[j])
        invariant owner == old(owner) - BlocksOf(old(owner), i, 0, k)
      {
        var b := inodes[i].addrs[k];
        NextBlock(sb, store, inodes, owner, {}, {}, i, 0, k);
        NextBlock(sb, old(store), old(inodes), old(owner), {}, {}, i, 0, k);
        if b != 0 {
          Bfree(b, {});
          assert {} + {b} == {b};
          DetachDirect(sb, store, inodes, owner, i, k);
          inodes := inodes[i := SetAddr(inodes[i], k, 0)];
          owner := owner - {b};
        }
        k := k + 1;
      }
    }

    /** Second loop of itrunc: give back what the indirect block lists, then the block itself. */
    method FreeIndirect(i: nat)
      requires Sound({}, {}) && i < |inodes|
      modifies this`store, this`inodes, this`owner, this`logged
      ensures Sound({}, {}) && OnlyMapChanged(old(store))
      ensures inodes == old(inodes)[i := SetAddr(old(inodes[i]), NDIRECT, 0)]
      ensures owner == old(owner) - BlocksOf(old(owner), i, NDIRECT, SLOTS)
    {
      var ind := inodes[i].addrs[NDIRECT];
      if ind != 0 {
        IndirectOwned(sb, store, inodes, owner, i);
        var bp := store[ind];
        var j := 0;
        ghost var gone := {};
        assert BlocksOf(owner, i, NDIRECT + 1, NDIRECT + 1) == {};
        while j < NINDIRECT
          invariant 0 <= j <= NINDIRECT && OnlyMapChanged(old(store)) && inodes == old(inodes) && owner == old(owner)
          invariant gone == BlocksOf(owner, i, NDIRECT + 1, NDIRECT + 1 + j) && Sound({}, gone)
        {
          NextBlock(sb, store, inodes, owner, {}, gone, i, NDIRECT + 1, NDIRECT + 1 + j);
          assert Ref(store, inodes[i], NDIRECT + 1 + j) == Word(bp, j);
          if Word(bp, j) != 0 {
            Bfree(Word(bp, j), gone);
            gone := gone + {Word(bp, j)};
          }
          j := j + 1;
        }
        assert gone + {ind} == BlocksOf(owner, i, NDIRECT, SLOTS) by {
          SplitIndirect(sb, store, inodes, owner, gone, i);
        }
        Bfree(ind, gone);
        DetachIndirect(sb, store, inodes, owner, i);
        inodes := inodes[i := SetAddr(inodes[i], NDIRECT, 0)];
        owner := owner - BlocksOf(owner, i, NDIRECT, SLOTS);
      } else {
        NoIndirect(sb, store, inodes, owner, i);
        assert SetAddr(inodes[i], NDIRECT, 0) == inodes[i];
      }
    }

    static lemma SplitIndirect(sb: Super, store: Disk, inodes: seq<Inode>, owner: map<nat, Slot>, gone: set<nat>,
                               i: nat)
      requires Wf(sb, store, inodes, owner, {}, gone) && i < |inodes| && inodes[i].addrs[NDIRECT] != 0
      requires gone == BlocksOf(owner, i, NDIRECT + 1, SLOTS)
      ensures gone + {inodes[i].addrs[NDIRECT]} == BlocksOf(owner, i, NDIRECT, SLOTS)
    {
      assert Open(0);
      assert Ref(store, inodes[i], NDIRECT) == inodes[i].addrs[NDIRECT];
    }

    static lemma NoIndirect(sb: Super, store: Disk, inodes: seq<Inode>, owner: map<nat, Slot>, i: nat)
      requires Wf(sb, store, inodes, owner, {}, {}) && i < |inodes| && inodes[i].addrs[NDIRECT] == 0
      ensures BlocksOf(owner, i, NDIRECT, SLOTS) == {}
    {
      assert Open(0);
    }

    /** Both loops of itrunc. */
    method FreeBlocks(i: nat)
      requires Sound({}, {}) && i < |inodes|
      modifies this`store, this`inodes, this`owner, this`logged
      ensures Sound({}, {}) && OnlyMapChanged(old(store))
      ensures inodes == old(inodes)[i := old(inodes[i]).(addrs := seq(NDIRECT + 1, k => 0))]
      ensures owner == old(owner) - BlocksOf(old(owner), i, 0, SLOTS)
    {
      FreeDirect(i);
      FreeIndirect(i);
      assert inodes[i].addrs == seq(NDIRECT + 1, k => 0);
      assert BlocksOf(old(owner), i, 0, SLOTS)
          == BlocksOf(old(owner), i, 0, NDIRECT)
             + BlocksOf(old(owner) - BlocksOf(old(owner), i, 0, NDIRECT), i, NDIRECT, SLOTS);
    }

    /** itrunc: exactly the blocks of inode i become free, the file becomes empty, and every other
        file is as it was. */
    method Itrunc(i: nat)
      requires Valid() && i < |inodes|
      modifies this
      ensures Valid() && |inodes| == old(|inodes|) && start == old(start)
      ensures inodes == old(inodes)[i := old(inodes[i]).(size := 0, addrs := seq(NDIRECT + 1, k => 0))]
      ensures owner == old(owner) - BlocksOf(old(owner), i, 0, SLOTS)
      ensures forall b: nat :: b < sb.size ==>
                (InUse(sb, store, b) <==> InUse(sb, old(store), b) && b !in BlocksOf(old(owner), i, 0, SLOTS))
      ensures File(i) == []
      ensures forall j: nat :: j < |inodes| && j != i ==> File(j) == old(File(j))
    {
      assert AllHoleFree(store, inodes) && SyncedBut(sb, store, inodes, -1) by { assert Open(0); }
      FreeBlocks(i);
      Resize(sb, store, inodes, owner, i, 0);
      inodes := inodes[i := inodes[i].(size := 0)];
      ghost var s2 := store;
      OnlyStale(sb, old(store), old(inodes), s2, inodes, i);
      Sync(sb, s2, inodes, i);
      Iupdate(i);
      Freed(sb, old(store), old(inodes), old(owner), store, inodes, owner, i);
    }

    /** The end of itrunc. */
    static lemma Freed(sb: Super, store: Disk, inodes: seq<Inode>, owner: map<nat, Slot>, store': Disk,
                       inodes': seq<Inode>, owner': map<nat, Slot>, i: nat)
      requires Wf(sb, store, inodes, owner, {}, {}) && Wf(sb, store', inodes', owner', {}, {})
      requires owner' == owner - BlocksOf(owner, i, 0, SLOTS) && AllHoleFree(store, inodes)
      requires i < |inodes| == |inodes'| && inodes' == inodes[i := inodes'[i]] && inodes'[i].size == 0
      requires forall c :: sb.datastart <= c < sb.size ==> store'[c] == store[c]
      ensures forall b: nat :: b < sb.size ==>
              (InUse(sb, store', b) <==> InUse(sb, store, b) && b !in BlocksOf(owner, i, 0, SLOTS))
      ensures AllHoleFree(store', inodes') && Contents(store', inodes'[i]) == []
      ensures forall j: nat :: j < |inodes| && j != i ==> Contents(store', inodes'[j]) == Contents(store, inodes[j])
    {
      assert Open(0);
      forall j: nat | j < |inodes| && j != i
        ensures HoleFree(store', inodes'[j]) && Contents(store', inodes'[j]) == Contents(store, inodes[j])
      {
        SameFile(sb, store, inodes, owner, store', j);
      }
    }

    /** File i is file0 with the first k bytes of src written from off0 on. */
    ghost predicate Stands(i: nat, file0: seq<Byte>, off0: nat, src: seq<Byte>, k: nat)
      requires Valid() && i < |inodes| && k <= |src|
      reads this
    {
      if k == 0 then File(i) == file0 else off0 <= |file0| && File(i) == Splice(file0, off0, src[..k])
    }

    /** What writei's answer r says about n bytes at off of a file of size bytes: -1 for a refused
        range; otherwise every copy before r went well, and at r one failed or there was no block. */
    ghost predicate Answered(i: nat, size: nat, off: nat, n: nat, copies: (nat, nat) -> bool, r: int)
      reads this
    {
      if r == -1 then off > size || off + n > MAXBYTES
      else
        && off <= size && off + n <= MAXBYTES && (forall t :: CopyFails(copies, off, n, t) ==> t >= r)
        && (0 <= r < n ==> Stuck(i, (off + r) / BSIZE) || CopyFails(copies, off, n, r))
    }

    /** One transaction of filewrite: begin_op, writei, end_op. */
    method Transaction(i: nat, src: seq<Byte>, off: nat, copies: (nat, nat) -> bool) returns (r: int)
      requires Valid() && i < |inodes| && off < UINT && |src| <= 3 * BSIZE
      modifies this
      ensures Valid() && |inodes| == old(|inodes|) && |logged| <= MAXOPBLOCKS && start == old(store)
      ensures |logged| <= 7 + sb.size / BPB
      ensures r == -1 ==> store == old(store) && inodes == old(inodes) && owner == old(owner)
      ensures r != -1 ==> 0 <= r <= |src| && off <= |old(File(i))| && File(i) == Splice(old(File(i)), off, src[..r])
                          && off + r <= MAXBYTES
      ensures Answered(i, |old(File(i))|, off, |src|, copies, r)
      ensures forall j: nat :: j < |inodes| && j != i ==> File(j) == old(File(j))
    {
      logged, start := {}, store;
      r := Writei(i, src, off, copies);
      assert logged - {} == logged;
      ChunkFits(off, |src|);
    }

    /** The copy from the user at position t fails: filewrite copies n bytes in pieces that end at the
        next multiple of 3072 bytes written, at the next block boundary of the file, or at the end. */
    static ghost predicate PieceFailsAt(copies: (nat, nat) -> bool, off: nat, n: int, t: int) {
      0 <= t < n && (t % 3072 == 0 || (off + t) % BSIZE == 0)
      && !copies(t, Min(Min(n - t, 3072 - t % 3072), BSIZE - (off + t) % BSIZE))
    }

    /** No copy before position k failed. */
    static ghost predicate Unfailed(copies: (nat, nat) -> bool, off: nat, n: int, k: nat) {
      forall x {:trigger Open(x)} :: Open(x) && x == PIECES ==> forall t :: PieceFailsAt(copies, off, n, t) ==> t >= k
    }

    /** The reasons for filewrite to stop after d of n bytes. */
    ghost predicate StopsAt(i: nat, size: nat, off: nat, n: int, copies: (nat, nat) -> bool, d: nat)
      reads this
    {
      || off > size
      || off + Min(n, d / 3072 * 3072 + 3072) > MAXBYTES
      || PieceFailsAt(copies, off, n, d)
      || Stuck(i, (off + d) / BSIZE)
    }

    /** later is copies from position k on. */
    static ghost predicate From(copies: (nat, nat) -> bool, k: nat, later: (nat, nat) -> bool) {
      forall t, m :: later(t, m) == copies(k + t, m)
    }

    /** A piece of the transaction at k is a piece of the whole. */
    static lemma SamePiece(copies: (nat, nat) -> bool, later: (nat, nat) -> bool, off: nat, n: nat, k: nat, n1: nat,
                           t: nat)
      requires From(copies, k, later) && k < n && k % 3072 == 0 && n1 == Min(n - k, 3072) && t < n1
      ensures CopyFails(later, off + k, n1, t) <==> PieceFailsAt(copies, off, n, k + t)
    {
      assert (k + t) % 3072 == t % 3072;
    }

    /** After d of n bytes, none of whose copies failed, filewrite has finished or has a reason to stop. */
    ghost predicate Told(i: nat, size: nat, off: nat, n: int, copies: (nat, nat) -> bool, d: nat)
      reads this
    {
      Unfailed(copies, off, n, d)
      && forall x {:trigger Open(x)} :: Open(x) && x == TOLD && d < n ==> StopsAt(i, size, off, n, copies, d)
    }

    static lemma StillUnfailed(copies: (nat, nat) -> bool, later: (nat, nat) -> bool, off: nat, n: nat, k: nat,
                               n1: nat, at: nat, r: nat)
      requires From(copies, k, later) && k < n && k % 3072 == 0 && n1 == Min(n - k, 3072) && r <= n1 && at == off + k
      requires Unfailed(copies, off, n, k) && forall t :: CopyFails(later, at, n1, t) ==> t >= r
      ensures Unfailed(copies, off, n, k + r)
    {
      forall t | PieceFailsAt(copies, off, n, t) ensures t >= k + r {
        assert t >= k by { assert Open(PIECES); }
        if t < k + n1 { SamePiece(copies, later, off, n, k, n1, t - k); }
      }
    }

    /** What the answer r of a transaction tells about the whole write. */
    lemma ChunkTells(i: nat, size: nat, off: nat, n: nat, copies: (nat, nat) -> bool, later: (nat, nat) -> bool,
                     k: nat, n1: nat, now: nat, r: int)
      requires From(copies, k, later) && k < n && k % 3072 == 0 && n1 == Min(n - k, 3072) && -1 <= r <= n1
      requires Answered(i, now, off + k, n1, later, r) && if k == 0 then now == size else off + k <= now
      requires Unfailed(copies, off, n, k)
      ensures if r == n1 then Unfailed(copies, off, n, k + n1)
              else Told(i, size, off, n, copies, if r > 0 then k + r else k)
    {
      if r == -1 {
        assert k / 3072 * 3072 == k;
      } else {
        StillUnfailed(copies, later, off, n, k, n1, off + k, r);
        if r < n1 { SamePiece(copies, later, off, n, k, n1, r); }
      }
    }

    /** The same, seen from the whole write. */
    method WriteChunk(i: nat, src: seq<Byte>, k: nat, n1: nat, off0: nat, copies: (nat, nat) -> bool,
                      ghost file0: seq<Byte>) returns (r: int, ghost next: nat)
      requires Valid() && i < |inodes| && off0 + k < UINT && k + n1 <= |src| && 0 < n1 <= 3 * BSIZE
               && |src| < 0x8000_0000
      requires Stands(i, file0, off0, src, k)
      modifies this
      ensures Valid() && |inodes| == old(|inodes|) && |logged| <= MAXOPBLOCKS && |logged| <= 7 + sb.size / BPB
      ensures -1 <= r <= n1 && next == (if r > 0 then k + r else k) && Stands(i, file0, off0, src, next)
      ensures r > 0 ==> off0 + k + r <= MAXBYTES
      ensures Answered(i, |old(File(i))|, off0 + k, n1, copies, r)
      ensures forall j: nat :: j < |inodes| && j != i ==> File(j) == old(File(j))
    {
      r := Transaction(i, src[k..k + n1], off0 + k, copies);
      next := if r > 0 then k + r else k;
      if r >= 0 {
        WrittenSoFar(file0, old(File(i)), off0, src, k, n1, r);
      }
    }

    /** filewrite after d bytes of src: file i has them, the other files are as in files, and d is all
        or there is a reason to stop. */
    ghost predicate Ended(i: nat, files: seq<seq<Byte>>, off0: nat, src: seq<Byte>, copies: (nat, nat) -> bool, d: nat)
      reads this
    {
      forall x {:trigger Open(x)} :: Open(x) && x == FILING ==>
        && Valid() && i < |inodes| == |files| && d <= |src| && Stands(i, files[i], off0, src, d)
        && (forall j: nat :: j < |inodes| && j != i ==> File(j) == files[j])
        && (d > 0 ==> off0 + d <= MAXBYTES) && Told(i, |files[i]|, off0, |src|, copies, d)
    }

    /** The same between two transactions. */
    ghost predicate Underway(i: nat, files: seq<seq<Byte>>, off0: nat, src: seq<Byte>, copies: (nat, nat) -> bool,
                             k: nat)
      reads this
    {
      forall x {:trigger Open(x)} :: Open(x) && x == FILING ==>
        && Valid() && i < |inodes| == |files| && k <= |src| && Stands(i, files[i], off0, src, k)
        && (forall j: nat :: j < |inodes| && j != i ==> File(j) == files[j])
        && (k > 0 ==> off0 + k <= MAXBYTES) && Unfailed(copies, off0, |src|, k) && (k % 3072 == 0 || k == |src|)
    }

    /** One turn of the filewrite loop, with what it tells. */
    method WriteMore(i: nat, src: seq<Byte>, k: nat, n1: nat, off0: nat, copies: (nat, nat) -> bool,
                     ghost file0: seq<Byte>) returns (r: int, ghost next: nat)
      requires Valid() && i < |inodes| && off0 + k < UINT && k < |src| < 0x8000_0000 && n1 == Min(|src| - k, 3 * BSIZE)
      requires Stands(i, file0, off0, src, k) && k % 3072 == 0 && Unfailed(copies, off0, |src|, k)
      modifies this
      ensures Valid() && |inodes| == old(|inodes|) && |logged| <= MAXOPBLOCKS && |logged| <= 7 + sb.size / BPB
      ensures -1 <= r <= n1 && next == (if r > 0 then k + r else k) && Stands(i, file0, off0, src, next)
      ensures r > 0 ==> off0 + k + r <= MAXBYTES
      ensures if r == n1 then Unfailed(copies, off0, |src|, k + n1)
              else Told(i, |file0|, off0, |src|, copies, next)
      ensures forall j: nat :: j < |inodes| && j != i ==> File(j) == old(File(j))
    {
      var later := (t: nat, m: nat) => copies(k + t, m);
      assert if k == 0 then |File(i)| == |file0| else off0 + k <= |File(i)|;
      r, next := WriteChunk(i, src, k, n1, off0, later, file0);
      ChunkTells(i, |file0|, off0, |src|, copies, later, k, n1, |old(File(i))|, r);
    }

    lemma IsUnderway(i: nat, files: seq<seq<Byte>>, off0: nat, src: seq<Byte>, copies: (nat, nat) -> bool, k: nat)
      requires Underway(i, files, off0, src, copies, k)
      ensures Valid() && i < |inodes| == |files| && k <= |src| && Stands(i, files[i], off0, src, k)
      ensures forall j: nat :: j < |inodes| && j != i ==> File(j) == files[j]
      ensures (k > 0 ==> off0 + k <= MAXBYTES) && Unfailed(copies, off0, |src|, k) && (k % 3072 == 0 || k == |src|)
    {
      assert Open(FILING);
    }

    lemma NowUnderway(i: nat, files: seq<seq<Byte>>, off0: nat, src: seq<Byte>, copies: (nat, nat) -> bool, k: nat)
      requires Valid() && i < |inodes| == |files| && k <= |src| && Stands(i, files[i], off0, src, k)
      requires forall j: nat :: j < |inodes| && j != i ==> File(j) == files[j]
      requires (k > 0 ==> off0 + k <= MAXBYTES) && Unfailed(copies, off0, |src|, k) && (k % 3072 == 0 || k == |src|)
      ensures Underway(i, files, off0, src, copies, k)
    {
    }

    lemma NowEnded(i: nat, files: seq<seq<Byte>>, off0: nat, src: seq<Byte>, copies: (nat, nat) -> bool, d: nat)
      requires Valid() && i < |inodes| == |files| && d <= |src| && Stands(i, files[i], off0, src, d)
      requires forall j: nat :: j < |inodes| && j != i ==> File(j) == files[j]
      requires (d > 0 ==> off0 + d <= MAXBYTES) && Told(i, |files[i]|, off0, |src|, copies, d)
      ensures Ended(i, files, off0, src, copies, d)
    {
    }

    /** The same, folded up. */
    method WriteNext(i: nat, src: seq<Byte>, k: nat, n1: nat, off0: nat, copies: (nat, nat) -> bool,
                     ghost files: seq<seq<Byte>>) returns (r: int, ghost next: nat)
      requires Underway(i, files, off0, src, copies, k)
      requires off0 < UINT && k < |src| < 0x8000_0000 && n1 == Min(|src| - k, 3 * BSIZE)
      modifies this
      ensures |logged| <= MAXOPBLOCKS && |logged| <= 7 + sb.size / BPB
      ensures -1 <= r <= n1 && next == if r > 0 then k + r else k
      ensures r == n1 ==> Underway(i, files, off0, src, copies, next)
      ensures r != n1 ==> Ended(i, files, off0, src, copies, next)
    {
      IsUnderway(i, files, off0, src, copies, k);
      r, next := WriteMore(i, src, k, n1, off0, copies, files[i]);
      if r == n1 {
        NowUnderway(i, files, off0, src, copies, next);
      } else {
        NowEnded(i, files, off0, src, copies, next);
      }
    }

    /** Splicing in the next bytes behind the first k. */
    static lemma WrittenSoFar(file0: seq<Byte>, file: seq<Byte>, off0: nat, src: seq<Byte>, k: nat, n1: nat, r: nat)
      requires k + n1 <= |src| && r <= n1 && off0 + k <= |file|
      requires if k == 0 then file == file0 else off0 <= |file0| && file == Splice(file0, off0, src[..k])
      ensures var file' := Splice(file, off0 + k, src[k..k + n1][..r]);
              if k + r == 0 then file' == file0 else off0 <= |file0| && file' == Splice(file0, off0, src[..k + r])
    {
      ChunkTaken(src, k, n1, r);
      if k + r == 0 {
        SpliceNone(file0, off0);
        assert src[0..0] == [];
      } else {
        SpliceMore(file0, off0, src, k, k + r);
      }
    }

    static lemma ChunkTaken(src: seq<Byte>, k: nat, n1: nat, r: nat)
      requires k + n1 <= |src| && r <= n1
      ensures src[k..k + n1][..r] == src[k..k + r]
    {
    }

    static lemma SpliceNone(s: seq<Byte>, off: nat)
      requires off <= |s|
      ensures Splice(s, off, []) == s
    {
    }

    /** The loop of filewrite. */
    method FileLoop(i: nat, src: seq<Byte>, n: int, off0: nat, copies: (nat, nat) -> bool, ghost files: seq<seq<Byte>>)
      returns (ret: int, off: nat, ghost most: nat, ghost d: nat)
      requires Underway(i, files, off0, src, copies, 0)
      requires off0 < UINT && n < 0x8000_0000 && |src| == if n < 0 then 0 else n
      modifies this
      ensures most <= MAXOPBLOCKS && most <= 7 + sb.size / BPB
      ensures off == off0 + d && d <= |src| && Ended(i, files, off0, src, copies, d)
      ensures ret == if d == n then n else -1
    {
      var max := (MAXOPBLOCKS - 1 - 1 - 2) / 2 * BSIZE;
      var k := 0;
      off, most, d := off0, 0, 0;
      while k < n
        invariant k == d <= |src| && off == off0 + d && most <= MAXOPBLOCKS && most <= 7 + sb.size / BPB
        invariant Underway(i, files, off0, src, copies, d)
      {
        var n1 := Min(n - k, max);
        var r;
        r, d := WriteNext(i, src, k, n1, off0, copies, files);
        most := Max(most, |logged|);
        if r > 0 { off := off + r; }
        if r != n1 { return -1, off, most, d; }
        k := k + r;
      }
      HasEnded(i, files, off0, src, copies, d);
      ret := if k == n then n else -1;
    }

    /** filewrite on an inode: at most 3072 bytes per transaction, until all are written or one
        comes out short. Every transaction logs at most MAXOPBLOCKS = 10 blocks; off - off0 bytes
        have been written, and the answer is n exactly when that is all of them. It stops early only
        at the first copy that fails, at a block that a full disk does not have, or before the
        transaction that would pass the end of the largest file (or the start is beyond the end). */
    method FileWrite(i: nat, src: seq<Byte>, n: int, off0: nat, copies: (nat, nat) -> bool)
      returns (ret: int, off: nat, ghost most: nat)
      requires Valid() && i < |inodes| && off0 < UINT && n < 0x8000_0000 && |src| == if n < 0 then 0 else n
      modifies this
      ensures Valid() && |inodes| == old(|inodes|) && most <= MAXOPBLOCKS && most <= 7 + sb.size / BPB
      ensures off0 <= off <= off0 + |src| && Stands(i, old(File(i)), off0, src, off - off0)
      ensures ret == if off - off0 == n then n else -1
      ensures off > off0 ==> off0 <= |old(File(i))| && off <= MAXBYTES
      ensures forall t :: PieceFailsAt(copies, off0, n, t) ==> t >= off - off0
      ensures off - off0 < n ==> StopsAt(i, |old(File(i))|, off0, n, copies, off - off0)
      ensures forall j: nat :: j < |inodes| && j != i ==> File(j) == old(File(j))
    {
      ghost var files := Files();
      NowUnderway(i, files, off0, src, copies, 0);
      ghost var d;
      ret, off, most, d := FileLoop(i, src, n, off0, copies, files);
      EndsHere(i, files, off0, src, copies, d);
    }

    lemma HasEnded(i: nat, files: seq<seq<Byte>>, off0: nat, src: seq<Byte>, copies: (nat, nat) -> bool, d: nat)
      requires Underway(i, files, off0, src, copies, d) && d == |src|
      ensures Ended(i, files, off0, src, copies, d)
    {
      IsUnderway(i, files, off0, src, copies, d);
      NowEnded(i, files, off0, src, copies, d);
    }

    lemma EndsHere(i: nat, files: seq<seq<Byte>>, off0: nat, src: seq<Byte>, copies: (nat, nat) -> bool, d: nat)
      requires Ended(i, files, off0, src, copies, d)
      ensures Valid() && i < |inodes| == |files| && d <= |src| && Stands(i, files[i], off0, src, d)
      ensures forall j: nat :: j < |inodes| && j != i ==> File(j) == files[j]
      ensures d > 0 ==> off0 <= |files[i]| && off0 + d <= MAXBYTES
      ensures forall t :: PieceFailsAt(copies, off0, |src|, t) ==> t >= d
      ensures d < |src| ==> StopsAt(i, |files[i]|, off0, |src|, copies, d)
    {
      assert Open(FILING) && Open(PIECES) && Open(TOLD);
    }

    static lemma ChunkFits(off: nat, n1: nat)
      requires n1 <= 3 * BSIZE
      ensures 2 * Span(off, n1) + 3 - (if off % BSIZE != 0 && n1 > 0 then 1 else 0) <= MAXOPBLOCKS && Span(off, n1) <= 4
    {
    }

    static lemma SpliceMore(s: seq<Byte>, off: nat, src: seq<Byte>, k: nat, k': nat)
      requires k <= k' <= |src|
      ensures off <= |s| ==> Splice(Splice(s, off, src[..k]), off + k, src[k..k']) == Splice(s, off, src[..k'])
      ensures k == 0 && off <= |s| ==> Splice(s, off, src[k..k']) == Splice(s, off, src[..k'])
    {
    }
  }
}
