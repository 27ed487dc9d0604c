/** Who owns which disk block: the references of all inodes, the free map, and the bytes of a
    file, as values. Every primitive change that kernel/fs.c makes is shown to keep them in step. */
module FsSpec {
  import opened Blocks
  import opened Common
  import opened FsLayout

  /** Reference k of an inode: its direct addresses, its indirect block, the indirect entries. */
  datatype Slot = Slot(inum: nat, k: nat)

  const SLOTS := 269       // NDIRECT + 1 + NINDIRECT

  function Ref(store: Disk, ino: Inode, k: nat): nat
    requires ino.Ok() && k < SLOTS
  {
    if k <= NDIRECT then ino.addrs[k]
    else if 0 < ino.addrs[NDIRECT] < |store| then Word(store[ino.addrs[NDIRECT]], k - NDIRECT - 1)
    else 0
  }

  function DataSlot(n: nat): nat { if n < NDIRECT then n else n + 1 }

  /** The disk block of the n-th block of the file, 0 if there is none (bmap without allocating). */
  function Blk(store: Disk, ino: Inode, n: nat): nat
    requires ino.Ok() && n < MAXFILE
  {
    Ref(store, ino, DataSlot(n))
  }

  ghost predicate InodesOk(inodes: seq<Inode>) { forall i :: 0 <= i < |inodes| ==> inodes[i].Ok() }

  /** owner names the one reference to each block that files use: no block is referenced twice. */
  ghost predicate Owned(sb: Super, store: Disk, inodes: seq<Inode>, owner: map<nat, Slot>) {
    && InodesOk(inodes)
    && (forall i, k {:trigger Ref(store, inodes[i], k)} ::
        0 <= i < |inodes| && 0 <= k < SLOTS && Ref(store, inodes[i], k) != 0 ==>
          Ref(store, inodes[i], k) in owner && owner[Ref(store, inodes[i], k)] == Slot(i, k))
    && (forall b :: b in owner ==>
          && sb.datastart <= b < sb.size && owner[b].inum < |inodes| && owner[b].k < SLOTS
          && Ref(store, inodes[owner[b].inum], owner[b].k) == b)
  }

  /** The free map marks the metadata, the owned blocks and the blocks just taken (extra), except
      for those just given back (gone). */
  ghost predicate Marked(sb: Super, store: Disk, owner: map<nat, Slot>, extra: set<nat>, gone: set<nat>) {
    && sb.Ok() && |store| == sb.size
    && forall b: nat {:trigger InUse(sb, store, b)} :: b < sb.size ==>
         (InUse(sb, store, b) <==> (b < sb.datastart || b in owner || b in extra) && b !in gone)
  }

  ghost predicate Wf(sb: Super, store: Disk, inodes: seq<Inode>, owner: map<nat, Slot>, extra: set<nat>,
                     gone: set<nat>) {
    && sb.Ok() && |store| == sb.size && InodesOk(inodes) && |inodes| == sb.ninodes
    && forall n {:trigger Open(n)} :: Open(n) ==>
       Owned(sb, store, inodes, owner) && Marked(sb, store, owner, extra, gone)
  }

  // ---- what does not change --------------------------------------------------------------

  lemma RefStable(store: Disk, store': Disk, ino: Inode, k: nat)
    requires ino.Ok() && k < SLOTS && |store| == |store'|
    requires 0 < ino.addrs[NDIRECT] < |store| ==> store'[ino.addrs[NDIRECT]] == store[ino.addrs[NDIRECT]]
    ensures Ref(store', ino, k) == Ref(store, ino, k)
  {
  }

  /** Ownership depends on the store through the indirect blocks only. */
  lemma OwnedStable(sb: Super, store: Disk, store': Disk, inodes: seq<Inode>, owner: map<nat, Slot>)
    requires Owned(sb, store, inodes, owner) && |store| == |store'| == sb.size
    requires forall b :: b in owner && owner[b].k == NDIRECT ==> store'[b] == store[b]
    ensures Owned(sb, store', inodes, owner)
  {
    forall i, k | 0 <= i < |inodes| && 0 <= k < SLOTS ensures Ref(store', inodes[i], k) == Ref(store, inodes[i], k) {
      if inodes[i].addrs[NDIRECT] != 0 {
        assert Ref(store, inodes[i], NDIRECT) in owner;
      }
      RefStable(store, store', inodes[i], k);
    }
  }

  /** The free map depends on the blocks below the data area only. */
  lemma MarkedStable(sb: Super, store: Disk, store': Disk, owner: map<nat, Slot>, extra: set<nat>, gone: set<nat>)
    requires Marked(sb, store, owner, extra, gone) && |store'| == |store|
    requires forall b :: sb.bmapstart <= b < sb.datastart ==> store'[b] == store[b]
    ensures Marked(sb, store', owner, extra, gone)
  {
    forall b: nat | b < sb.size ensures InUse(sb, store', b) == InUse(sb, store, b) {
      assert sb.bmapstart <= sb.BBlock(b) < sb.datastart;
    }
  }

  // ---- the primitive changes -------------------------------------------------------------

  /** balloc: a block whose bit is clear is nobody's; setting the bit and zeroing it is safe. */
  lemma Take(sb: Super, store: Disk, inodes: seq<Inode>, owner: map<nat, Slot>, extra: set<nat>, b: nat)
    requires Wf(sb, store, inodes, owner, extra, {}) && b < sb.size && !InUse(sb, store, b)
    ensures sb.datastart <= b && b !in owner && b !in extra && sb.BBlock(b) < sb.datastart
    ensures Wf(sb, store[sb.BBlock(b) := Mark(store[sb.BBlock(b)], b % BPB, true)][b := ZeroBlock], inodes, owner,
               extra + {b}, {})
  {
    assert Open(0);
    MarkOne(sb, store, b, true, b);
    var s1 := store[sb.BBlock(b) := Mark(store[sb.BBlock(b)], b % BPB, true)];
    var s2 := s1[b := ZeroBlock];
    OwnedStable(sb, store, s2, inodes, owner);
    forall c: nat | c < sb.size ensures InUse(sb, s1, c) == (c == b || InUse(sb, store, c)) {
      MarkOne(sb, store, b, true, c);
    }
    assert Marked(sb, s1, owner, extra + {b}, {});
    MarkedStable(sb, s1, s2, owner, extra + {b}, {});
  }

  /** bfree: an owned block is marked, so "freeing free block" cannot happen. */
  lemma Give(sb: Super, store: Disk, inodes: seq<Inode>, owner: map<nat, Slot>, gone: set<nat>, b: nat)
    requires Wf(sb, store, inodes, owner, {}, gone) && b in owner && b !in gone
    ensures b < sb.size && InUse(sb, store, b) && sb.BBlock(b) < sb.datastart
    ensures Wf(sb, store[sb.BBlock(b) := Mark(store[sb.BBlock(b)], b % BPB, false)], inodes, owner, {}, gone + {b})
  {
    assert Open(0);
    MarkOne(sb, store, b, false, b);
    var s1 := store[sb.BBlock(b) := Mark(store[sb.BBlock(b)], b % BPB, false)];
    OwnedStable(sb, store, s1, inodes, owner);
    forall c: nat | c < sb.size ensures InUse(sb, s1, c) == (c != b && InUse(sb, store, c)) {
      MarkOne(sb, store, b, false, c);
    }
  }

  /** The bytes of a data block, or of an inode block, are free to change. */
  lemma Scribble(sb: Super, store: Disk, inodes: seq<Inode>, owner: map<nat, Slot>, extra: set<nat>, gone: set<nat>,
                 b: nat, data: Block)
    requires Wf(sb, store, inodes, owner, extra, gone) && b < sb.size
    requires b < sb.bmapstart || (b in owner && owner[b].k != NDIRECT)
    ensures Wf(sb, store[b := data], inodes, owner, extra, gone)
  {
    assert Open(0);
    OwnedStable(sb, store, store[b := data], inodes, owner);
    MarkedStable(sb, store, store[b := data], owner, extra, gone);
  }

  function SetAddr(ino: Inode, k: nat, b: nat): (r: Inode)
    requires ino.Ok() && k <= NDIRECT && b < UINT
    ensures r.Ok()
  {
    ino.(addrs := ino.addrs[k := b])
  }

  lemma ZeroWords(j: nat)
    requires j < WORDS
    ensures Word(ZeroBlock, j) == 0
  {
  }

  /** bmap stores a fresh zeroed block into ip->addrs[k], direct or indirect. */
  lemma AttachAddr(sb: Super, store: Disk, inodes: seq<Inode>, owner: map<nat, Slot>, i: nat, k: nat, b: nat)
    requires Wf(sb, store, inodes, owner, {b}, {}) && b !in owner && sb.datastart <= b < sb.size
             && store[b] == ZeroBlock
    requires i < |inodes| && k <= NDIRECT && inodes[i].addrs[k] == 0
    ensures Wf(sb, store, inodes[i := SetAddr(inodes[i], k, b)], owner[b := Slot(i, k)], {}, {})
  {
    assert Open(0);
    var inodes' := inodes[i := SetAddr(inodes[i], k, b)];
    forall j, r | 0 <= j < |inodes| && 0 <= r < SLOTS
      ensures Ref(store, inodes'[j], r) == if Slot(j, r) == Slot(i, k) then b else Ref(store, inodes[j], r)
    {
      if j == i && k == NDIRECT && r > NDIRECT { ZeroWords(r - NDIRECT - 1); }
    }
  }

  /** bmap stores a fresh zeroed block into entry e of the indirect block. */
  lemma AttachEntry(sb: Super, store: Disk, inodes: seq<Inode>, owner: map<nat, Slot>, i: nat, e: nat, b: nat)
    requires Wf(sb, store, inodes, owner, {b}, {}) && b !in owner && sb.datastart <= b < sb.size
    requires i < |inodes| && e < NINDIRECT && inodes[i].addrs[NDIRECT] != 0
    ensures inodes[i].addrs[NDIRECT] in owner && owner[inodes[i].addrs[NDIRECT]] == Slot(i, NDIRECT)
    ensures sb.datastart <= inodes[i].addrs[NDIRECT] < sb.size
    ensures Word(store[inodes[i].addrs[NDIRECT]], e) == 0 ==>
              Wf(sb, store[inodes[i].addrs[NDIRECT] := PutWord(store[inodes[i].addrs[NDIRECT]], e, b)],
                 inodes, owner[b := Slot(i, NDIRECT + 1 + e)], {}, {})
  {
    assert Open(0);
    var ind := inodes[i].addrs[NDIRECT];
    assert Ref(store, inodes[i], NDIRECT) == ind;
    if Word(store[ind], e) == 0 {
      var store' := store[ind := PutWord(store[ind], e, b)];
      forall j, r | 0 <= j < |inodes| && 0 <= r < SLOTS
        ensures Ref(store', inodes[j], r) == if Slot(j, r) == Slot(i, NDIRECT + 1 + e) then b
                else Ref(store, inodes[j], r)
      {
        AttachEntryRef(sb, store, inodes, owner, i, e, b, j, r);
      }
      MarkedStable(sb, store, store', owner, {b}, {});
    }
  }

  lemma AttachEntryRef(sb: Super, store: Disk, inodes: seq<Inode>, owner: map<nat, Slot>, i: nat, e: nat, b: nat,
                       j: nat, r: nat)
    requires Owned(sb, store, inodes, owner) && |store| == sb.size && b < sb.size < UINT
    requires i < |inodes| && e < NINDIRECT && 0 < inodes[i].addrs[NDIRECT] < sb.size
    requires j < |inodes| && r < SLOTS
    ensures var ind := inodes[i].addrs[NDIRECT];
            Ref(store[ind := PutWord(store[ind], e, b)], inodes[j], r)
            == if j == i && r == NDIRECT + 1 + e then b else Ref(store, inodes[j], r)
  {
    var ind := inodes[i].addrs[NDIRECT];
    assert Ref(store, inodes[i], NDIRECT) == ind && Ref(store, inodes[j], NDIRECT) == inodes[j].addrs[NDIRECT];
    if r > NDIRECT && j == i {
      WordOfPutWord(store[ind], e, r - NDIRECT - 1, b);
    }
  }

  /** itrunc clears a direct address whose block has been given back. */
  lemma DetachDirect(sb: Super, store: Disk, inodes: seq<Inode>, owner: map<nat, Slot>, i: nat, k: nat)
    requires i < |inodes| && k < NDIRECT && InodesOk(inodes) && inodes[i].addrs[k] != 0
    requires Wf(sb, store, inodes, owner, {}, {inodes[i].addrs[k]})
    ensures Wf(sb, store, inodes[i := SetAddr(inodes[i], k, 0)], owner - {inodes[i].addrs[k]}, {}, {})
  {
    assert Open(0);
    var b, inodes' := inodes[i].addrs[k], inodes[i := SetAddr(inodes[i], k, 0)];
    assert Ref(store, inodes[i], k) == b;
    forall j, r | 0 <= j < |inodes| && 0 <= r < SLOTS
      ensures Ref(store, inodes'[j], r) == if Slot(j, r) == Slot(i, k) then 0 else Ref(store, inodes[j], r)
    {
    }
  }

  /** The blocks that references lo up to hi of inode i name. */
  ghost function BlocksOf(owner: map<nat, Slot>, i: nat, lo: nat, hi: nat): set<nat> {
    set b | b in owner && owner[b].inum == i && lo <= owner[b].k < hi
  }

  /** One reference further, one block more, if there is one. */
  lemma NextBlock(sb: Super, store: Disk, inodes: seq<Inode>, owner: map<nat, Slot>, extra: set<nat>, gone: set<nat>,
                  i: nat, lo: nat, k: nat)
    requires Wf(sb, store, inodes, owner, extra, gone) && i < |inodes| && lo <= k < SLOTS
    ensures var b := Ref(store, inodes[i], k);
            && BlocksOf(owner, i, lo, k + 1) == BlocksOf(owner, i, lo, k) + (if b != 0 then {b} else {})
            && b !in BlocksOf(owner, i, lo, k)
            && (b != 0 ==> b in owner && owner[b] == Slot(i, k) && sb.datastart <= b < sb.size)
  {
    assert Open(0);
    var b := Ref(store, inodes[i], k);
    if b != 0 {
      assert owner[b] == Slot(i, k);
    }
    forall c | c in owner && owner[c] == Slot(i, k) ensures c == b && b != 0 {}
    forall c ensures c in BlocksOf(owner, i, lo, k + 1) <==> c in BlocksOf(owner, i, lo, k) || (b != 0 && c == b) {}
  }

  /** itrunc clears the indirect address once all those blocks have been given back. */
  lemma DetachIndirect(sb: Super, store: Disk, inodes: seq<Inode>, owner: map<nat, Slot>, i: nat)
    requires i < |inodes| && InodesOk(inodes) && inodes[i].addrs[NDIRECT] != 0
    requires Wf(sb, store, inodes, owner, {}, BlocksOf(owner, i, NDIRECT, SLOTS))
    ensures Wf(sb, store, inodes[i := SetAddr(inodes[i], NDIRECT, 0)], owner - BlocksOf(owner, i, NDIRECT, SLOTS), {},
               {})
  {
    assert Open(0);
    var inodes', owner' := inodes[i := SetAddr(inodes[i], NDIRECT, 0)], owner - BlocksOf(owner, i, NDIRECT, SLOTS);
    forall j, r | 0 <= j < |inodes| && 0 <= r < SLOTS
      ensures Ref(store, inodes'[j], r) == if j == i && r >= NDIRECT then 0 else Ref(store, inodes[j], r)
    {
    }
    assert Owned(sb, store, inodes', owner');
  }

  // ---- the bytes of a file ---------------------------------------------------------------

  const MAXBYTES := 274432       // MAXFILE * BSIZE

  /** Byte p of the file, wherever it is stored. */
  ghost function Peek(store: Disk, ino: Inode, p: nat): Byte
    requires ino.Ok() && p < MAXBYTES
  {
    var b := Blk(store, ino, p / BSIZE);
    if 0 < b < |store| then store[b][p % BSIZE] else 0
  }

  /** Every block below the end of the file is there. */
  ghost predicate HoleFree(store: Disk, ino: Inode) {
    && ino.Ok() && ino.size <= MAXBYTES
    && forall n: nat {:trigger Blk(store, ino, n)} :: n < MAXFILE && n * BSIZE < ino.size ==> Blk(store, ino, n) != 0
  }

  ghost function Contents(store: Disk, ino: Inode): (s: seq<Byte>)
    requires ino.Ok() && ino.size <= MAXBYTES
    ensures |s| == ino.size && forall p :: 0 <= p < |s| ==> s[p] == Peek(store, ino, p)
  {
    seq(ino.size, p requires 0 <= p < ino.size => Peek(store, ino, p))
  }

  /** Everything owned before is owned by the same reference, and data blocks keep their bytes,
      with the possible exception of those of inode but (-1 for no exception). */
  ghost predicate Grows(store: Disk, owner: map<nat, Slot>, store': Disk, owner': map<nat, Slot>, but: int) {
    && |store'| == |store|
    && forall b :: b in owner ==>
         && b in owner' && owner'[b] == owner[b]
         && (owner[b].k != NDIRECT && owner[b].inum != but && b < |store| ==> store'[b] == store[b])
  }

  lemma GrowsTrans(s0: Disk, o0: map<nat, Slot>, s1: Disk, o1: map<nat, Slot>, s2: Disk, o2: map<nat, Slot>, b1: int,
                   b2: int, but: int)
    requires Grows(s0, o0, s1, o1, b1) && Grows(s1, o1, s2, o2, b2) && (b1 == -1 || b1 == but)
             && (b2 == -1 || b2 == but)
    ensures Grows(s0, o0, s2, o2, but)
  {
  }

  /** The block that a mapped block of a file is stored in. */
  lemma BlkOwned(sb: Super, store: Disk, inodes: seq<Inode>, owner: map<nat, Slot>, j: nat, n: nat)
    requires Wf(sb, store, inodes, owner, {}, {}) && j < |inodes| && n < MAXFILE && Blk(store, inodes[j], n) != 0
    ensures Blk(store, inodes[j], n) in owner && owner[Blk(store, inodes[j], n)] == Slot(j, DataSlot(n))
    ensures sb.datastart <= Blk(store, inodes[j], n) < |store|
  {
    assert Open(0);
    assert Ref(store, inodes[j], DataSlot(n)) == Blk(store, inodes[j], n);
  }

  /** A mapped block of any file stays mapped to the same disk block with the same bytes. */
  lemma BlkStable(sb: Super, store: Disk, inodes: seq<Inode>, owner: map<nat, Slot>,
                  store': Disk, inodes': seq<Inode>, owner': map<nat, Slot>, but: int, j: nat, n: nat)
    requires Wf(sb, store, inodes, owner, {}, {}) && Wf(sb, store', inodes', owner', {}, {})
    requires Grows(store, owner, store', owner', but) && j < |inodes| && n < MAXFILE
    requires Blk(store, inodes[j], n) != 0
    ensures Blk(store', inodes'[j], n) == Blk(store, inodes[j], n) && 0 < Blk(store, inodes[j], n) < |store|
    ensures j != but ==> store'[Blk(store, inodes[j], n)] == store[Blk(store, inodes[j], n)]
  {
    BlkOwned(sb, store, inodes, owner, j, n);
    var b := Blk(store, inodes[j], n);
    assert owner'[b] == Slot(j, DataSlot(n));
    assert Open(0);
  }

  lemma PeekStable(sb: Super, store: Disk, inodes: seq<Inode>, owner: map<nat, Slot>,
                   store': Disk, inodes': seq<Inode>, owner': map<nat, Slot>, but: int, j: nat, p: nat)
    requires Wf(sb, store, inodes, owner, {}, {}) && Wf(sb, store', inodes', owner', {}, {})
    requires Grows(store, owner, store', owner', but) && j < |inodes| && j != but && p < MAXBYTES
    requires Blk(store, inodes[j], p / BSIZE) != 0
    ensures Peek(store', inodes'[j], p) == Peek(store, inodes[j], p)
  {
    BlkStable(sb, store, inodes, owner, store', inodes', owner', but, j, p / BSIZE);
  }

  /** Files other than but keep their contents, and no file gets a hole. */
  lemma ContentsStable(sb: Super, store: Disk, inodes: seq<Inode>, owner: map<nat, Slot>,
                       store': Disk, inodes': seq<Inode>, owner': map<nat, Slot>, but: int, j: nat)
    requires Wf(sb, store, inodes, owner, {}, {}) && Wf(sb, store', inodes', owner', {}, {})
    requires Grows(store, owner, store', owner', but) && j < |inodes|
    requires HoleFree(store, inodes[j]) && inodes'[j].size == inodes[j].size
    ensures HoleFree(store', inodes'[j])
    ensures j != but ==> Contents(store', inodes'[j]) == Contents(store, inodes[j])
  {
    forall n: nat | n < MAXFILE && n * BSIZE < inodes[j].size ensures Blk(store', inodes'[j], n) != 0 {
      BlkStable(sb, store, inodes, owner, store', inodes', owner', but, j, n);
    }
    if j != but {
      forall p: nat | p < inodes[j].size ensures Peek(store', inodes'[j], p) == Peek(store, inodes[j], p) {
        assert p / BSIZE * BSIZE < inodes[j].size;
        PeekStable(sb, store, inodes, owner, store', inodes', owner', but, j, p);
      }
      assert Contents(store', inodes'[j]) == Contents(store, inodes[j]);
    }
  }

  /** Writing one data block changes the bytes of that block of that file only. */
  lemma PeekWrite(sb: Super, store: Disk, inodes: seq<Inode>, owner: map<nat, Slot>, i: nat, bn: nat, data: Block,
                  p: nat)
    requires Wf(sb, store, inodes, owner, {}, {}) && i < |inodes| && bn < MAXFILE && Blk(store, inodes[i], bn) != 0
    requires p < MAXBYTES
    ensures Blk(store, inodes[i], bn) < |store|
    ensures var store' := store[Blk(store, inodes[i], bn) := data];
            && Blk(store', inodes[i], p / BSIZE) == Blk(store, inodes[i], p / BSIZE)
            && Peek(store', inodes[i], p) == if p / BSIZE == bn then data[p % BSIZE] else Peek(store, inodes[i], p)
  {
    BlkOwned(sb, store, inodes, owner, i, bn);
    var b, n := Blk(store, inodes[i], bn), p / BSIZE;
    var store' := store[b := data];
    if 0 < inodes[i].addrs[NDIRECT] < |store| {
      assert Ref(store, inodes[i], NDIRECT) == inodes[i].addrs[NDIRECT];
      assert inodes[i].addrs[NDIRECT] != b by { assert Open(0); }
    }
    RefStable(store, store', inodes[i], DataSlot(n));
    if Blk(store, inodes[i], n) != 0 && n != bn {
      BlkOwned(sb, store, inodes, owner, i, n);
    }
  }

  // ---- inodes in memory and on disk ------------------------------------------------------

  /** The inode blocks hold the in-memory inodes, except possibly inode but. */
  ghost predicate SyncedBut(sb: Super, store: Disk, inodes: seq<Inode>, but: int) {
    && sb.Ok() && |store| == sb.size && |inodes| == sb.ninodes
    && forall j: nat :: j < |inodes| && j != but ==> GetInode(store[sb.IBlock(j)], j) == inodes[j]
  }

  /** The inodes as ilock reads them from the inode blocks. */
  function DiskInodes(sb: Super, store: Disk): (r: seq<Inode>)
    requires sb.Ok() && |store| == sb.size
    ensures |r| == sb.ninodes && SyncedBut(sb, store, r, -1)
  {
    seq(sb.ninodes, (j: nat) requires j < sb.ninodes =>
      assert sb.IBlock(j) < sb.bmapstart;
      GetInode(store[sb.IBlock(j)], j))
  }

  ghost predicate AllHoleFree(store: Disk, inodes: seq<Inode>) {
    forall j :: 0 <= j < |inodes| ==> HoleFree(store, inodes[j])
  }

  /** iupdate brings the inode blocks up to date. */
  lemma Sync(sb: Super, store: Disk, inodes: seq<Inode>, i: nat)
    requires SyncedBut(sb, store, inodes, i) && i < |inodes| && InodesOk(inodes)
    ensures sb.IBlock(i) < sb.bmapstart
    ensures SyncedBut(sb, store[sb.IBlock(i) := PutInode(store[sb.IBlock(i)], i, inodes[i])], inodes, -1)
  {
    var store' := store[sb.IBlock(i) := PutInode(store[sb.IBlock(i)], i, inodes[i])];
    forall j: nat | j < |inodes| ensures GetInode(store'[sb.IBlock(j)], j) == inodes[j] {
      InodeRoundTrip(store[sb.IBlock(i)], i, inodes[i], j);
      assert sb.IBlock(i) == sb.IBlock(j) && i % IPB == j % IPB ==> i == j;
    }
  }

  /** The size field plays no part in ownership. */
  lemma Resize(sb: Super, store: Disk, inodes: seq<Inode>, owner: map<nat, Slot>, i: nat, size: nat)
    requires Wf(sb, store, inodes, owner, {}, {}) && i < |inodes| && size < UINT
    ensures Wf(sb, store, inodes[i := inodes[i].(size := size)], owner, {}, {})
  {
    assert Open(0);
    var inodes' := inodes[i := inodes[i].(size := size)];
    forall j, k | 0 <= j < |inodes| && 0 <= k < SLOTS ensures Ref(store, inodes'[j], k) == Ref(store, inodes[j], k) {}
  }

  /** A file is as it was when its inode and the data area are. */
  lemma SameFile(sb: Super, store: Disk, inodes: seq<Inode>, owner: map<nat, Slot>, store': Disk, j: nat)
    requires Wf(sb, store, inodes, owner, {}, {}) && |store'| == |store| && j < |inodes| && HoleFree(store, inodes[j])
    requires forall c :: sb.datastart <= c < sb.size ==> store'[c] == store[c]
    ensures HoleFree(store', inodes[j]) && Contents(store', inodes[j]) == Contents(store, inodes[j])
  {
    forall n: nat | n < MAXFILE ensures Blk(store', inodes[j], n) == Blk(store, inodes[j], n) {
      if inodes[j].addrs[NDIRECT] != 0 {
        assert Ref(store, inodes[j], NDIRECT) >= sb.datastart by { assert Open(0); }
      }
      RefStable(store, store', inodes[j], DataSlot(n));
    }
    forall p: nat | p < inodes[j].size ensures Peek(store', inodes[j], p) == Peek(store, inodes[j], p) {
      assert p / BSIZE * BSIZE < inodes[j].size;
      BlkOwned(sb, store, inodes, owner, j, p / BSIZE);
    }
  }
}
