/** What the log does for files: kernel/fs.c on top of kernel/log.c across crashes. */
module CrashFiles {
  import opened Blocks
  import opened Common
  import opened Params
  import opened FsLayout
  import opened FsSpec
  import opened LogSpec
  import opened Counting
  import opened InodeFs
  import LogReservation

  /** A disk that can be mounted: its inodes are inodes, every block has its one owner, the free
      map agrees, and no file has a hole. */
  ghost predicate FileSystem(sb: Super, store: Disk, inodes: seq<Inode>, owner: map<nat, Slot>) {
    Wf(sb, store, inodes, owner, {}, {}) && SyncedBut(sb, store, inodes, -1) && AllHoleFree(store, inodes)
  }

  /** A file system is what its blocks from inodestart on say. */
  lemma SameFiles(sb: Super, store: Disk, store': Disk, inodes: seq<Inode>, owner: map<nat, Slot>)
    requires FileSystem(sb, store, inodes, owner) && |store'| == |store|
    requires forall b :: sb.inodestart <= b < sb.size ==> store'[b] == store[b]
    ensures FileSystem(sb, store', inodes, owner) && DiskInodes(sb, store') == inodes
    ensures forall j: nat :: j < |inodes| ==> Contents(store', inodes[j]) == Contents(store, inodes[j])
  {
    assert Wf(sb, store', inodes, owner, {}, {}) by {
      assert Open(0);
      OwnedStable(sb, store, store', inodes, owner);
      MarkedStable(sb, store, store', owner, {}, {});
    }
    forall j: nat | j < |inodes| ensures GetInode(store'[sb.IBlock(j)], j) == inodes[j] {
      assert sb.inodestart <= sb.IBlock(j) < sb.bmapstart;
    }
    forall j: nat | j < |inodes|
      ensures HoleFree(store', inodes[j]) && Contents(store', inodes[j]) == Contents(store, inodes[j]) {
      SameFile(sb, store, inodes, owner, store', j);
    }
    forall j: nat | j < |inodes| ensures DiskInodes(sb, store')[j] == inodes[j] {}
  }

  /** One transaction takes the file system on disk d to the one in store. Whenever the machine
      crashes during the commit, and however often it crashes again while recovering, the recovered
      disk holds a file system: all files as before the transaction if the header had not been
      written, all files as after it otherwise. */
  lemma FilesAfterCrash(g: Geometry, sb: Super, d: Disk, inodes0: seq<Inode>, owner0: map<nat, Slot>,
                        store: Disk, inodes1: seq<Inode>, owner1: map<nat, Slot>, lh: seq<nat>, data: seq<Block>,
                        k: nat, ds: seq<Disk>)
    requires WfDisk(g, d) && HeaderN(g, d) == 0 && Loggable(g, lh) && |data| == |lh|
    requires g.start + g.size <= sb.inodestart
    requires FileSystem(sb, d, inodes0, owner0) && FileSystem(sb, store, inodes1, owner1)
    requires forall b: nat :: b < sb.size && b !in lh ==> store[b] == d[b]
    requires forall t :: 0 <= t < |lh| ==> lh[t] < |store| && data[t] == store[lh[t]]
    requires k <= 2 * |lh| + 2 && InterruptedRecoveries(g, ds)
             && ds[0] == Apply(d, CommitWrites(g, d[g.start], lh, data)[..k])
    ensures WfDisk(g, ds[|ds| - 1])
    ensures var r := Recovered(g, ds[|ds| - 1]);
            if k <= |lh| then
              && FileSystem(sb, r, inodes0, owner0) && DiskInodes(sb, r) == inodes0
              && forall j: nat :: j < |inodes0| ==> Contents(r, inodes0[j]) == Contents(d, inodes0[j])
            else
              && FileSystem(sb, r, inodes1, owner1) && DiskInodes(sb, r) == inodes1
              && forall j: nat :: j < |inodes1| ==> Contents(r, inodes1[j]) == Contents(store, inodes1[j])
  {
    CrashAtomicity(g, d, lh, data, k, ds);
    var r := Recovered(g, ds[|ds| - 1]);
    forall b: nat | b < sb.size ensures After(d, lh, data, b) == store[b] {
    }
    assert forall b :: sb.inodestart <= b < sb.size ==> g.Home(b);
    if k <= |lh| {
      SameFiles(sb, d, r, inodes0, owner0);
    } else {
      SameFiles(sb, store, r, inodes1, owner1);
    }
  }

  /** What a file system in memory guarantees about its store. */
  lemma ValidIsFileSystem(fs: Fs)
    requires fs.Valid()
    ensures FileSystem(fs.sb, fs.store, fs.inodes, fs.owner)
  {
    assert Open(0);
  }

  /** Since the operation began, the store has changed in logged blocks only, and each of these can
      be logged. */
  lemma OnlyLogged(fs: Fs, g: Geometry)
    requires fs.Traced() && g.blocks == |fs.store| && g.start + g.size <= fs.sb.inodestart
    ensures |fs.start| == |fs.store|
    ensures forall b: nat :: b < |fs.store| && b !in fs.logged ==> fs.store[b] == fs.start[b]
    ensures forall b: nat :: b < |fs.store| && b in fs.logged ==> g.Home(b)
  {
    forall b: nat | b < |fs.store| ensures if b in fs.logged then g.Home(b) else fs.store[b] == fs.start[b] {
      assert Open(b);
    }
  }

  /** ds begins with what k writes of the commit of lh and data leave of disk d, and goes on with
      what interrupted recoveries leave of it. */
  ghost predicate Crashed(g: Geometry, d: Disk, lh: seq<nat>, data: seq<Block>, k: nat, ds: seq<Disk>) {
    && InterruptedRecoveries(g, ds)
    && (WfDisk(g, d) && Loggable(g, lh) && |data| == |lh| && k <= 2 * |lh| + 2 ==>
        ds[0] == Apply(d, CommitWrites(g, d[g.start], lh, data)[..k]))
  }

  /** The same theorem for the calls of a transaction. fs is the file system after any of them, as
      writei and itrunc leave it (fs.start is the store when the transaction began and fs.logged
      what it has logged); lh lists the logged blocks in any order. However the commit and the
      recoveries crash, the files are those of the beginning or those of fs. */
  lemma CrashedTransaction(fs: Fs, g: Geometry, inodes0: seq<Inode>, owner0: map<nat, Slot>, lh: seq<nat>,
                           data: seq<Block>, k: nat, ds: seq<Disk>)
    requires fs.Valid() && FileSystem(fs.sb, fs.start, inodes0, owner0)
    requires WfDisk(g, fs.start) && HeaderN(g, fs.start) == 0 && g.start + g.size <= fs.sb.inodestart
    requires Distinct(lh) && (forall b :: b in lh <==> b in fs.logged) && |lh| <= LOGSIZE && |lh| < g.size
    requires |data| == |lh| && forall t :: 0 <= t < |lh| ==> lh[t] < |fs.store| && data[t] == fs.store[lh[t]]
    requires k <= 2 * |lh| + 2 && Crashed(g, fs.start, lh, data, k, ds)
    ensures WfDisk(g, ds[|ds| - 1])
    ensures var r := Recovered(g, ds[|ds| - 1]);
            if k <= |lh| then
              && FileSystem(fs.sb, r, inodes0, owner0) && DiskInodes(fs.sb, r) == inodes0
              && forall j: nat :: j < |inodes0| ==> Contents(r, inodes0[j]) == Contents(fs.start, inodes0[j])
            else
              && FileSystem(fs.sb, r, fs.inodes, fs.owner) && DiskInodes(fs.sb, r) == fs.inodes
              && forall j: nat :: j < |fs.inodes| ==> Contents(r, fs.inodes[j]) == fs.File(j)
  {
    ValidIsFileSystem(fs);
    OnlyLogged(fs, g);
    assert Loggable(g, lh);
    FilesAfterCrash(g, fs.sb, fs.start, inodes0, owner0, fs.store, fs.inodes, fs.owner, lh, data, k, ds);
  }

  // ---- a whole transaction ---------------------------------------------------------------

  /** A call on a file inside a transaction; the calls of a commit may come from several operations. */
  datatype Call = WriteAt(i: nat, src: seq<Byte>, off: nat, copies: (nat, nat) -> bool) | Truncate(i: nat)

  predicate Possible(c: Call, n: nat) { c.i < n && (c.WriteAt? ==> c.off < UINT && |c.src| < UINT) }

  /** What the call makes of the files, r being its answer. */
  function Effect(files: seq<seq<Byte>>, c: Call, r: int): seq<seq<Byte>> {
    if c.i >= |files| then files
    else if c.Truncate? then files[c.i := []]
    else if 0 <= r <= |c.src| && c.off <= |files[c.i]| then files[c.i := Splice(files[c.i], c.off, c.src[..r])]
    else files
  }

  /** The call is refused exactly if the range is. */
  predicate Answers(files: seq<seq<Byte>>, c: Call, r: int) {
    c.WriteAt? && c.i < |files| ==>
      && -1 <= r <= |c.src|
      && (r == -1 <==> c.off > |files[c.i]| || c.off + |c.src| >= UINT || c.off + |c.src| > MAXBYTES)
  }

  function Effects(files: seq<seq<Byte>>, calls: seq<Call>, rs: seq<int>): seq<seq<Byte>>
    requires |rs| == |calls|
  {
    if calls == [] then files
    else
      var n := |calls| - 1;
      Effect(Effects(files, calls[..n], rs[..n]), calls[n], rs[n])
  }

  ghost function Files(store: Disk, inodes: seq<Inode>): (files: seq<seq<Byte>>)
    requires AllHoleFree(store, inodes)
    ensures |files| == |inodes| && forall j :: 0 <= j < |inodes| ==> files[j] == Contents(store, inodes[j])
  {
    seq(|inodes|, j requires 0 <= j < |inodes| => Contents(store, inodes[j]))
  }

  ghost function FilesIn(fs: Fs): (files: seq<seq<Byte>>)
    requires fs.Valid()
    reads fs
    ensures |files| == |fs.inodes| && forall j: nat :: j < |fs.inodes| ==> files[j] == fs.File(j)
  {
    ValidIsFileSystem(fs);
    Files(fs.store, fs.inodes)
  }

  method DoCall(fs: Fs, c: Call) returns (r: int)
    requires fs.Valid() && Possible(c, |fs.inodes|)
    modifies fs
    ensures fs.Valid() && |fs.inodes| == old(|fs.inodes|) && fs.start == old(fs.start)
    ensures FilesIn(fs) == Effect(old(FilesIn(fs)), c, r) && Answers(old(FilesIn(fs)), c, r)
  {
    match c
    case WriteAt(i, src, off, copies) =>
      r := fs.Writei(i, src, off, copies);
      if r == -1 { assert FilesIn(fs) == old(FilesIn(fs)); }
    case Truncate(i) =>
      fs.Itrunc(i);
      r := 0;
  }

  method DoCalls(fs: Fs, calls: seq<Call>) returns (rs: seq<int>)
    requires fs.Valid() && forall t :: 0 <= t < |calls| ==> Possible(calls[t], |fs.inodes|)
    modifies fs
    ensures fs.Valid() && |fs.inodes| == old(|fs.inodes|) && fs.start == old(fs.start) && |rs| == |calls|
    ensures FilesIn(fs) == Effects(old(FilesIn(fs)), calls, rs)
    ensures forall t: nat :: t < |calls| ==> Answers(Effects(old(FilesIn(fs)), calls[..t], rs[..t]), calls[t], rs[t])
  {
    rs := [];
    var t := 0;
    while t < |calls|
      invariant 0 <= t == |rs| <= |calls|
      invariant fs.Valid() && |fs.inodes| == old(|fs.inodes|) && fs.start == old(fs.start)
      invariant FilesIn(fs) == Effects(old(FilesIn(fs)), calls[..t], rs)
      invariant forall u: nat :: u < t ==> Answers(Effects(old(FilesIn(fs)), calls[..u], rs[..u]), calls[u], rs[u])
    {
      var r := DoCall(fs, calls[t]);
      assert calls[..t + 1][..t] == calls[..t] && (rs + [r])[..t] == rs;
      assert forall u: nat :: u < t ==> (rs + [r])[..u] == rs[..u];
      rs, t := rs + [r], t + 1;
    }
    assert calls[..t] == calls;
  }

  /** Disk d holds a file system with these files. */
  ghost predicate Holds(sb: Super, d: Disk, files: seq<seq<Byte>>) {
    && sb.Ok() && |d| == sb.size && AllHoleFree(d, DiskInodes(sb, d)) && Files(d, DiskInodes(sb, d)) == files
    && exists owner :: FileSystem(sb, d, DiskInodes(sb, d), owner)
  }

  /** lh and data are the transaction that has logged these blocks of store. */
  ghost predicate Logs(g: Geometry, store: Disk, logged: set<nat>, lh: seq<nat>, data: seq<Block>) {
    && Distinct(lh) && (forall b :: b in lh <==> b in logged) && |lh| <= LOGSIZE && |lh| < g.size
    && |data| == |lh| && forall t :: 0 <= t < |lh| ==> lh[t] < |store| && data[t] == store[lh[t]]
  }

  /** Wherever commit and recoveries crash, the disk holds the files before or the files after. */
  ghost predicate Survives(sb: Super, g: Geometry, start: Disk, store: Disk, logged: set<nat>,
                           before: seq<seq<Byte>>, after: seq<seq<Byte>>) {
    forall lh, data, k: nat, ds {:trigger Crashed(g, start, lh, data, k, ds)} ::
      Logs(g, store, logged, lh, data) && k <= 2 * |lh| + 2 && Crashed(g, start, lh, data, k, ds) ==>
        WfDisk(g, ds[|ds| - 1]) && Holds(sb, Recovered(g, ds[|ds| - 1]), if k <= |lh| then before else after)
  }

  lemma HoldsFiles(sb: Super, d: Disk, inodes: seq<Inode>, owner: map<nat, Slot>, files: seq<seq<Byte>>)
    requires FileSystem(sb, d, inodes, owner) && DiskInodes(sb, d) == inodes
    requires |files| == |inodes| && forall j: nat :: j < |inodes| ==> Contents(d, inodes[j]) == files[j]
    ensures Holds(sb, d, files)
  {
    assert Files(d, inodes) == files;
  }

  /** The commit of whatever calls since start. */
  lemma CommitSurvives(fs: Fs, g: Geometry, inodes0: seq<Inode>, owner0: map<nat, Slot>)
    requires fs.Valid() && FileSystem(fs.sb, fs.start, inodes0, owner0)
    requires WfDisk(g, fs.start) && HeaderN(g, fs.start) == 0 && g.start + g.size <= fs.sb.inodestart
    ensures Survives(fs.sb, g, fs.start, fs.store, fs.logged, Files(fs.start, inodes0), FilesIn(fs))
  {
    forall lh, data, k: nat, ds |
      Logs(g, fs.store, fs.logged, lh, data) && k <= 2 * |lh| + 2 && Crashed(g, fs.start, lh, data, k, ds)
      ensures WfDisk(g, ds[|ds| - 1])
      ensures Holds(fs.sb, Recovered(g, ds[|ds| - 1]), if k <= |lh| then Files(fs.start, inodes0) else FilesIn(fs))
    {
      CrashedTransaction(fs, g, inodes0, owner0, lh, data, k, ds);
      var r := Recovered(g, ds[|ds| - 1]);
      if k <= |lh| {
        HoldsFiles(fs.sb, r, inodes0, owner0, Files(fs.start, inodes0));
      } else {
        HoldsFiles(fs.sb, r, fs.inodes, fs.owner, FilesIn(fs));
      }
    }
  }

  /** All calls between two commits, by however many operations: across any crash of the commit and
      of the recoveries, either none of them has happened or all of them have. */
  method TransactionSurvives(fs: Fs, calls: seq<Call>, ghost g: Geometry) returns (rs: seq<int>)
    requires fs.Valid() && fs.start == fs.store && forall t :: 0 <= t < |calls| ==> Possible(calls[t], |fs.inodes|)
    requires WfDisk(g, fs.store) && HeaderN(g, fs.store) == 0 && g.start + g.size <= fs.sb.inodestart
    modifies fs
    ensures fs.Valid() && |rs| == |calls|
    ensures forall t: nat :: t < |calls| ==> Answers(Effects(old(FilesIn(fs)), calls[..t], rs[..t]), calls[t], rs[t])
    ensures Survives(fs.sb, g, old(fs.store), fs.store, fs.logged, old(FilesIn(fs)),
                     Effects(old(FilesIn(fs)), calls, rs))
  {
    ValidIsFileSystem(fs);
    ghost var inodes0, owner0 := fs.inodes, fs.owner;
    rs := DoCalls(fs, calls);
    CommitSurvives(fs, g, inodes0, owner0);
  }

  // ---- filewrite and the reservation -----------------------------------------------------

  /** What a transaction of filewrite logs on a disk of this size, at most. */
  function FilewriteBudget(size: nat): nat { Min(MAXOPBLOCKS, 7 + size / BPB) }

  /** On a log of mkfs's 30 blocks, operations that log as much as filewrite may can make log_write
      panic exactly if the disk has more than three blocks of free map. mkfs's disk has one. */
  lemma FilewritePanicsExactly(size: nat)
    ensures LogReservation.CanPanic(FilewriteBudget(size), LOGSIZE) <==> size / BPB >= 3
  {
    LogReservation.PanicOnMkfsDisk(FilewriteBudget(size), LOGSIZE);
  }
}
