/** kernel/log.c on top of the buffer cache: commit and recovery as the code runs them, and the
    flat block store that callers of bread and log_write see. */
module WriteAheadLog {
  import opened Blocks
  import opened Common
  import opened Params
  import opened Counting
  import opened LogSpec
  import opened BufferCache

  // ---- the invariant, on values ----------------------------------------------------------

  /** Buffers belong to the log's device or are unused. */
  ghost predicate DevicesOk(bufs: seq<Buf>, dev: nat, blocks: nat) {
    forall i :: 0 <= i < |bufs| ==> bufs[i].dev == 0 || (bufs[i].dev == dev && bufs[i].blockno < blocks)
  }

  /** A filled buffer that nobody is editing holds the latest logged bytes of its block. */
  ghost predicate Coherent(bufs: seq<Buf>, dev: nat, flat: Disk) {
    forall i :: 0 <= i < |bufs| && bufs[i].dev == dev && bufs[i].valid && !bufs[i].locked ==>
                  bufs[i].blockno < |flat| && bufs[i].data == flat[bufs[i].blockno]
  }

  /** Exactly the buffers of the pending blocks are pinned, once each, and are filled. */
  ghost predicate PinsOk(bufs: seq<Buf>, pins: seq<nat>, where: map<Key, nat>, dev: nat, pend: set<nat>) {
    && |pins| == |bufs|
    && (forall i {:trigger pins[i]} {:trigger bufs[i]} :: 0 <= i < |bufs| ==>
          && pins[i] == (if bufs[i].dev == dev && bufs[i].blockno in pend then 1 else 0)
          && (bufs[i].dev == dev && bufs[i].blockno in pend ==> bufs[i].valid))
    && (forall b :: b in pend ==> Key(dev, b) in where)
  }

  /** Off the pending list, the disk is up to date. */
  ghost predicate DiskOk(disk: Disk, flat: Disk, pend: set<nat>) {
    |disk| == |flat| && forall b :: 0 <= b < |disk| && b !in pend ==> disk[b] == flat[b]
  }

  ghost predicate AllHome(g: Geometry, pend: set<nat>) { forall b :: b in pend ==> g.Home(b) }

  /** Bytes that the transaction lh carries. */
  function Payload(flat: Disk, lh: seq<nat>): (data: seq<Block>)
    requires forall t :: 0 <= t < |lh| ==> lh[t] < |flat|
    ensures |data| == |lh|
  {
    seq(|lh|, t requires 0 <= t < |lh| => flat[lh[t]])
  }

  /** Disk, flat store and write history after issuing ws from an earlier point. */
  ghost predicate Issued(disk0: Disk, flat0: Disk, hist0: seq<Write>, disk: Disk, flat: Disk, hist: seq<Write>,
                         ws: seq<Write>) {
    && InRange(disk0, ws) && InRange(flat0, ws)
    && disk == Apply(disk0, ws) && flat == Apply(flat0, ws) && hist == hist0 + ws
  }

  lemma IssueOne(disk0: Disk, flat0: Disk, hist0: seq<Write>, disk: Disk, flat: Disk, hist: seq<Write>, ws: seq<Write>,
                 w: Write)
    requires Issued(disk0, flat0, hist0, disk, flat, hist, ws) && w.at < |disk0| && w.at < |flat0|
    ensures Issued(disk0, flat0, hist0, disk[w.at := w.data], flat[w.at := w.data], hist + [w], ws + [w])
  {
    assert (ws + [w])[..|ws|] == ws;
  }

  lemma IssueConcat(disk0: Disk, flat0: Disk, hist0: seq<Write>, disk1: Disk, flat1: Disk, hist1: seq<Write>,
                    disk2: Disk, flat2: Disk, hist2: seq<Write>, ws: seq<Write>, xs: seq<Write>)
    requires Issued(disk0, flat0, hist0, disk1, flat1, hist1, ws)
    requires Issued(disk1, flat1, hist1, disk2, flat2, hist2, xs)
    ensures Issued(disk0, flat0, hist0, disk2, flat2, hist2, ws + xs)
  {
    ApplyConcat(disk0, ws, xs);
    ApplyConcat(flat0, ws, xs);
    assert hist0 + ws + xs == hist0 + (ws + xs);
  }

  lemma TakeOneMore(ws: seq<Write>, t: nat)
    requires t < |ws|
    ensures ws[..t + 1] == ws[..t] + [ws[t]]
  {
  }

  lemma DropOne(lh: seq<nat>, t: nat)
    requires t < |lh| && Distinct(lh)
    ensures lh[t] in Elements(lh[t..]) && Elements(lh[t..]) - {lh[t]} == Elements(lh[t + 1..])
  {
    assert lh[t..] == [lh[t]] + lh[t + 1..];
  }

  /** Turn t of write_log: the cached block still has the bytes it had when the loop began,
      and writing it to the log extends the issued copies by one. */
  lemma LogTurn(g: Geometry, disk0: Disk, flat0: Disk, hist0: seq<Write>, disk: Disk, flat: Disk, hist: seq<Write>,
                lh: seq<nat>, t: nat)
    requires g.Ok() && |flat0| == |disk0| == g.blocks && Loggable(g, lh) && t < |lh|
    requires Issued(disk0, flat0, hist0, disk, flat, hist, LogCopies(g, lh, Payload(flat0, lh))[..t])
    ensures var ws := LogCopies(g, lh, Payload(flat0, lh));
            var w := ws[t];
            && w.at == g.start + 1 + t && w.data == flat[lh[t]]
            && Issued(disk0, flat0, hist0, disk[w.at := w.data], flat[w.at := w.data], hist + [w], ws[..t + 1])
  {
    var ws := LogCopies(g, lh, Payload(flat0, lh));
    forall i | 0 <= i < t ensures ws[i].at != lh[t] {
      assert g.Home(lh[t]);
    }
    ApplyUntouched(flat0, ws[..t], lh[t]);
    IssueOne(disk0, flat0, hist0, disk, flat, hist, ws[..t], ws[t]);
    TakeOneMore(ws, t);
  }

  /** Turn t of install_trans: the log block still has the bytes it had when the loop began. */
  lemma InstallTurn(g: Geometry, disk0: Disk, flat0: Disk, hist0: seq<Write>, disk: Disk, flat: Disk, hist: seq<Write>,
                    lh: seq<nat>, t: nat)
    requires g.Ok() && |flat0| == |disk0| == g.blocks && Loggable(g, lh) && t < |lh|
    requires Issued(disk0, flat0, hist0, disk, flat, hist, Installs(g, flat0, lh)[..t])
    ensures var ws := Installs(g, flat0, lh);
            var w := ws[t];
            && w.at == lh[t] && w.data == flat[g.start + 1 + t]
            && Issued(disk0, flat0, hist0, disk[w.at := w.data], flat[w.at := w.data], hist + [w], ws[..t + 1])
  {
    var ws := Installs(g, flat0, lh);
    forall i | 0 <= i < t ensures ws[i].at != g.start + 1 + t {
      assert g.Home(lh[i]);
    }
    ApplyUntouched(flat0, ws[..t], g.start + 1 + t);
    IssueOne(disk0, flat0, hist0, disk, flat, hist, ws[..t], ws[t]);
    TakeOneMore(ws, t);
  }

  lemma LogCopyStays(g: Geometry, flat0: Disk, lh: seq<nat>, ws: seq<Write>, t: nat)
    requires g.Ok() && |flat0| == g.blocks && Loggable(g, lh) && t < |lh| && ws == LogCopies(g, lh, Payload(flat0, lh))
    ensures Apply(flat0, ws)[g.start + 1 + t] == flat0[lh[t]]
  {
    assert ws[t] == Write(g.start + 1 + t, flat0[lh[t]]);
    assert forall i :: 0 <= i < |ws| ==> ws[i].at == g.start + 1 + i;
    ApplyLast(flat0, ws, t);
  }

  lemma InstallsAre(g: Geometry, d: Disk, lh: seq<nat>, data: seq<Block>)
    requires g.Ok() && |d| == g.blocks && Loggable(g, lh) && |data| == |lh|
    requires forall t :: 0 <= t < |lh| ==> d[g.start + 1 + t] == data[t]
    ensures Installs(g, d, lh) == HomeCopies(g, lh, data)
  {
  }

  /** After write_log and the header, installing copies exactly the transaction's bytes. */
  lemma InstallsAfterLogging(g: Geometry, flat0: Disk, flat1: Disk, lh: seq<nat>, h: Block)
    requires g.Ok() && |flat0| == |flat1| == g.blocks && Loggable(g, lh)
    requires flat1 == Apply(flat0, LogCopies(g, lh, Payload(flat0, lh)))[g.start := h]
    ensures Installs(g, flat1, lh) == HomeCopies(g, lh, Payload(flat0, lh))
  {
    var data := Payload(flat0, lh);
    forall t: nat | t < |lh| ensures flat1[g.start + 1 + t] == data[t] {
      LogCopyStays(g, flat0, lh, LogCopies(g, lh, data), t);
    }
    InstallsAre(g, flat1, lh, data);
  }

  /** Seen through the flat store, a commit changes no home block. */
  lemma CommitKeepsFlat(g: Geometry, flat0: Disk, lh: seq<nat>, b: nat)
    requires WfDisk(g, flat0) && Loggable(g, lh) && g.Home(b)
    ensures Apply(flat0, CommitWrites(g, flat0[g.start], lh, Payload(flat0, lh)))[b] == flat0[b]
  {
    CommitDone(g, flat0, lh, Payload(flat0, lh));
    if b in lh {
      var t :| 0 <= t < |lh| && lh[t] == b;
      AfterAt(flat0, lh, Payload(flat0, lh), t);
    }
  }

  /** The two halves of commit, put together. */
  lemma CommitComposed(g: Geometry, disk0: Disk, flat0: Disk, hist0: seq<Write>, disk1: Disk, flat1: Disk,
                       hist1: seq<Write>,
                       disk2: Disk, flat2: Disk, hist2: seq<Write>, lh: seq<nat>, h: Block)
    requires WfDisk(g, disk0) && HeaderN(g, disk0) == 0 && DiskOk(disk0, flat0, Elements(lh)) && Loggable(g, lh)
    requires h == PutHeader(flat0[g.start], lh)
    requires Issued(disk0, flat0, hist0, disk1, flat1, hist1,
                    LogCopies(g, lh, Payload(flat0, lh)) + [Write(g.start, h)])
    requires flat1 == Apply(flat0, LogCopies(g, lh, Payload(flat0, lh)))[g.start := h]
    requires Issued(disk1, flat1, hist1, disk2, flat2, hist2,
                    Installs(g, flat1, lh) + [Write(g.start, PutWord(flat1[g.start], 0, 0))])
    requires DiskOk(disk2, flat2, {})
    ensures var ws := CommitWrites(g, disk0[g.start], lh, Payload(flat0, lh));
            && hist2 == hist0 + ws && disk2 == Apply(disk0, ws)
            && WfDisk(g, disk2) && HeaderN(g, disk2) == 0
    ensures forall b :: g.Home(b) ==> flat2[b] == flat0[b] && disk2[b] == flat0[b]
  {
    assert !g.Home(g.start) && g.start !in Elements(lh);
    var data := Payload(flat0, lh);
    var first, second := LogCopies(g, lh, data) + [Write(g.start, h)],
    HomeCopies(g, lh, data) + [Write(g.start, PutWord(h, 0, 0))];
    InstallsAfterLogging(g, flat0, flat1, lh, h);
    IssueConcat(disk0, flat0, hist0, disk1, flat1, hist1, disk2, flat2, hist2, first, second);
    assert first + second == CommitWrites(g, disk0[g.start], lh, data);
    CommitDone(g, disk0, lh, data);
    assert HeaderBlocks(g, flat0) == [];
    forall b | g.Home(b) ensures flat2[b] == flat0[b] && disk2[b] == flat0[b] {
      CommitKeepsFlat(g, flat0, lh, b);
    }
  }

  /** A buffer no process and no transaction refers to. */
  predicate Spare(bufs: seq<Buf>) { exists i :: 0 <= i < |bufs| && bufs[i].refcnt == 0 }

  predicate TwoSpare(bufs: seq<Buf>) {
    exists i, j :: 0 <= i < j < |bufs| && bufs[i].refcnt == 0 && bufs[j].refcnt == 0
  }

  /** A locked, filled buffer with the current bytes of block b. */
  predicate Held(buf: Buf, dev: nat, b: nat, flat: Disk) {
    KeyOf(buf) == Key(dev, b) && buf.locked && buf.valid && buf.refcnt >= 1 && b < |flat| && buf.data == flat[b]
  }

  /** Nobody is editing block b. */
  ghost predicate Unlocked(bufs: seq<Buf>, where: map<Key, nat>, dev: nat, b: nat) {
    Key(dev, b) in where && where[Key(dev, b)] < |bufs| ==> !bufs[where[Key(dev, b)]].locked
  }

  /** Nobody is editing a block of the log area or of the transaction. */
  ghost predicate Quiet(bufs: seq<Buf>, dev: nat, g: Geometry, pend: set<nat>) {
    forall i :: 0 <= i < |bufs| && bufs[i].locked && bufs[i].dev == dev ==>
                  g.Home(bufs[i].blockno) && bufs[i].blockno !in pend
  }

  /** Every buffer taken has been given back: references do not grow, locked ones are untouched. */
  predicate GivenBack(was: seq<Buf>, now: seq<Buf>) {
    && |was| == |now|
    && forall i :: 0 <= i < |now| ==> now[i].refcnt <= was[i].refcnt && (now[i].locked ==> now[i] == was[i])
  }

  lemma QuietUnlocked(bufs: seq<Buf>, where: map<Key, nat>, dev: nat, g: Geometry, pend: set<nat>, b: nat)
    requires Quiet(bufs, dev, g, pend) && Indexed(bufs, where) && (!g.Home(b) || b in pend)
    ensures Unlocked(bufs, where, dev, b)
  {
    assert Open(INDEX);
    if Key(dev, b) in where {
      assert KeyOf(bufs[where[Key(dev, b)]]) == Key(dev, b);
    }
  }

  /** Taking a buffer for block x leaves the buffer of another block alone. */
  lemma StillUnlocked(was: seq<Buf>, was_: map<Key, nat>, now: seq<Buf>, now_: map<Key, nat>, dev: nat, x: nat, y: nat,
                      a: nat)
    requires Indexed(was, was_) && Indexed(now, now_) && dev != 0 && x != y && |now| == |was| && a < |was|
    requires now == was[a := now[a]] && KeyOf(now[a]) == Key(dev, x) && Unlocked(was, was_, dev, y)
    ensures Unlocked(now, now_, dev, y)
  {
    assert Open(INDEX);
    if Key(dev, y) in now_ {
      assert KeyOf(now[now_[Key(dev, y)]]) == Key(dev, y);
    }
  }

  lemma SpareLeft(was: seq<Buf>, now: seq<Buf>, a: nat)
    requires TwoSpare(was) && |now| == |was| && a < |was| && now == was[a := now[a]]
    ensures Spare(now)
  {
    var i, j :| 0 <= i < j < |was| && was[i].refcnt == 0 && was[j].refcnt == 0;
    assert now[if i == a then j else i].refcnt == 0;
  }

  lemma GivenBackTrans(a: seq<Buf>, b: seq<Buf>, c: seq<Buf>)
    requires GivenBack(a, b) && GivenBack(b, c)
    ensures GivenBack(a, c)
  {
  }

  lemma PairGivenBack(was: seq<Buf>, now: seq<Buf>, a: nat, b: nat)
    requires |was| == |now| && a < |was| && b < |was|
    requires forall i :: 0 <= i < |was| && i != a && i != b ==> now[i] == was[i]
    requires now[a].refcnt <= was[a].refcnt && now[b].refcnt <= was[b].refcnt && !now[a].locked && !now[b].locked
    ensures GivenBack(was, now)
  {
  }

  lemma StaysQuiet(was: seq<Buf>, now: seq<Buf>, dev: nat, g: Geometry, pend: set<nat>)
    requires Spare(was) && Quiet(was, dev, g, pend) && GivenBack(was, now)
    ensures Spare(now) && Quiet(now, dev, g, pend)
    ensures TwoSpare(was) ==> TwoSpare(now)
  {
    var i :| 0 <= i < |was| && was[i].refcnt == 0;
    assert now[i].refcnt == 0;
    if TwoSpare(was) {
      var i, j :| 0 <= i < j < |was| && was[i].refcnt == 0 && was[j].refcnt == 0;
      assert now[i].refcnt == 0 && now[j].refcnt == 0;
    }
  }

  /** The bytes of a locked buffer can become the logged bytes: no other buffer has that block. */
  lemma LogBytes(bufs: seq<Buf>, where: map<Key, nat>, dev: nat, flat: Disk, i: nat)
    requires Coherent(bufs, dev, flat) && Indexed(bufs, where) && dev != 0
    requires i < |bufs| && bufs[i].locked && bufs[i].dev == dev && bufs[i].blockno < |flat|
    ensures Coherent(bufs, dev, flat[bufs[i].blockno := bufs[i].data])
  {
    assert Open(INDEX);
    forall j | 0 <= j < |bufs| && j != i ensures KeyOf(bufs[j]) != KeyOf(bufs[i]) {}
  }

  lemma LogSlot(g: Geometry, disk: Disk, flat: Disk, lh: seq<nat>, b: nat, data: Block)
    requires Loggable(g, lh) && DiskOk(disk, flat, Elements(lh)) && g.Home(b) && b < |flat|
    requires |lh| < LOGSIZE && |lh| < g.size - 1
    ensures b in lh ==> DiskOk(disk, flat[b := data], Elements(lh))
    ensures b !in lh ==> Loggable(g, lh + [b]) && Elements(lh + [b]) == Elements(lh) + {b}
    ensures b !in lh ==> DiskOk(disk, flat[b := data], Elements(lh) + {b})
  {
  }

  /** bpin and the new slot of log.lh.block keep pins and pending blocks in step. */
  lemma PinNew(bufs: seq<Buf>, pins: seq<nat>, where: map<Key, nat>, dev: nat, pend: set<nat>, i: nat)
    requires PinsOk(bufs, pins, where, dev, pend) && Indexed(bufs, where) && dev != 0
    requires i < |bufs| && bufs[i].dev == dev && bufs[i].valid && bufs[i].blockno !in pend
    ensures PinsOk(bufs[i := bufs[i].(refcnt := bufs[i].refcnt + 1)], pins[i := pins[i] + 1], where, dev,
                   pend + {bufs[i].blockno})
  {
    assert Open(INDEX);
    forall j | 0 <= j < |bufs| && j != i ensures KeyOf(bufs[j]) != KeyOf(bufs[i]) {}
  }

  /** bunpin of a pending block. */
  lemma PinDrop(bufs: seq<Buf>, pins: seq<nat>, where: map<Key, nat>, dev: nat, pend: set<nat>, i: nat)
    requires PinsOk(bufs, pins, where, dev, pend) && Indexed(bufs, where) && dev != 0
    requires i < |bufs| && bufs[i].dev == dev && bufs[i].blockno in pend && bufs[i].refcnt >= 1
    ensures pins[i] == 1
    ensures PinsOk(bufs[i := bufs[i].(refcnt := bufs[i].refcnt - 1)], pins[i := 0], where, dev,
                   pend - {bufs[i].blockno})
  {
    assert Open(INDEX);
    forall j | 0 <= j < |bufs| && j != i ensures KeyOf(bufs[j]) != KeyOf(bufs[i]) {}
  }

  /** The blocks of the buffers, in buffer order. */
  ghost function Blocknos(bufs: seq<Buf>): (s: seq<nat>)
    ensures |s| == |bufs|
  {
    seq(|bufs|, i requires 0 <= i < |bufs| => bufs[i].blockno)
  }

  /** The transaction lh pins its buffers, and nobody else refers to any. */
  ghost predicate OnlyPinned(bufs: seq<Buf>, pins: seq<nat>, where: map<Key, nat>, dev: nat, lh: seq<nat>) {
    && |bufs| == NBUF && PinsOk(bufs, pins, where, dev, Elements(lh)) && Indexed(bufs, where) && dev != 0
       && Distinct(lh)
    && forall i :: 0 <= i < NBUF ==> bufs[i].refcnt == pins[i]
  }

  /** With no process holding a buffer, commit finds one to work with exactly when the
      transaction does not fill the cache; otherwise bget panics with "no buffers". */
  lemma CommitFindsBuffer(bufs: seq<Buf>, pins: seq<nat>, where: map<Key, nat>, dev: nat, lh: seq<nat>)
    requires OnlyPinned(bufs, pins, where, dev, lh)
    ensures Spare(bufs) <==> |lh| < NBUF
  {
    if Spare(bufs) {
      var free :| 0 <= free < NBUF && bufs[free].refcnt == 0;
      OneUnpinned(bufs, pins, where, dev, lh, free);
    } else {
      AllPinned(bufs, pins, where, dev, lh);
    }
  }

  /** Some transaction that fits the log leaves its commit without a buffer. */
  ghost predicate CanStarve(g: Geometry) {
    exists bufs, pins, where, dev, lh :: Loggable(g, lh) && OnlyPinned(bufs, pins, where, dev, lh) && !Spare(bufs)
  }

  /** The cache in which the blocks of lh have been logged, one buffer each. */
  lemma FullCache(dev: nat, lh: seq<nat>) returns (bufs: seq<Buf>, pins: seq<nat>, where: map<Key, nat>)
    requires dev != 0 && |lh| == NBUF && Distinct(lh)
    ensures OnlyPinned(bufs, pins, where, dev, lh) && !Spare(bufs)
  {
    bufs := seq(NBUF, i requires 0 <= i < NBUF => Buf(true, dev, lh[i], false, 1, ZeroBlock));
    pins := seq(NBUF, i => 1);
    where := map i | 0 <= i < NBUF :: Key(dev, lh[i]) := i;
    forall b | b in Elements(lh) ensures Key(dev, b) in where {
      var i :| 0 <= i < NBUF && lh[i] == b;
    }
    assert Indexed(bufs, where);
  }

  /** The i-th home block. */
  function HomeAt(g: Geometry, i: nat): nat { if i < g.start then i else i + g.size }

  /** Distinct home blocks are at most as many as there are blocks outside the log area. */
  lemma HomeBlocks(g: Geometry, lh: seq<nat>)
    requires g.Ok() && Distinct(lh) && forall t :: 0 <= t < |lh| ==> g.Home(lh[t])
    ensures |lh| <= g.blocks - g.size
  {
    var ranks: seq<nat> := seq(|lh|, t requires 0 <= t < |lh| => if lh[t] < g.start then lh[t] else lh[t] - g.size);
    forall i, j | 0 <= i < j < |ranks| ensures ranks[i] != ranks[j] {
      assert lh[i] != lh[j] && g.Home(lh[i]) && g.Home(lh[j]);
    }
    forall x | x in ranks ensures x < g.blocks - g.size {
      var t :| 0 <= t < |ranks| && ranks[t] == x;
      assert g.Home(lh[t]);
    }
    BelowCount(ranks, g.blocks - g.size);
  }

  /** A commit can be left without a buffer exactly if the log area is larger than the cache, and
      there are enough blocks to fill it: never with the 30 log blocks that mkfs lays out. */
  lemma StarvesExactly(g: Geometry)
    requires g.Ok()
    ensures CanStarve(g) <==> g.size > NBUF && g.blocks - g.size >= NBUF
  {
    if CanStarve(g) {
      var bufs, pins, where, dev, lh :| Loggable(g, lh) && OnlyPinned(bufs, pins, where, dev, lh) && !Spare(bufs);
      CommitFindsBuffer(bufs, pins, where, dev, lh);
      HomeBlocks(g, lh);
    }
    if g.size > NBUF && g.blocks - g.size >= NBUF {
      var lh := seq(NBUF, i requires 0 <= i < NBUF => HomeAt(g, i));
      assert Loggable(g, lh);
      var bufs, pins, where := FullCache(1, lh);
    }
  }

  lemma OneUnpinned(bufs: seq<Buf>, pins: seq<nat>, where: map<Key, nat>, dev: nat, lh: seq<nat>, free: nat)
    requires |bufs| == NBUF && PinsOk(bufs, pins, where, dev, Elements(lh)) && Indexed(bufs, where) && Distinct(lh)
    requires free < NBUF && pins[free] == 0
    ensures |lh| < NBUF
  {
    assert Open(INDEX);
    var held := seq(|lh|, t requires 0 <= t < |lh| => if Key(dev, lh[t]) in where then where[Key(dev, lh[t])] else 0);
    forall t: nat | t < |lh| ensures held[t] < NBUF && KeyOf(bufs[held[t]]) == Key(dev, lh[t]) && held[t] != free {
      assert lh[t] in Elements(lh);
    }
    assert Distinct(held);
    assert free !in held;
    BelowCount(held, NBUF);
  }

  lemma AllPinned(bufs: seq<Buf>, pins: seq<nat>, where: map<Key, nat>, dev: nat, lh: seq<nat>)
    requires |bufs| == NBUF && PinsOk(bufs, pins, where, dev, Elements(lh)) && Indexed(bufs, where) && dev != 0
             && Distinct(lh)
    requires forall i :: 0 <= i < NBUF ==> bufs[i].refcnt == pins[i] && bufs[i].refcnt != 0
    ensures NBUF <= |lh|
  {
    assert Open(INDEX);
    var s := Blocknos(bufs);
    forall i | 0 <= i < NBUF ensures bufs[i].dev == dev && s[i] in Elements(lh) {
      assert pins[i] == 1;
    }
    forall i, j | 0 <= i < j < NBUF ensures s[i] != s[j] {
      assert KeyOf(bufs[i]) in where && KeyOf(bufs[j]) in where;
    }
    DistinctCount(s);
    DistinctCount(lh);
    SubsetCount(Elements(s), Elements(lh));
  }

  class Log {
    const cache: Cache
    const dev: nat
    const g: Geometry
    var lh: seq<nat>        // log.lh.block[0 .. log.lh.n]
    ghost var flat: Disk    // what reading each block gives

    /** The invariant while the blocks pend are logged and not yet installed; see Details. */
    ghost predicate Inv(pend: set<nat>)
      reads this, cache
    {
      && dev != 0 && g.Ok() && |flat| == g.blocks == |cache.disk|
      && |cache.bufs| == |cache.refs| == |cache.pins| == NBUF
      && DevicesOk(cache.bufs, dev, g.blocks)
      && AllHome(g, pend)
      && forall n {:trigger Open(n)} :: Open(n) && n == 0 ==> Details(pend)
    }

    ghost predicate Details(pend: set<nat>)
      reads this, cache
    {
      && cache.Valid()
      && Coherent(cache.bufs, dev, flat)
      && PinsOk(cache.bufs, cache.pins, cache.where, dev, pend)
      && DiskOk(cache.disk, flat, pend)
    }

    ghost predicate Valid()
      reads this, cache
    {
      Inv(Elements(lh)) && Loggable(g, lh)
    }

    constructor (cache: Cache, dev: nat, g: Geometry)
      requires cache.Valid() && dev != 0 && g.Ok() && |cache.disk| == g.blocks
      requires forall i :: 0 <= i < NBUF ==> cache.bufs[i].dev == 0 && cache.pins[i] == 0
      ensures Valid() && this.cache == cache && this.dev == dev && this.g == g && lh == [] && flat == cache.disk
    {
      this.cache, this.dev, this.g := cache, dev, g;
      lh, flat := [], cache.disk;
    }

    lemma NotLocked(pend: set<nat>, all: set<nat>, b: nat)
      requires Inv(pend) && Quiet(cache.bufs, dev, g, all) && (!g.Home(b) || b in all)
      ensures Unlocked(cache.bufs, cache.where, dev, b)
    {
      assert Open(0);
      QuietUnlocked(cache.bufs, cache.where, dev, g, all, b);
    }

    /** With nothing pending the disk is the flat store. */
    lemma DiskIsFlat()
      requires Inv({})
      ensures DiskOk(cache.disk, flat, {}) && cache.disk == flat
    {
      assert Open(0);
    }

    lemma DiskFollows(pend: set<nat>)
      requires Inv(pend)
      ensures DiskOk(cache.disk, flat, pend)
    {
      assert Open(0);
    }

    /** bread, first half: a reference to the buffer of block b. */
    method Reserve(b: nat, ghost pend: set<nat>) returns (i: nat)
      requires Inv(pend) && b < g.blocks
      requires Key(dev, b) in cache.where || Spare(cache.bufs)
      modifies cache`bufs, cache`refs, cache`where
      ensures Inv(pend) && i < NBUF && KeyOf(cache.bufs[i]) == Key(dev, b) && cache.refs[i] >= 1
      ensures cache.bufs == old(cache.bufs)[i := cache.bufs[i]]
      ensures cache.bufs[i].refcnt == old(cache.bufs[i].refcnt) + 1
      ensures old(Key(dev, b) in cache.where) ==>
              cache.where == old(cache.where) && i == old(cache.where[Key(dev, b)])
                && old(KeyOf(cache.bufs[i])) == Key(dev, b)
      ensures old(Key(dev, b) !in cache.where) ==>
                && old(cache.bufs[i].refcnt == 0)
                && cache.where == old((cache.where - {KeyOf(cache.bufs[i])})[Key(dev, b) := i])
      ensures cache.bufs[i].locked ==> old(Key(dev, b) in cache.where && cache.bufs[i].locked)
    {
      assert Open(0);
      var r := cache.Get(dev, b);
      i := r.value;
    }

    /** bread, second half: wait for the lock and fill the buffer. */
    method Acquire(i: nat, ghost pend: set<nat>)
      requires Inv(pend) && i < NBUF && cache.bufs[i].dev == dev && cache.refs[i] >= 1 && !cache.bufs[i].locked
      modifies cache`bufs
      ensures Inv(pend)
      ensures cache.bufs == old(cache.bufs)[i := old(cache.bufs[i]).(locked := true, valid := true,
                                                                     data := flat[old(cache.bufs[i].blockno)])]
    {
      assert Open(0);
      cache.LockAndFill(i);
    }

    /** bread: the bytes are the latest logged bytes of the block. */
    method Bread(b: nat, ghost pend: set<nat>) returns (i: nat)
      requires Inv(pend) && b < g.blocks
      requires Key(dev, b) in cache.where || Spare(cache.bufs)
      requires Unlocked(cache.bufs, cache.where, dev, b)
      modifies cache`bufs, cache`refs, cache`where
      ensures Inv(pend) && i < NBUF && Held(cache.bufs[i], dev, b, flat)
      ensures cache.bufs == old(cache.bufs)[i := cache.bufs[i]]
      ensures cache.bufs[i].refcnt == old(cache.bufs[i].refcnt) + 1
      ensures old(Key(dev, b) in cache.where) ==>
              cache.where == old(cache.where) && i == old(cache.where[Key(dev, b)])
                && old(KeyOf(cache.bufs[i])) == Key(dev, b)
      ensures old(Key(dev, b) !in cache.where) ==>
                && old(cache.bufs[i].refcnt == 0)
                && cache.where == old((cache.where - {KeyOf(cache.bufs[i])})[Key(dev, b) := i])
    {
      i := Reserve(b, pend);
      Acquire(i, pend);
    }

    /** The lock holder edits the buffer. */
    method Edit(i: nat, data: Block, ghost pend: set<nat>)
      requires Inv(pend) && i < NBUF && cache.bufs[i].locked
      modifies cache`bufs
      ensures Inv(pend) && cache.bufs == old(cache.bufs)[i := old(cache.bufs[i]).(data := data)]
    {
      assert Open(0);
      cache.Store(i, data);
    }

    /** brelse of a buffer whose edits, if any, have been logged or written. */
    method Brelse(i: nat, ghost pend: set<nat>)
      requires Inv(pend) && i < NBUF && Held(cache.bufs[i], dev, cache.bufs[i].blockno, flat)
      modifies cache`bufs, cache`refs, cache`next, cache`prev, cache`order, cache`stamp, cache`clock
      ensures Inv(pend)
      ensures cache.bufs == old(cache.bufs)[i := old(cache.bufs[i]).(locked := false,
                                                                     refcnt := old(cache.bufs[i].refcnt) - 1)]
    {
      assert Open(0);
      cache.Brelse(i);
    }

    /** bwrite by the log: the flat store follows the disk. */
    method WriteThrough(i: nat, ghost w: Write, ghost pend: set<nat>)
      requires Inv(pend) && i < NBUF && cache.bufs[i].locked
      requires KeyOf(cache.bufs[i]) == Key(dev, w.at) && cache.bufs[i].data == w.data
      modifies cache`disk, cache`writes, this`flat
      ensures Inv(pend)
      ensures cache.disk == old(cache.disk)[w.at := w.data] && flat == old(flat)[w.at := w.data]
      ensures cache.writes == old(cache.writes) + [w]
    {
      assert Open(0);
      LogBytes(cache.bufs, cache.where, dev, flat, i);
      cache.Bwrite(i);
      flat := flat[cache.bufs[i].blockno := cache.bufs[i].data];
    }

    /** The absorption loop of log_write: the slot of block b, or the first unused slot. */
    method FindSlot(b: nat) returns (k: nat)
      ensures k <= |lh|
      ensures if b in lh then k < |lh| && lh[k] == b else k == |lh|
    {
      k := 0;
      while k < |lh| && lh[k] != b
        invariant 0 <= k <= |lh| && b !in lh[..k]
      {
        k := k + 1;
      }
    }

    /** log_write. The two clauses on |lh| are its panic "too big a transaction". */
    method LogWrite(i: nat)
      requires Valid() && i < NBUF && cache.bufs[i].locked && cache.bufs[i].valid
      requires cache.bufs[i].dev == dev && g.Home(cache.bufs[i].blockno)
      requires |lh| < LOGSIZE && |lh| < g.size - 1
      modifies this, cache`bufs, cache`pins
      ensures Valid()
      ensures flat == old(flat[cache.bufs[i].blockno := cache.bufs[i].data])
      ensures lh == old(if cache.bufs[i].blockno in lh then lh else lh + [cache.bufs[i].blockno])
      ensures cache.bufs == old(cache.bufs)[i := cache.bufs[i]]
      ensures cache.bufs[i]
              == old(cache.bufs[i].(refcnt := cache.bufs[i].refcnt + if cache.bufs[i].blockno in lh then 0 else 1))
    {
      var b := cache.bufs[i].blockno;
      assert Open(0);
      var k := FindSlot(b);
      LogBytes(cache.bufs, cache.where, dev, flat, i);
      LogSlot(g, cache.disk, flat, lh, b, cache.bufs[i].data);
      flat := flat[b := cache.bufs[i].data];
      if k == |lh| {
        PinNew(cache.bufs, cache.pins, cache.where, dev, Elements(lh), i);
        cache.Bpin(i);
        lh := lh + [b];
      } else {
        lh := lh[k := b];
        assert lh == old(lh);
      }
    }

    /** Two breads in a row, as write_log and install_trans do them. */
    method BreadPair(x: nat, y: nat, ghost pend: set<nat>) returns (a: nat, b: nat)
      requires Inv(pend) && x < g.blocks && y < g.blocks && x != y
      requires Unlocked(cache.bufs, cache.where, dev, x) && Unlocked(cache.bufs, cache.where, dev, y)
      requires Spare(cache.bufs) && (y in pend || TwoSpare(cache.bufs))
      modifies cache`bufs, cache`refs, cache`where
      ensures Inv(pend) && a < NBUF && b < NBUF && a != b
      ensures Held(cache.bufs[a], dev, x, flat) && Held(cache.bufs[b], dev, y, flat)
      ensures forall i :: 0 <= i < NBUF && i != a && i != b ==> cache.bufs[i] == old(cache.bufs)[i]
      ensures cache.bufs[a].refcnt == old(cache.bufs[a].refcnt) + 1
              && cache.bufs[b].refcnt == old(cache.bufs[b].refcnt) + 1
    {
      ghost var bufs, where := cache.bufs, cache.where;
      assert Indexed(bufs, where) by { assert Open(0); }
      a := Bread(x, pend);
      assert Indexed(cache.bufs, cache.where) by { assert Open(0); }
      StillUnlocked(bufs, where, cache.bufs, cache.where, dev, x, y, a);
      assert y in pend ==> Key(dev, y) in cache.where by { assert Open(0); }
      if TwoSpare(bufs) { SpareLeft(bufs, cache.bufs, a); }
      b := Bread(y, pend);
    }

    /** memmove from one held buffer to another, and bwrite of the target: together the write w. */
    method CopyAndWrite(dst: nat, src: nat, ghost w: Write, ghost pend: set<nat>)
      requires Inv(pend) && dst < NBUF && src < NBUF && dst != src
      requires cache.bufs[dst].locked && KeyOf(cache.bufs[dst]) == Key(dev, w.at) && cache.bufs[src].data == w.data
      modifies cache`bufs, cache`disk, cache`writes, this`flat
      ensures Inv(pend)
      ensures cache.bufs == old(cache.bufs)[dst := old(cache.bufs[dst]).(data := w.data)]
      ensures cache.disk == old(cache.disk)[w.at := w.data] && flat == old(flat)[w.at := w.data]
      ensures cache.writes == old(cache.writes) + [w]
    {
      Edit(dst, cache.bufs[src].data, pend);
      WriteThrough(dst, w, pend);
    }

    method BrelsePair(a: nat, b: nat, ghost pend: set<nat>)
      requires Inv(pend) && a < NBUF && b < NBUF && a != b
      requires Held(cache.bufs[a], dev, cache.bufs[a].blockno, flat)
               && Held(cache.bufs[b], dev, cache.bufs[b].blockno, flat)
      modifies cache`bufs, cache`refs, cache`next, cache`prev, cache`order, cache`stamp, cache`clock
      ensures Inv(pend)
      ensures forall i :: 0 <= i < NBUF && i != a && i != b ==> cache.bufs[i] == old(cache.bufs)[i]
      ensures cache.bufs[a].refcnt == old(cache.bufs[a].refcnt) - 1
              && cache.bufs[b].refcnt == old(cache.bufs[b].refcnt) - 1
      ensures !cache.bufs[a].locked && !cache.bufs[b].locked
    {
      Brelse(a, pend);
      Brelse(b, pend);
    }

    /** One turn of write_log up to the releases. */
    method FetchAndLog(t: nat, ghost w: Write, ghost pend: set<nat>) returns (to: nat, from: nat)
      requires Inv(pend) && t < |lh| && lh[t] in pend && t + 1 < g.size
      requires Spare(cache.bufs) && Quiet(cache.bufs, dev, g, pend)
      requires w.at == g.start + 1 + t && w.data == flat[lh[t]]
      modifies cache`bufs, cache`refs, cache`where, cache`disk, cache`writes, this`flat
      ensures Inv(pend) && to < NBUF && from < NBUF && to != from
      ensures Held(cache.bufs[to], dev, w.at, flat) && Held(cache.bufs[from], dev, lh[t], flat)
      ensures forall i :: 0 <= i < NBUF && i != to && i != from ==> cache.bufs[i] == old(cache.bufs)[i]
      ensures cache.bufs[to].refcnt == old(cache.bufs[to].refcnt) + 1
      ensures cache.bufs[from].refcnt == old(cache.bufs[from].refcnt) + 1
      ensures cache.disk == old(cache.disk)[w.at := w.data] && flat == old(flat)[w.at := w.data]
      ensures cache.writes == old(cache.writes) + [w]
    {
      NotLocked(pend, pend, g.start + 1 + t);
      NotLocked(pend, pend, lh[t]);
      to, from := BreadPair(g.start + 1 + t, lh[t], pend);
      CopyAndWrite(to, from, w, pend);
    }

    /** One turn of write_log: copy the cached block lh[t] to its log block. */
    method CopyToLog(t: nat, ghost w: Write, ghost pend: set<nat>)
      requires Inv(pend) && t < |lh| && lh[t] in pend && t + 1 < g.size
      requires Spare(cache.bufs) && Quiet(cache.bufs, dev, g, pend)
      requires w.at == g.start + 1 + t && w.data == flat[lh[t]]
      modifies cache, this`flat
      ensures Inv(pend) && GivenBack(old(cache.bufs), cache.bufs)
      ensures cache.disk == old(cache.disk)[w.at := w.data] && flat == old(flat)[w.at := w.data]
      ensures cache.writes == old(cache.writes) + [w]
    {
      var to, from := FetchAndLog(t, w, pend);
      BrelsePair(from, to, pend);
      PairGivenBack(old(cache.bufs), cache.bufs, to, from);
    }

    /** write_log: the log area receives the newest cached bytes of every listed block. */
    method WriteLog()
      requires Valid() && Spare(cache.bufs) && Quiet(cache.bufs, dev, g, Elements(lh))
      modifies cache, this`flat
      ensures Valid() && GivenBack(old(cache.bufs), cache.bufs)
      ensures Issued(old(cache.disk), old(flat), old(cache.writes), cache.disk, flat, cache.writes,
                     LogCopies(g, lh, Payload(old(flat), lh)))
    {
      ghost var ws, pend := LogCopies(g, lh, Payload(flat, lh)), Elements(lh);
      var tail := 0;
      while tail < |lh|
        invariant 0 <= tail <= |lh| && Inv(pend)
        invariant GivenBack(old(cache.bufs), cache.bufs)
        invariant Issued(old(cache.disk), old(flat), old(cache.writes), cache.disk, flat, cache.writes, ws[..tail])
      {
        ghost var was := cache.bufs;
        StaysQuiet(old(cache.bufs), was, dev, g, pend);
        LogTurn(g, old(cache.disk), old(flat), old(cache.writes), cache.disk, flat, cache.writes, lh, tail);
        CopyToLog(tail, ws[tail], pend);
        GivenBackTrans(old(cache.bufs), was, cache.bufs);
        tail := tail + 1;
      }
      assert ws[..tail] == ws;
    }

    /** The loop of write_head. */
    method BuildHeader(h: Block) returns (hb: Block)
      requires Loggable(g, lh) && g.Ok()
      ensures hb == PutHeader(h, lh)
    {
      hb := PutWord(h, 0, |lh|);
      var k := 0;
      while k < |lh|
        invariant 0 <= k <= |lh| && hb == PutBlocks(PutWord(h, 0, |lh|), lh, k)
      {
        hb := PutWord(hb, k + 1, lh[k]);
        k := k + 1;
      }
    }

    /** bwrite and brelse of an edited buffer of the log. */
    method WriteBack(i: nat, ghost w: Write, ghost pend: set<nat>)
      requires Inv(pend) && i < NBUF && cache.bufs[i].locked && cache.bufs[i].valid && cache.bufs[i].refcnt >= 1
      requires KeyOf(cache.bufs[i]) == Key(dev, w.at) && cache.bufs[i].data == w.data
      modifies cache, this`flat
      ensures Inv(pend)
      ensures cache.bufs == old(cache.bufs)[i := old(cache.bufs[i]).(locked := false,
                                                                     refcnt := old(cache.bufs[i].refcnt) - 1)]
      ensures cache.disk == old(cache.disk)[w.at := w.data] && flat == old(flat)[w.at := w.data]
      ensures cache.writes == old(cache.writes) + [w]
    {
      WriteThrough(i, w, pend);
      Brelse(i, pend);
    }

    /** write_head: the header block receives the count and the list. */
    method WriteHead(ghost pend: set<nat>) returns (ghost w: Write)
      requires Inv(pend) && Loggable(g, lh) && Spare(cache.bufs) && Quiet(cache.bufs, dev, g, pend)
      modifies cache, this`flat
      ensures Inv(pend) && GivenBack(old(cache.bufs), cache.bufs)
      ensures w == Write(g.start, PutHeader(old(flat)[g.start], lh))
      ensures cache.disk == old(cache.disk)[w.at := w.data] && flat == old(flat)[w.at := w.data]
      ensures cache.writes == old(cache.writes) + [w]
    {
      NotLocked(pend, pend, g.start);
      var i := Bread(g.start, pend);
      var hb := BuildHeader(cache.bufs[i].data);
      Edit(i, hb, pend);
      w := Write(g.start, hb);
      WriteBack(i, w, pend);
    }

    /** bunpin inside install_trans. */
    method Unpin(i: nat, ghost pend: set<nat>)
      requires Inv(pend) && i < NBUF && cache.bufs[i].dev == dev && cache.bufs[i].blockno in pend
      requires cache.disk[cache.bufs[i].blockno] == flat[cache.bufs[i].blockno] && cache.bufs[i].refcnt >= 1
      modifies cache`bufs, cache`pins
      ensures Inv(pend - {old(cache.bufs[i].blockno)})
      ensures cache.bufs[i].locked ==> cache.bufs[i].refcnt >= 1
      ensures cache.bufs == old(cache.bufs)[i := old(cache.bufs[i]).(refcnt := old(cache.bufs[i].refcnt) - 1)]
    {
      assert Open(0);
      PinDrop(cache.bufs, cache.pins, cache.where, dev, pend, i);
      cache.Bunpin(i);
    }

    /** One turn of install_trans up to the releases. */
    method FetchAndInstall(t: nat, ghost w: Write, ghost pend: set<nat>, ghost all: set<nat>)
      returns (lbuf: nat, dbuf: nat)
      requires Inv(pend) && t < |lh| && lh[t] in all && t + 1 < g.size && lh[t] < g.blocks && g.Home(lh[t])
      requires lh[t] in pend || TwoSpare(cache.bufs)
      requires Spare(cache.bufs) && Quiet(cache.bufs, dev, g, all)
      requires w.at == lh[t] && w.data == flat[g.start + 1 + t]
      modifies cache`bufs, cache`refs, cache`where, cache`disk, cache`writes, this`flat
      ensures Inv(pend) && lbuf < NBUF && dbuf < NBUF && lbuf != dbuf
      ensures Held(cache.bufs[lbuf], dev, g.start + 1 + t, flat) && Held(cache.bufs[dbuf], dev, w.at, flat)
      ensures forall i :: 0 <= i < NBUF && i != lbuf && i != dbuf ==> cache.bufs[i] == old(cache.bufs)[i]
      ensures cache.bufs[lbuf].refcnt == old(cache.bufs[lbuf].refcnt) + 1
      ensures cache.bufs[dbuf].refcnt == old(cache.bufs[dbuf].refcnt) + 1
      ensures cache.disk == old(cache.disk)[w.at := w.data] && flat == old(flat)[w.at := w.data]
      ensures cache.writes == old(cache.writes) + [w]
    {
      NotLocked(pend, all, g.start + 1 + t);
      NotLocked(pend, all, lh[t]);
      lbuf, dbuf := BreadPair(g.start + 1 + t, lh[t], pend);
      CopyAndWrite(dbuf, lbuf, w, pend);
    }

    /** The end of a turn of install_trans: bunpin unless recovering, then both releases. */
    method FinishInstall(lbuf: nat, dbuf: nat, recovering: bool, ghost b: nat, ghost pend: set<nat>)
      returns (ghost rest: set<nat>)
      requires Inv(pend) && lbuf < NBUF && dbuf < NBUF && lbuf != dbuf
      requires Held(cache.bufs[lbuf], dev, cache.bufs[lbuf].blockno, flat)
      requires Held(cache.bufs[dbuf], dev, b, flat) && cache.bufs[dbuf].refcnt >= 1
      requires recovering || (b in pend && b < |cache.disk| && cache.disk[b] == flat[b])
      modifies cache`bufs, cache`pins, cache`refs, cache`next, cache`prev, cache`order, cache`stamp, cache`clock
      ensures rest == (if recovering then pend else pend - {b}) && Inv(rest)
      ensures forall i :: 0 <= i < NBUF && i != lbuf && i != dbuf ==> cache.bufs[i] == old(cache.bufs)[i]
      ensures cache.bufs[lbuf].refcnt < old(cache.bufs[lbuf].refcnt)
              && cache.bufs[dbuf].refcnt < old(cache.bufs[dbuf].refcnt)
      ensures !cache.bufs[lbuf].locked && !cache.bufs[dbuf].locked
    {
      rest := pend;
      if !recovering {
        Unpin(dbuf, pend);
        rest := pend - {b};
      }
      BrelsePair(lbuf, dbuf, rest);
    }

    /** One turn of install_trans: copy log block t home and, unless recovering, unpin it. */
    method InstallOne(t: nat, recovering: bool, ghost w: Write, ghost pend: set<nat>, ghost all: set<nat>)
      returns (ghost rest: set<nat>)
      requires Inv(pend) && t < |lh| && lh[t] in all && t + 1 < g.size && lh[t] < g.blocks && g.Home(lh[t])
      requires if recovering then TwoSpare(cache.bufs) else lh[t] in pend
      requires Spare(cache.bufs) && Quiet(cache.bufs, dev, g, all)
      requires w.at == lh[t] && w.data == flat[g.start + 1 + t]
      modifies cache, this`flat
      ensures rest == (if recovering then pend else pend - {lh[t]}) && Inv(rest)
      ensures GivenBack(old(cache.bufs), cache.bufs)
      ensures cache.disk == old(cache.disk)[w.at := w.data] && flat == old(flat)[w.at := w.data]
      ensures cache.writes == old(cache.writes) + [w]
    {
      var lbuf, dbuf := FetchAndInstall(t, w, pend, all);
      rest := FinishInstall(lbuf, dbuf, recovering, lh[t], pend);
      PairGivenBack(old(cache.bufs), cache.bufs, lbuf, dbuf);
    }

    /** The same turn, counted among the writes issued since disk0, flat0 and hist0. */
    method InstallStep(t: nat, recovering: bool, ghost pend: set<nat>, ghost disk0: Disk, ghost flat0: Disk,
                       ghost hist0: seq<Write>)
      returns (ghost rest: set<nat>)
      requires Inv(pend) && Loggable(g, lh) && t < |lh| && |disk0| == |flat0| == g.blocks
      requires recovering ==> TwoSpare(cache.bufs)
      requires Spare(cache.bufs) && Quiet(cache.bufs, dev, g, Elements(lh))
      requires pend == if recovering then {} else Elements(lh[t..])
      requires Issued(disk0, flat0, hist0, cache.disk, flat, cache.writes, Installs(g, flat0, lh)[..t])
      modifies cache, this`flat
      ensures Inv(rest) && GivenBack(old(cache.bufs), cache.bufs)
      ensures rest == if recovering then {} else Elements(lh[t + 1..])
      ensures Issued(disk0, flat0, hist0, cache.disk, flat, cache.writes, Installs(g, flat0, lh)[..t + 1])
    {
      DropOne(lh, t);
      InstallTurn(g, disk0, flat0, hist0, cache.disk, flat, cache.writes, lh, t);
      rest := InstallOne(t, recovering, Installs(g, flat0, lh)[t], pend, Elements(lh));
    }

    /** install_trans: every listed home block receives its log copy. */
    method InstallTrans(recovering: bool)
      requires Loggable(g, lh) && Inv(if recovering then {} else Elements(lh))
      requires recovering ==> TwoSpare(cache.bufs)
      requires Spare(cache.bufs) && Quiet(cache.bufs, dev, g, Elements(lh))
      modifies cache, this`flat
      ensures Inv({}) && GivenBack(old(cache.bufs), cache.bufs)
      ensures Issued(old(cache.disk), old(flat), old(cache.writes), cache.disk, flat, cache.writes,
                     Installs(g, old(flat), lh))
    {
      ghost var ws, all := Installs(g, flat, lh), Elements(lh);
      ghost var pend := if recovering then {} else all;
      var tail := 0;
      assert lh[tail..] == lh;
      while tail < |lh|
        invariant 0 <= tail <= |lh| && Inv(pend)
        invariant pend == if recovering then {} else Elements(lh[tail..])
        invariant GivenBack(old(cache.bufs), cache.bufs)
        invariant Issued(old(cache.disk), old(flat), old(cache.writes), cache.disk, flat, cache.writes, ws[..tail])
      {
        ghost var was := cache.bufs;
        StaysQuiet(old(cache.bufs), was, dev, g, all);
        pend := InstallStep(tail, recovering, pend, old(cache.disk), old(flat), old(cache.writes));
        GivenBackTrans(old(cache.bufs), was, cache.bufs);
        tail := tail + 1;
      }
      assert ws[..tail] == ws;
      assert pend == {};
    }

    /** The first half of commit: write_log and the header write, the commit point. */
    method LogTransaction() returns (ghost h: Block)
      requires Valid() && Spare(cache.bufs) && Quiet(cache.bufs, dev, g, Elements(lh))
      modifies cache, this`flat
      ensures Valid() && GivenBack(old(cache.bufs), cache.bufs)
      ensures h == PutHeader(old(flat)[g.start], lh)
      ensures Issued(old(cache.disk), old(flat), old(cache.writes), cache.disk, flat, cache.writes,
                     LogCopies(g, lh, Payload(old(flat), lh)) + [Write(g.start, h)])
      ensures flat == Apply(old(flat), LogCopies(g, lh, Payload(old(flat), lh)))[g.start := h]
    {
      ghost var ws, pend := LogCopies(g, lh, Payload(flat, lh)), Elements(lh);
      WriteLog();
      ApplyUntouched(old(flat), ws, g.start);
      StaysQuiet(old(cache.bufs), cache.bufs, dev, g, pend);
      ghost var was, disk1, flat1, hist1 := cache.bufs, cache.disk, flat, cache.writes;
      ghost var w := WriteHead(pend);
      h := w.data;
      GivenBackTrans(old(cache.bufs), was, cache.bufs);
      IssueOne(old(cache.disk), old(flat), old(cache.writes), disk1, flat1, hist1, ws, w);
    }

    /** The second half: install, then clear the log. */
    method InstallTransaction(recovering: bool)
      requires Loggable(g, lh) && Inv(if recovering then {} else Elements(lh))
      requires recovering ==> TwoSpare(cache.bufs)
      requires Spare(cache.bufs) && Quiet(cache.bufs, dev, g, Elements(lh))
      modifies cache, this
      ensures Inv({}) && lh == [] && GivenBack(old(cache.bufs), cache.bufs)
      ensures Issued(old(cache.disk), old(flat), old(cache.writes), cache.disk, flat, cache.writes,
                     Installs(g, old(flat), old(lh)) + [Write(g.start, PutWord(old(flat)[g.start], 0, 0))])
    {
      ghost var ws := Installs(g, flat, lh);
      InstallTrans(recovering);
      ApplyUntouched(old(flat), ws, g.start);
      StaysQuiet(old(cache.bufs), cache.bufs, dev, g, Elements(lh));
      lh := [];
      ghost var was, disk1, flat1, hist1 := cache.bufs, cache.disk, flat, cache.writes;
      ghost var w := WriteHead({});
      GivenBackTrans(old(cache.bufs), was, cache.bufs);
      IssueOne(old(cache.disk), old(flat), old(cache.writes), disk1, flat1, hist1, ws, w);
    }

    /** commit: the block writes it issues are CommitWrites, so CrashAtomicity applies to every
        prefix of them; when it returns, the disk has caught up with the flat store. */
    method Commit()
      requires Valid() && WfDisk(g, cache.disk) && HeaderN(g, cache.disk) == 0
      requires Spare(cache.bufs) && Quiet(cache.bufs, dev, g, Elements(lh))
      modifies cache, this
      ensures Valid() && lh == [] && WfDisk(g, cache.disk) && HeaderN(g, cache.disk) == 0
      ensures var ws := if old(lh) == [] then []
              else CommitWrites(g, old(cache.disk)[g.start], old(lh), Payload(old(flat), old(lh)));
              cache.writes == old(cache.writes) + ws && cache.disk == Apply(old(cache.disk), ws)
      ensures forall b :: g.Home(b) ==> flat[b] == old(flat)[b] && cache.disk[b] == old(flat)[b]
    {
      DiskFollows(Elements(lh));
      if |lh| > 0 {
        ghost var h := LogTransaction();
        ghost var disk1, flat1, hist1 := cache.disk, flat, cache.writes;
        StaysQuiet(old(cache.bufs), cache.bufs, dev, g, Elements(lh));
        InstallTransaction(false);
        DiskIsFlat();
        assert Elements(lh) == {};
        CommitComposed(g, old(cache.disk), old(flat), old(cache.writes), disk1, flat1, hist1,
                       cache.disk, flat, cache.writes, old(lh), h);
      }
    }

    /** read_head: the in-memory header becomes the one on disk. */
    method ReadHead()
      requires Inv({}) && WfDisk(g, cache.disk) && Spare(cache.bufs) && Quiet(cache.bufs, dev, g, {})
      modifies cache, this`lh
      ensures Inv({}) && GivenBack(old(cache.bufs), cache.bufs)
      ensures flat == cache.disk == old(cache.disk) && cache.writes == old(cache.writes)
      ensures lh == HeaderBlocks(g, flat)
    {
      NotLocked({}, {}, g.start);
      DiskIsFlat();
      var i := Bread(g.start, {});
      lh := DecodeHeader(cache.bufs[i].data);
      Brelse(i, {});
    }

    method DecodeHeader(h: Block) returns (list: seq<nat>)
      requires Word(h, 0) <= LOGSIZE
      ensures |list| == Word(h, 0) && forall t :: 0 <= t < |list| ==> list[t] == Word(h, 1 + t)
    {
      list := [];
      while |list| < Word(h, 0)
        invariant |list| <= Word(h, 0) && forall t :: 0 <= t < |list| ==> list[t] == Word(h, 1 + t)
      {
        list := list + [Word(h, 1 + |list|)];
      }
    }

    /** recover_from_log at boot: the block writes it issues are RecoverWrites, so RecoveryCrash
        applies to every prefix; when it returns, every home block is settled and the log empty. */
    method RecoverFromLog()
      requires Inv({}) && WfDisk(g, cache.disk) && TwoSpare(cache.bufs)
      requires forall i :: 0 <= i < NBUF ==> !cache.bufs[i].locked
      modifies cache, this
      ensures Valid() && lh == [] && flat == cache.disk && HeaderN(g, cache.disk) == 0
      ensures cache.writes == old(cache.writes) + RecoverWrites(g, old(cache.disk))
      ensures cache.disk == Recovered(g, old(cache.disk))
      ensures forall b :: g.Home(b) ==> flat[b] == Settled(g, old(cache.disk), b)
    {
      ReadHead();
      StaysQuiet(old(cache.bufs), cache.bufs, dev, g, {});
      assert Quiet(cache.bufs, dev, g, Elements(lh));
      InstallTransaction(true);
      assert Elements(lh) == {};
      RecoveredIsSettled(g, old(cache.disk));
    }
  }

  /** Only the pinned buffers are referred to, and nobody holds a lock. */
  ghost predicate AtRest(bufs: seq<Buf>, dev: nat, lh: seq<nat>) {
    forall i :: 0 <= i < |bufs| ==>
      !bufs[i].locked && bufs[i].refcnt == if bufs[i].dev == dev && bufs[i].blockno in lh then 1 else 0
  }

  lemma OneMoreResting(was: seq<Buf>, now: seq<Buf>, where: map<Key, nat>, dev: nat, lh: seq<nat>, i: nat, b: nat)
    requires AtRest(was, dev, lh) && Indexed(now, where) && dev != 0 && |now| == |was| && i < |was|
             && now == was[i := now[i]]
    requires KeyOf(now[i]) == Key(dev, b) && now[i].refcnt == 1 && !now[i].locked
    ensures AtRest(now, dev, lh + [b])
  {
    assert Open(INDEX);
    forall j | 0 <= j < |now| && j != i ensures KeyOf(now[j]) != KeyOf(now[i]) {}
  }

  lemma RestingSpare(log: Log)
    requires log.Valid() && AtRest(log.cache.bufs, log.dev, log.lh)
    ensures OnlyPinned(log.cache.bufs, log.cache.pins, log.cache.where, log.dev, log.lh)
    ensures Spare(log.cache.bufs) <==> |log.lh| < NBUF
  {
    assert Open(0);
    CommitFindsBuffer(log.cache.bufs, log.cache.pins, log.cache.where, log.dev, log.lh);
  }

  /** One bread, log_write and brelse after the other for NBUF home blocks: no call is refused, and
      then every buffer is pinned. Commit, whose first call is a bread of a log block, would find
      none. */
  method FillCache(log: Log)
    requires log.Valid() && log.lh == [] && AtRest(log.cache.bufs, log.dev, [])
    requires log.g.size > NBUF && log.g.blocks - log.g.size >= NBUF
    modifies log, log.cache
    ensures log.Valid() && |log.lh| == NBUF && AtRest(log.cache.bufs, log.dev, log.lh) && !Spare(log.cache.bufs)
  {
    var k := 0;
    while k < NBUF
      invariant 0 <= k == |log.lh| <= NBUF && log.Valid() && AtRest(log.cache.bufs, log.dev, log.lh)
      invariant forall t :: 0 <= t < k ==> log.lh[t] == HomeAt(log.g, t)
    {
      RestingSpare(log);
      ghost var bufs, lh := log.cache.bufs, log.lh;
      var i := log.Bread(HomeAt(log.g, k), Elements(log.lh));
      log.LogWrite(i);
      log.Brelse(i, Elements(log.lh));
      assert Indexed(log.cache.bufs, log.cache.where) by { assert Open(0); }
      OneMoreResting(bufs, log.cache.bufs, log.cache.where, log.dev, lh, i, HomeAt(log.g, k));
      k := k + 1;
    }
    RestingSpare(log);
  }
}
