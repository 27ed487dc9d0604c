/** The on-disk redo log of kernel/log.c seen from the disk: which block writes commit() and
    recover_from_log() issue, in which order, and what a crash between any two of them leaves. */
module LogSpec {
  import opened Blocks
  import opened Params
  import opened Counting

  datatype Write = Write(at: nat, data: Block)

  /** log.start, log.size and the size of the disk, in blocks. */
  datatype Geometry = Geometry(start: nat, size: nat, blocks: nat) {
    predicate Ok() { 0 < size && start + size <= blocks < UINT }
    /** A block outside the log area. */
    predicate Home(b: int) { 0 <= b < blocks && !(start <= b < start + size) }
  }

  /** A set of blocks that a transaction can hold: distinct, at home, and fitting the log area. */
  predicate Loggable(g: Geometry, lh: seq<nat>) {
    && |lh| <= LOGSIZE && |lh| < g.size
    && Distinct(lh)
    && forall t :: 0 <= t < |lh| ==> g.Home(lh[t])
  }

  predicate InRange(d: Disk, ws: seq<Write>) { forall i :: 0 <= i < |ws| ==> ws[i].at < |d| }

  /** The disk after the writes ws, oldest first. */
  function Apply(d: Disk, ws: seq<Write>): (r: Disk)
    requires InRange(d, ws)
    ensures |r| == |d|
  {
    if ws == [] then d
    else
      var last := ws[|ws| - 1];
      Apply(d, ws[..|ws| - 1])[last.at := last.data]
  }

  // ---- the header block ------------------------------------------------------------------

  function HeaderN(g: Geometry, d: Disk): nat
    requires g.Ok() && |d| == g.blocks
  {
    Word(d[g.start], 0)
  }

  function HeaderBlocks(g: Geometry, d: Disk): (s: seq<nat>)
    requires g.Ok() && |d| == g.blocks && HeaderN(g, d) <= LOGSIZE
  {
    seq(HeaderN(g, d), t requires 0 <= t < HeaderN(g, d) => Word(d[g.start], 1 + t))
  }

  /** The header block h with the first k slots of its block list overwritten. */
  function PutBlocks(h: Block, lh: seq<nat>, k: nat): Block
    requires k <= |lh| <= LOGSIZE && forall t :: 0 <= t < |lh| ==> lh[t] < UINT
  {
    if k == 0 then h else PutWord(PutBlocks(h, lh, k - 1), k, lh[k - 1])
  }

  /** What write_head stores: the count and the listed blocks; the slots behind keep old bytes. */
  function PutHeader(h: Block, lh: seq<nat>): Block
    requires |lh| <= LOGSIZE && forall t :: 0 <= t < |lh| ==> lh[t] < UINT
  {
    PutBlocks(PutWord(h, 0, |lh|), lh, |lh|)
  }

  lemma {:induction false} PutBlocksWord(h: Block, lh: seq<nat>, k: nat, j: nat)
    requires k <= |lh| <= LOGSIZE && j < WORDS && forall t :: 0 <= t < |lh| ==> lh[t] < UINT
    ensures Word(PutBlocks(h, lh, k), j) == if 1 <= j <= k then lh[j - 1] else Word(h, j)
  {
    if k > 0 {
      PutBlocksWord(h, lh, k - 1, j);
      WordOfPutWord(PutBlocks(h, lh, k - 1), k, j, lh[k - 1]);
    }
  }

  /** read_head after write_head gives the list back. */
  lemma HeaderRoundTrip(g: Geometry, d: Disk, h: Block, lh: seq<nat>)
    requires g.Ok() && |d| == g.blocks && Loggable(g, lh)
    requires d[g.start] == PutHeader(h, lh)
    ensures HeaderN(g, d) == |lh| && HeaderBlocks(g, d) == lh
  {
    PutBlocksWord(PutWord(h, 0, |lh|), lh, |lh|, 0);
    WordOfPutWord(h, 0, 0, |lh|);
    forall t | 0 <= t < |lh| ensures HeaderBlocks(g, d)[t] == lh[t] {
      PutBlocksWord(PutWord(h, 0, |lh|), lh, |lh|, 1 + t);
    }
  }

  /** A disk on which recovery makes sense: the header lists a loggable set of blocks. */
  predicate WfDisk(g: Geometry, d: Disk) {
    g.Ok() && |d| == g.blocks && HeaderN(g, d) <= LOGSIZE && Loggable(g, HeaderBlocks(g, d))
  }

  // ---- recovery --------------------------------------------------------------------------

  /** Copies of the log blocks to the listed home blocks (install_trans). */
  function Installs(g: Geometry, d: Disk, lh: seq<nat>): (ws: seq<Write>)
    requires g.Ok() && |d| == g.blocks && Loggable(g, lh)
    ensures InRange(d, ws) && |ws| == |lh|
  {
    seq(|lh|, t requires 0 <= t < |lh| => Write(lh[t], d[g.start + 1 + t]))
  }

  /** Every block write of recover_from_log, in order. */
  function RecoverWrites(g: Geometry, d: Disk): (ws: seq<Write>)
    requires WfDisk(g, d)
    ensures InRange(d, ws) && |ws| == HeaderN(g, d) + 1
  {
    Installs(g, d, HeaderBlocks(g, d)) + [Write(g.start, PutWord(d[g.start], 0, 0))]
  }

  function Recovered(g: Geometry, d: Disk): (r: Disk)
    requires WfDisk(g, d)
    ensures |r| == |d|
  {
    Apply(d, RecoverWrites(g, d))
  }

  /** What a home block holds once recovery has finished: its log copy if the header lists it. */
  ghost function Settled(g: Geometry, d: Disk, b: nat): Block
    requires WfDisk(g, d) && g.Home(b)
  {
    var lh := HeaderBlocks(g, d);
    if b in lh then var t :| 0 <= t < |lh| && lh[t] == b; d[g.start + 1 + t] else d[b]
  }

  lemma SettledAt(g: Geometry, d: Disk, t: nat)
    requires WfDisk(g, d) && t < HeaderN(g, d)
    ensures Settled(g, d, HeaderBlocks(g, d)[t]) == d[g.start + 1 + t]
  {
    assert HeaderBlocks(g, d)[t] in HeaderBlocks(g, d);
  }

  // ---- commit ----------------------------------------------------------------------------

  function LogCopies(g: Geometry, lh: seq<nat>, data: seq<Block>): (ws: seq<Write>)
    requires g.Ok() && Loggable(g, lh) && |data| == |lh|
    ensures |ws| == |lh| && forall i :: 0 <= i < |ws| ==> ws[i].at < g.blocks
  {
    seq(|lh|, t requires 0 <= t < |lh| => Write(g.start + 1 + t, data[t]))
  }

  function HomeCopies(g: Geometry, lh: seq<nat>, data: seq<Block>): (ws: seq<Write>)
    requires g.Ok() && Loggable(g, lh) && |data| == |lh|
    ensures |ws| == |lh| && forall i :: 0 <= i < |ws| ==> ws[i].at < g.blocks
  {
    seq(|lh|, t requires 0 <= t < |lh| => Write(lh[t], data[t]))
  }

  /** Every block write of commit for the transaction that gives block lh[t] the bytes data[t]. */
  function CommitWrites(g: Geometry, h: Block, lh: seq<nat>, data: seq<Block>): (ws: seq<Write>)
    requires g.Ok() && Loggable(g, lh) && |data| == |lh|
    ensures |ws| == 2 * |lh| + 2 && forall i :: 0 <= i < |ws| ==> ws[i].at < g.blocks
  {
    LogCopies(g, lh, data) + [Write(g.start, PutHeader(h, lh))]
    + HomeCopies(g, lh, data) + [Write(g.start, PutWord(PutHeader(h, lh), 0, 0))]
  }

  /** The disk the transaction asks for, at home block b. */
  ghost function After(d: Disk, lh: seq<nat>, data: seq<Block>, b: nat): Block
    requires |data| == |lh| && b < |d|
  {
    if b in lh then var t :| 0 <= t < |lh| && lh[t] == b; data[t] else d[b]
  }

  // ---- facts about Apply -----------------------------------------------------------------

  lemma {:induction false} ApplyUntouched(d: Disk, ws: seq<Write>, b: nat)
    requires InRange(d, ws) && b < |d|
    requires forall i :: 0 <= i < |ws| ==> ws[i].at != b
    ensures Apply(d, ws)[b] == d[b]
  {
    if ws != [] { ApplyUntouched(d, ws[..|ws| - 1], b); }
  }

  lemma {:induction false} ApplyConcat(d: Disk, a: seq<Write>, b: seq<Write>)
    requires InRange(d, a) && InRange(d, b)
    ensures InRange(d, a + b) && Apply(d, a + b) == Apply(Apply(d, a), b)
  {
    if b == [] {
      assert a + b == a;
    } else {
      ApplyConcat(d, a, b[..|b| - 1]);
      assert (a + b)[..|a + b| - 1] == a + b[..|b| - 1];
    }
  }

  /** The last write to a block decides its contents. */
  lemma ApplyLast(d: Disk, ws: seq<Write>, i: nat)
    requires InRange(d, ws) && i < |ws|
    requires forall j :: i < j < |ws| ==> ws[j].at != ws[i].at
    ensures Apply(d, ws)[ws[i].at] == ws[i].data
  {
    assert ws == ws[..i + 1] + ws[i + 1..];
    ApplyConcat(d, ws[..i + 1], ws[i + 1..]);
    ApplyUntouched(Apply(d, ws[..i + 1]), ws[i + 1..], ws[i].at);
    assert ws[..i + 1][..i] == ws[..i];
  }

  // ---- crash safety of recovery ----------------------------------------------------------

  /** The last write of recovery empties the log. */
  lemma RecoveryClears(g: Geometry, d: Disk)
    requires WfDisk(g, d)
    ensures WfDisk(g, Recovered(g, d)) && HeaderN(g, Recovered(g, d)) == 0
  {
    ApplyLast(d, RecoverWrites(g, d), HeaderN(g, d));
    WordOfPutWord(d[g.start], 0, 0, 0);
  }

  /** Recovery puts every home block where Settled says, and empties the log. */
  lemma RecoveredIsSettled(g: Geometry, d: Disk)
    requires WfDisk(g, d)
    ensures forall b :: g.Home(b) ==> Recovered(g, d)[b] == Settled(g, d, b)
    ensures WfDisk(g, Recovered(g, d)) && HeaderN(g, Recovered(g, d)) == 0
  {
    RecoveryClears(g, d);
    var ws := RecoverWrites(g, d);
    var lh := HeaderBlocks(g, d);
    forall b | g.Home(b) ensures Recovered(g, d)[b] == Settled(g, d, b) {
      if b in lh {
        var t :| 0 <= t < |lh| && lh[t] == b;
        SettledAt(g, d, t);
        ApplyLast(d, ws, t);
      } else {
        ApplyUntouched(d, ws, b);
      }
    }
  }

  /** A crash after the first k writes of a recovery changes nothing that matters:
      the disk is still recoverable and every home block settles to the same bytes. */
  lemma RecoveryCrash(g: Geometry, d: Disk, k: nat)
    requires WfDisk(g, d) && k <= HeaderN(g, d) + 1
    ensures var c := Apply(d, RecoverWrites(g, d)[..k]);
            WfDisk(g, c) && forall b :: g.Home(b) ==> Settled(g, c, b) == Settled(g, d, b)
  {
    var ws, lh := RecoverWrites(g, d), HeaderBlocks(g, d);
    var c := Apply(d, ws[..k]);
    if k == |lh| + 1 {
      assert ws[..k] == ws;
      RecoveredIsSettled(g, d);
    } else {
      forall b | b < |d| && g.start <= b < g.start + g.size ensures c[b] == d[b] {
        ApplyUntouched(d, ws[..k], b);
      }
      assert HeaderBlocks(g, c) == lh;
      forall b | g.Home(b) ensures Settled(g, c, b) == Settled(g, d, b) {
        if b in lh {
          var t :| 0 <= t < |lh| && lh[t] == b;
          SettledAt(g, d, t);
          SettledAt(g, c, t);
        } else {
          ApplyUntouched(d, ws[..k], b);
        }
      }
    }
  }

  /** ds lists the disk at the start of each boot: every recovery but the last was cut short. */
  ghost predicate InterruptedRecoveries(g: Geometry, ds: seq<Disk>) {
    0 < |ds| && forall i :: 0 <= i < |ds| - 1 ==> CutShort(g, ds[i], ds[i + 1])
  }

  /** c is what a recovery of d leaves that stops after some of its writes. Nothing is said of a d
      that holds no log; that none turns up is proved. */
  ghost predicate CutShort(g: Geometry, d: Disk, c: Disk) {
    WfDisk(g, d) ==> exists k :: 0 <= k <= HeaderN(g, d) + 1 && c == Apply(d, RecoverWrites(g, d)[..k])
  }

  /** Any number of interrupted recoveries followed by a complete one gives what a single
      uninterrupted recovery would have given. */
  lemma {:induction false} RecoveryIsIdempotent(g: Geometry, ds: seq<Disk>)
    requires InterruptedRecoveries(g, ds) && WfDisk(g, ds[0])
    ensures WfDisk(g, ds[|ds| - 1])
    ensures forall b :: g.Home(b) ==> Recovered(g, ds[|ds| - 1])[b] == Settled(g, ds[0], b)
    ensures HeaderN(g, Recovered(g, ds[|ds| - 1])) == 0
  {
    if |ds| == 1 {
      RecoveredIsSettled(g, ds[0]);
    } else {
      assert CutShort(g, ds[0], ds[1]);
      var k :| 0 <= k <= HeaderN(g, ds[0]) + 1 && ds[1] == Apply(ds[0], RecoverWrites(g, ds[0])[..k]);
      RecoveryCrash(g, ds[0], k);
      var rest := ds[1..];
      forall i | 0 <= i < |rest| - 1 ensures CutShort(g, rest[i], rest[i + 1]) {
        assert CutShort(g, ds[i + 1], ds[i + 2]);
      }
      RecoveryIsIdempotent(g, rest);
    }
  }

  // ---- crash safety of commit ------------------------------------------------------------

  lemma AfterAt(d: Disk, lh: seq<nat>, data: seq<Block>, t: nat)
    requires |data| == |lh| && Distinct(lh) && t < |lh| && lh[t] < |d|
    ensures After(d, lh, data, lh[t]) == data[t]
  {
    assert lh[t] in lh;
  }

  /** ws is a run of leading commit writes, hdr and clear being its two header blocks. */
  predicate CommitPrefix(g: Geometry, hdr: Block, clear: Block, lh: seq<nat>, data: seq<Block>, ws: seq<Write>)
    requires |data| == |lh|
  {
    && |ws| <= 2 * |lh| + 2
    && (forall i :: 0 <= i < |ws| && i < |lh| ==> ws[i] == Write(g.start + 1 + i, data[i]))
    && (|lh| < |ws| ==> ws[|lh|] == Write(g.start, hdr))
    && (forall i :: |lh| < i < |ws| && i <= 2 * |lh| ==> ws[i] == Write(lh[i - |lh| - 1], data[i - |lh| - 1]))
    && (|ws| == 2 * |lh| + 2 ==> ws[2 * |lh| + 1] == Write(g.start, clear))
  }

  lemma CommitWritesPrefix(g: Geometry, h: Block, lh: seq<nat>, data: seq<Block>, k: nat)
    requires g.Ok() && Loggable(g, lh) && |data| == |lh| && k <= 2 * |lh| + 2
    ensures CommitPrefix(g, PutHeader(h, lh), PutWord(PutHeader(h, lh), 0, 0), lh, data,
                         CommitWrites(g, h, lh, data)[..k])
  {
  }

  /** Where the i-th write of commit goes. */
  lemma CommitTarget(g: Geometry, hdr: Block, clear: Block, lh: seq<nat>, data: seq<Block>, ws: seq<Write>, i: nat)
    requires g.Ok() && Loggable(g, lh) && |data| == |lh|
    requires CommitPrefix(g, hdr, clear, lh, data, ws) && i < |ws|
    ensures i < |lh| ==> ws[i].at == g.start + 1 + i
    ensures i == |lh| || i == 2 * |lh| + 1 ==> ws[i].at == g.start
    ensures |lh| < i <= 2 * |lh| ==> ws[i].at == lh[i - |lh| - 1] && ws[i].at in lh && g.Home(ws[i].at)
  {
  }

  /** commit writes no block twice but the header. */
  lemma CommitTargetsDistinct(g: Geometry, hdr: Block, clear: Block, lh: seq<nat>, data: seq<Block>, ws: seq<Write>,
                              i: nat, j: nat)
    requires g.Ok() && Loggable(g, lh) && |data| == |lh|
    requires CommitPrefix(g, hdr, clear, lh, data, ws) && i < j < |ws|
    requires !(i == |lh| && j == 2 * |lh| + 1)
    ensures ws[i].at != ws[j].at
  {
    CommitTarget(g, hdr, clear, lh, data, ws, i);
    CommitTarget(g, hdr, clear, lh, data, ws, j);
  }

  /** A crash before the header write: only log copies have reached the disk. */
  lemma BeforeHeader(g: Geometry, d: Disk, hdr: Block, clear: Block, lh: seq<nat>, data: seq<Block>, ws: seq<Write>)
    requires g.Ok() && |d| == g.blocks && Loggable(g, lh) && |data| == |lh| && InRange(d, ws)
    requires CommitPrefix(g, hdr, clear, lh, data, ws) && |ws| <= |lh|
    ensures Apply(d, ws)[g.start] == d[g.start]
    ensures forall b :: g.Home(b) ==> Apply(d, ws)[b] == d[b]
  {
    forall i: nat | i < |ws| { CommitTarget(g, hdr, clear, lh, data, ws, i); }
    ApplyUntouched(d, ws, g.start);
    forall b | g.Home(b) ensures Apply(d, ws)[b] == d[b] {
      ApplyUntouched(d, ws, b);
    }
  }

  /** The i-th write of commit stays on disk unless it is the header that a later clear replaces. */
  lemma CommitWriteStays(g: Geometry, d: Disk, hdr: Block, clear: Block, lh: seq<nat>, data: seq<Block>, ws: seq<Write>,
                         i: nat)
    requires g.Ok() && |d| == g.blocks && Loggable(g, lh) && |data| == |lh| && InRange(d, ws)
    requires CommitPrefix(g, hdr, clear, lh, data, ws) && i < |ws|
    requires !(i == |lh| && |ws| == 2 * |lh| + 2)
    ensures Apply(d, ws)[ws[i].at] == ws[i].data
  {
    forall j: nat | i < j < |ws| { CommitTargetsDistinct(g, hdr, clear, lh, data, ws, i, j); }
    ApplyLast(d, ws, i);
  }

  lemma CommitLeaves(g: Geometry, d: Disk, hdr: Block, clear: Block, lh: seq<nat>, data: seq<Block>, ws: seq<Write>,
                     b: nat)
    requires g.Ok() && |d| == g.blocks && Loggable(g, lh) && |data| == |lh| && InRange(d, ws)
    requires CommitPrefix(g, hdr, clear, lh, data, ws) && g.Home(b) && b !in lh
    ensures Apply(d, ws)[b] == d[b]
  {
    forall i: nat | i < |ws| ensures ws[i].at != b { CommitTarget(g, hdr, clear, lh, data, ws, i); }
    ApplyUntouched(d, ws, b);
  }

  lemma LogBlockStays(g: Geometry, d: Disk, hdr: Block, clear: Block, lh: seq<nat>, data: seq<Block>, ws: seq<Write>,
                      t: nat)
    requires g.Ok() && |d| == g.blocks && Loggable(g, lh) && |data| == |lh| && InRange(d, ws)
    requires CommitPrefix(g, hdr, clear, lh, data, ws) && t < |lh| && t < |ws|
    ensures Apply(d, ws)[g.start + 1 + t] == data[t]
  {
    assert ws[t] == Write(g.start + 1 + t, data[t]);
    CommitWriteStays(g, d, hdr, clear, lh, data, ws, t);
  }

  lemma HomeBlockStays(g: Geometry, d: Disk, hdr: Block, clear: Block, lh: seq<nat>, data: seq<Block>, ws: seq<Write>,
                       t: nat)
    requires g.Ok() && |d| == g.blocks && Loggable(g, lh) && |data| == |lh| && InRange(d, ws)
    requires CommitPrefix(g, hdr, clear, lh, data, ws) && t < |lh| && |lh| + 1 + t < |ws|
    ensures Apply(d, ws)[lh[t]] == data[t]
  {
    assert ws[|lh| + 1 + t] == Write(lh[t], data[t]);
    CommitWriteStays(g, d, hdr, clear, lh, data, ws, |lh| + 1 + t);
  }

  /** The header block holds what was written there last. */
  lemma HeaderStays(g: Geometry, d: Disk, hdr: Block, clear: Block, lh: seq<nat>, data: seq<Block>, ws: seq<Write>)
    requires g.Ok() && |d| == g.blocks && Loggable(g, lh) && |data| == |lh| && InRange(d, ws)
    requires CommitPrefix(g, hdr, clear, lh, data, ws) && |lh| < |ws| <= 2 * |lh| + 2
    ensures Apply(d, ws)[g.start] == if |ws| == 2 * |lh| + 2 then clear else hdr
  {
    var last := if |ws| == 2 * |lh| + 2 then 2 * |lh| + 1 else |lh|;
    assert ws[last] == Write(g.start, if |ws| == 2 * |lh| + 2 then clear else hdr);
    CommitWriteStays(g, d, hdr, clear, lh, data, ws, last);
  }

  /** From the header write on, the log area holds the whole transaction. */
  lemma AfterHeader(g: Geometry, d: Disk, hdr: Block, clear: Block, lh: seq<nat>, data: seq<Block>, ws: seq<Write>)
    requires g.Ok() && |d| == g.blocks && Loggable(g, lh) && |data| == |lh| && InRange(d, ws)
    requires CommitPrefix(g, hdr, clear, lh, data, ws) && |lh| < |ws| <= 2 * |lh| + 1
    ensures Apply(d, ws)[g.start] == hdr
    ensures forall t :: 0 <= t < |lh| ==> Apply(d, ws)[g.start + 1 + t] == data[t]
    ensures forall b :: g.Home(b) && b !in lh ==> Apply(d, ws)[b] == d[b]
  {
    HeaderStays(g, d, hdr, clear, lh, data, ws);
    forall t | 0 <= t < |lh| ensures Apply(d, ws)[g.start + 1 + t] == data[t] {
      LogBlockStays(g, d, hdr, clear, lh, data, ws, t);
    }
    forall b | g.Home(b) && b !in lh ensures Apply(d, ws)[b] == d[b] {
      CommitLeaves(g, d, hdr, clear, lh, data, ws, b);
    }
  }

  /** When commit is through, the home blocks hold the transaction. */
  lemma AllWritten(g: Geometry, d: Disk, hdr: Block, clear: Block, lh: seq<nat>, data: seq<Block>, ws: seq<Write>)
    requires g.Ok() && |d| == g.blocks && Loggable(g, lh) && |data| == |lh| && InRange(d, ws)
    requires CommitPrefix(g, hdr, clear, lh, data, ws) && |ws| == 2 * |lh| + 2
    ensures Apply(d, ws)[g.start] == clear
    ensures forall b :: g.Home(b) ==> Apply(d, ws)[b] == After(d, lh, data, b)
  {
    HeaderStays(g, d, hdr, clear, lh, data, ws);
    forall b | g.Home(b) ensures Apply(d, ws)[b] == After(d, lh, data, b) {
      if b in lh {
        var t :| 0 <= t < |lh| && lh[t] == b;
        AfterAt(d, lh, data, t);
        HomeBlockStays(g, d, hdr, clear, lh, data, ws, t);
      } else {
        CommitLeaves(g, d, hdr, clear, lh, data, ws, b);
      }
    }
  }

  lemma CrashBeforeHeader(g: Geometry, d: Disk, lh: seq<nat>, data: seq<Block>, k: nat)
    requires WfDisk(g, d) && HeaderN(g, d) == 0 && Loggable(g, lh) && |data| == |lh| && k <= |lh|
    ensures var c := Apply(d, CommitWrites(g, d[g.start], lh, data)[..k]);
            WfDisk(g, c) && forall b :: g.Home(b) ==> Settled(g, c, b) == d[b]
  {
    var h := PutHeader(d[g.start], lh);
    var ws := CommitWrites(g, d[g.start], lh, data)[..k];
    CommitWritesPrefix(g, d[g.start], lh, data, k);
    BeforeHeader(g, d, h, PutWord(h, 0, 0), lh, data, ws);
    assert HeaderBlocks(g, Apply(d, ws)) == [];
  }

  lemma CrashAfterHeader(g: Geometry, d: Disk, lh: seq<nat>, data: seq<Block>, k: nat)
    requires WfDisk(g, d) && Loggable(g, lh) && |data| == |lh| && |lh| < k <= 2 * |lh| + 1
    ensures var c := Apply(d, CommitWrites(g, d[g.start], lh, data)[..k]);
            WfDisk(g, c) && forall b :: g.Home(b) ==> Settled(g, c, b) == After(d, lh, data, b)
  {
    var h := PutHeader(d[g.start], lh);
    var ws := CommitWrites(g, d[g.start], lh, data)[..k];
    CommitWritesPrefix(g, d[g.start], lh, data, k);
    AfterHeader(g, d, h, PutWord(h, 0, 0), lh, data, ws);
    var c := Apply(d, ws);
    HeaderRoundTrip(g, c, d[g.start], lh);
    forall b | g.Home(b) ensures Settled(g, c, b) == After(d, lh, data, b) {
      if b in lh {
        var t :| 0 <= t < |lh| && lh[t] == b;
        SettledAt(g, c, t);
        AfterAt(d, lh, data, t);
      }
    }
  }

  /** The disk once all writes of commit are done. */
  lemma CommitDone(g: Geometry, d: Disk, lh: seq<nat>, data: seq<Block>)
    requires WfDisk(g, d) && Loggable(g, lh) && |data| == |lh|
    ensures var c := Apply(d, CommitWrites(g, d[g.start], lh, data));
            && WfDisk(g, c) && HeaderN(g, c) == 0
            && forall b :: g.Home(b) ==> c[b] == After(d, lh, data, b)
  {
    var h := PutHeader(d[g.start], lh);
    var ws := CommitWrites(g, d[g.start], lh, data);
    CommitWritesPrefix(g, d[g.start], lh, data, |ws|);
    assert ws[..|ws|] == ws;
    AllWritten(g, d, h, PutWord(h, 0, 0), lh, data, ws);
    WordOfPutWord(h, 0, 0, 0);
  }

  /** Crash atomicity. Let commit be cut after its first k block writes, let any number of
      recoveries be cut short as well, and let one recovery finish. Then every home block is
      exactly as before the transaction when k has not passed the header write, and exactly as
      after it otherwise. */
  lemma CrashAtomicity(g: Geometry, d: Disk, lh: seq<nat>, data: seq<Block>, k: nat, ds: seq<Disk>)
    requires WfDisk(g, d) && HeaderN(g, d) == 0 && Loggable(g, lh) && |data| == |lh|
    requires k <= 2 * |lh| + 2
    requires InterruptedRecoveries(g, ds)
    requires ds[0] == Apply(d, CommitWrites(g, d[g.start], lh, data)[..k])
    ensures WfDisk(g, ds[|ds| - 1])
    ensures forall b :: g.Home(b) ==>
              Recovered(g, ds[|ds| - 1])[b] == if k <= |lh| then d[b] else After(d, lh, data, b)
    ensures HeaderN(g, Recovered(g, ds[|ds| - 1])) == 0
  {
    if k <= |lh| {
      CrashBeforeHeader(g, d, lh, data, k);
    } else if k <= 2 * |lh| + 1 {
      CrashAfterHeader(g, d, lh, data, k);
    } else {
      var ws := CommitWrites(g, d[g.start], lh, data);
      assert ws[..k] == ws;
      CommitDone(g, d, lh, data);
    }
    RecoveryIsIdempotent(g, ds);
  }
}
