/** kernel/virtio_disk.c and a device that follows section 2.6 (split virtqueues) and section 5.2
    (block device) of VIRTIO 1.1. Every method is one step that the other side may follow with any
    step of its own; Valid() is what they all keep. */
module Virtio {
  import opened Blocks
  import opened Common

  const NUM := 8
  const WRAP := 0x1_0000
  const PENDING := 0xff

  /** What a descriptor can point to: a command header, the bytes of a buffer, a status byte. */
  datatype Addr = Null | OpAddr(i: int) | DataAddr(b: int) | StatusAddr(i: int)

  datatype Desc = Desc(addr: Addr, hasNext: bool, deviceWrites: bool, next: int)
  datatype Op = Op(write: bool, sector: int)
  datatype Info = Info(b: Option<int>, status: int)

  const EMPTY := Desc(Null, false, false, 0)

  /** How far a request has got: formatted; in the ring; offered at a position of the avail ring;
      taken by the device; carried out; in the used ring; posted at a position of the used ring;
      seen by the interrupt handler. */
  datatype Stage = Formed | Ringed | Offered(n: int) | Taken | Reported | Listed | Posted(n: int) | Seen

  datatype Req = Req(b: int, write: bool, sector: int, i1: int, i2: int, stage: Stage)

  /** Injective positions are no more than the values that they can take. */
  lemma {:induction false} Positions(at: map<int, int>, lo: int, hi: int, values: set<int>)
    requires lo <= hi && forall n :: lo <= n < hi ==> n in at && at[n] in values
    requires forall n, m :: lo <= n < m < hi ==> at[n] != at[m]
    ensures hi - lo <= |values|
    decreases hi - lo
  {
    if lo < hi {
      Positions(at, lo, hi - 1, values - {at[hi - 1]});
    }
  }

  /** Slots of two positions differ as long as the positions are less than NUM apart. */
  lemma Slots(n: int, m: int)
    requires 0 <= n < m < n + NUM
    ensures n % NUM != m % NUM
  {
  }

  /** A 16-bit index selects the same slot as the count that it stands for. */
  lemma Wrapped(n: int)
    requires n >= 0
    ensures n % WRAP % NUM == n % NUM && (n % WRAP + 1) % WRAP == (n + 1) % WRAP
  {
    var q, r := n / WRAP, n % WRAP;
    assert n == WRAP * q + r && 0 <= r < WRAP;
    EightsAway(r, q);
    if r + 1 == WRAP {
      assert n + 1 == WRAP * (q + 1);
    } else {
      assert n + 1 == WRAP * q + (r + 1);
    }
  }

  lemma EightsAway(r: int, q: int)
    ensures (WRAP * q + r) % NUM == r % NUM
  {
    assert WRAP * q + r == NUM * (8192 * q) + r;
  }

  /** 16-bit indices agree exactly if the counts do, the counts being close. */
  lemma SameIndex(n: int, m: int)
    requires 0 <= n <= m <= n + NUM
    ensures n % WRAP == m % WRAP <==> n == m
  {
  }

  predicate ThreeFree(free: seq<bool>) {
    exists x, y, z :: 0 <= x < y < z < |free| && free[x] && free[y] && free[z]
  }

  // ---- the state in values ---------------------------------------------------------------

  /** What driver and device share and the driver's own bookkeeping. */
  datatype Queue = Queue(
    free: seq<bool>, desc: seq<Desc>, info: seq<Info>, ops: seq<Op>,
    availIdx: int, availRing: seq<int>,
    usedIdx: int,                // disk.used_idx, the driver's own
    usedPub: int,                // disk.used->idx
    usedRing: seq<int>,
    busy: map<int, bool>,        // b->disk
    devIdx: int)                 // how far the device has read the avail ring

  /** The requests in progress by first descriptor, who owns a descriptor and a buffer, and the
      counts that the 16-bit indices stand for. */
  datatype Book = Book(
    reqs: map<int, Req>, owner: map<int, int>, holder: map<int, int>,
    forming: Option<int>,        // the request of the process that holds vdisk_lock
    listing: Option<int>,        // the request that the device is reporting
    offered: map<int, int>, posted: map<int, int>,
    availN: int, devN: int, usedN: int, seenN: int)

  predicate Shape(q: Queue, g: Book) {
    && |q.free| == |q.desc| == |q.info| == |q.ops| == |q.availRing| == |q.usedRing| == NUM
    && 0 <= g.devN <= g.availN && 0 <= g.seenN <= g.usedN
    && q.availIdx == g.availN % WRAP && q.devIdx == g.devN % WRAP && q.usedPub == g.usedN % WRAP
       && q.usedIdx == g.seenN % WRAP
  }

  /** The device has carried the request out. */
  predicate Answered(st: Stage) { st.Reported? || st.Listed? || st.Posted? || st.Seen? }

  predicate InChain(r: Req, h: int, d: int) { d == h || d == r.i1 || d == r.i2 }

  /** The non-free descriptors are those of the chains, each in one chain. */
  ghost predicate Owners(q: Queue, g: Book)
    requires Shape(q, g)
  {
    && (forall d {:trigger q.free[d]} :: 0 <= d < NUM ==>
        if q.free[d] then d !in g.owner && q.desc[d] == EMPTY else d in g.owner)
    && (forall d {:trigger g.owner[d]} :: d in g.owner ==>
        0 <= d < NUM && g.owner[d] in g.reqs && InChain(g.reqs[g.owner[d]], g.owner[d], d))
  }

  /** Request h has three descriptors, formatted as the device expects them. */
  predicate Chain(q: Queue, g: Book, h: int)
    requires Shape(q, g) && h in g.reqs
  {
    var r := g.reqs[h];
    && Three(h, r.i1, r.i2)
    && h in g.owner && r.i1 in g.owner && r.i2 in g.owner && g.owner[h] == h && g.owner[r.i1] == h && g.owner[r.i2] == h
    && q.desc[h] == Desc(OpAddr(h), true, false, r.i1) && q.desc[r.i1] == Desc(DataAddr(r.b), true, !r.write, r.i2)
    && q.desc[r.i2] == Desc(StatusAddr(h), false, true, 0) && q.ops[h] == Op(r.write, r.sector)
  }

  predicate Three(i0: int, i1: int, i2: int) {
    0 <= i0 < NUM && 0 <= i1 < NUM && 0 <= i2 < NUM && i0 != i1 && i0 != i2 && i1 != i2
  }

  /** What the stage of request h means. */
  predicate Progress(q: Queue, g: Book, h: int)
    requires Shape(q, g) && h in g.reqs
  {
    var r := g.reqs[h];
    && 0 <= h < NUM && q.info[h].b == Some(r.b) && r.b in q.busy && q.busy[r.b] == !r.stage.Seen? && r.b in g.holder
       && g.holder[r.b] == h
    && q.info[h].status == (if Answered(r.stage) then 0 else 0xff)
    && (r.stage.Formed? || r.stage.Ringed? <==> g.forming == Some(h)) && (r.stage.Listed? <==> g.listing == Some(h))
    && (r.stage.Ringed? ==> q.availRing[g.availN % NUM] == h) && (r.stage.Listed? ==> q.usedRing[g.usedN % NUM] == h)
    && (r.stage.Offered? ==> g.devN <= r.stage.n < g.availN && r.stage.n in g.offered && g.offered[r.stage.n] == h)
    && (r.stage.Posted? ==> g.seenN <= r.stage.n < g.usedN && r.stage.n in g.posted && g.posted[r.stage.n] == h)
  }

  /** The slots of the rings from the reader's position to the writer's hold what was put there. */
  ghost predicate Rings(q: Queue, g: Book)
    requires Shape(q, g)
  {
    && (forall n {:trigger g.offered[n]} {:trigger n in g.offered} :: g.devN <= n < g.availN ==>
          n in g.offered && g.offered[n] in g.reqs && g.reqs[g.offered[n]].stage == Offered(n)
            && q.availRing[n % NUM] == g.offered[n])
    && (forall n {:trigger g.posted[n]} {:trigger n in g.posted} :: g.seenN <= n < g.usedN ==>
          n in g.posted && g.posted[n] in g.reqs && g.reqs[g.posted[n]].stage == Posted(n)
            && q.usedRing[n % NUM] == g.posted[n])
  }

  ghost predicate Requests(q: Queue, g: Book)
    requires Shape(q, g)
  {
    && (forall h {:trigger Chain(q, g, h)} :: h in g.reqs ==> Chain(q, g, h))
    && (forall h {:trigger Progress(q, g, h)} :: h in g.reqs ==> Progress(q, g, h))
  }

  ghost predicate Tables(g: Book) {
    && (g.forming.Some? ==> g.forming.value in g.reqs) && (g.listing.Some? ==> g.listing.value in g.reqs)
    && (forall b {:trigger g.holder[b]} :: b in g.holder ==> g.holder[b] in g.reqs && g.reqs[g.holder[b]].b == b)
  }

  ghost predicate Wf(q: Queue, g: Book) {
    Shape(q, g) && Owners(q, g) && Rings(q, g) && Requests(q, g) && Tables(g)
  }

  /** A free descriptor is in no chain. */
  lemma FreeIsUnused(q: Queue, g: Book, d: int)
    requires Wf(q, g) && 0 <= d < NUM && q.free[d]
    ensures d !in g.owner && d !in g.reqs
  {
    assert d in g.reqs ==> Chain(q, g, d);
  }

  /** The queue with the request of b formatted on descriptors h, i1, i2. */
  function Formatted(q: Queue, b: int, write: bool, sector: int, h: int, i1: int, i2: int): Queue
    requires |q.free| == |q.desc| == |q.info| == |q.ops| == NUM && Three(h, i1, i2)
  {
    q.(free := q.free[h := false][i1 := false][i2 := false],
       ops := q.ops[h := Op(write, sector)],
       desc := q.desc[h := Desc(OpAddr(h), true, false, i1)][i1 := Desc(DataAddr(b), true, !write,
           i2)][i2 := Desc(StatusAddr(h), false, true, 0)],
       info := q.info[h := Info(Some(b), PENDING)],
       busy := q.busy[b := true])
  }

  function Begun(g: Book, b: int, write: bool, sector: int, h: int, i1: int, i2: int): Book {
    g.(reqs := g.reqs[h := Req(b, write, sector, i1, i2, Formed)], owner := g.owner[h := h][i1 := h][i2 := h],
       holder := g.holder[b := h], forming := Some(h))
  }

  lemma StartOwners(q: Queue, g: Book, b: int, write: bool, sector: int, h: int, i1: int, i2: int)
    requires Wf(q, g) && g.forming.None? && b !in g.holder && Three(h, i1, i2) && q.free[h] && q.free[i1] && q.free[i2]
    ensures h !in g.reqs && i1 !in g.owner && i2 !in g.owner && h !in g.owner
    ensures Owners(Formatted(q, b, write, sector, h, i1, i2), Begun(g, b, write, sector, h, i1, i2))
  {
    FreeIsUnused(q, g, h);
    FreeIsUnused(q, g, i1);
    FreeIsUnused(q, g, i2);
  }

  lemma StartRequest(q: Queue, g: Book, b: int, write: bool, sector: int, h: int, i1: int, i2: int, k: int)
    requires Wf(q, g) && g.forming.None? && b !in g.holder && Three(h, i1, i2) && q.free[h] && q.free[i1] && q.free[i2]
    requires k == h || k in g.reqs
    ensures var q', g' := Formatted(q, b, write, sector, h, i1, i2), Begun(g, b, write, sector, h, i1, i2);
            Chain(q', g', k) && Progress(q', g', k)
  {
    FreeIsUnused(q, g, h);
    FreeIsUnused(q, g, i1);
    FreeIsUnused(q, g, i2);
    assert k != h ==> Chain(q, g, k) && Progress(q, g, k);
  }

  lemma StartKeeps(q: Queue, g: Book, b: int, write: bool, sector: int, h: int, i1: int, i2: int)
    requires Wf(q, g) && g.forming.None? && b !in g.holder && Three(h, i1, i2) && q.free[h] && q.free[i1] && q.free[i2]
    ensures h !in g.reqs && Wf(Formatted(q, b, write, sector, h, i1, i2), Begun(g, b, write, sector, h, i1, i2))
  {
    var q', g' := Formatted(q, b, write, sector, h, i1, i2), Begun(g, b, write, sector, h, i1, i2);
    StartOwners(q, g, b, write, sector, h, i1, i2);
    forall k | k in g'.reqs ensures Chain(q', g', k) && Progress(q', g', k) {
      StartRequest(q, g, b, write, sector, h, i1, i2, k);
    }
  }

  /** g with request h at stage st. */
  function At(g: Book, h: int, st: Stage): Book
    requires h in g.reqs
  {
    g.(reqs := g.reqs[h := g.reqs[h].(stage := st)])
  }

  /** The slot that the driver writes next is not one that the device has still to read. */
  lemma AvailRoom(q: Queue, g: Book, h: int)
    requires Wf(q, g) && h in g.reqs && !g.reqs[h].stage.Offered?
    ensures g.availN - g.devN < NUM && forall n :: g.devN <= n < g.availN ==> n % NUM != g.availN % NUM
  {
    var heads := {0, 1, 2, 3, 4, 5, 6, 7} - {h};
    assert Chain(q, g, h);
    forall n | g.devN <= n < g.availN ensures n in g.offered && g.offered[n] in heads {
      assert n in g.offered;
      assert Chain(q, g, g.offered[n]);
    }
    Positions(g.offered, g.devN, g.availN, heads);
    forall n | g.devN <= n < g.availN ensures n % NUM != g.availN % NUM { Slots(n, g.availN); }
  }

  lemma UsedRoom(q: Queue, g: Book, h: int)
    requires Wf(q, g) && h in g.reqs && !g.reqs[h].stage.Posted?
    ensures g.usedN - g.seenN < NUM && forall n :: g.seenN <= n < g.usedN ==> n % NUM != g.usedN % NUM
  {
    var heads := {0, 1, 2, 3, 4, 5, 6, 7} - {h};
    assert Chain(q, g, h);
    forall n | g.seenN <= n < g.usedN ensures n in g.posted && g.posted[n] in heads {
      assert n in g.posted;
      assert Chain(q, g, g.posted[n]);
    }
    Positions(g.posted, g.seenN, g.usedN, heads);
    forall n | g.seenN <= n < g.usedN ensures n % NUM != g.usedN % NUM { Slots(n, g.usedN); }
  }

  /** A step that only moves one request on, leaving descriptors and owners alone. */
  lemma Moves(q: Queue, g: Book, q': Queue, g': Book, h: int)
    requires Wf(q, g) && h in g.reqs && Shape(q', g') && h in g'.reqs
             && g'.reqs == g.reqs[h := g.reqs[h].(stage := g'.reqs[h].stage)]
    requires q'.free == q.free && q'.desc == q.desc && q'.ops == q.ops && g'.owner == g.owner && g'.holder == g.holder
    requires Progress(q', g', h) && Rings(q', g')
    requires forall k :: k in g.reqs && k != h ==> Progress(q', g', k)
    requires (g'.forming.Some? ==> g'.forming.value in g.reqs) && (g'.listing.Some? ==> g'.listing.value in g.reqs)
    ensures Wf(q', g')
  {
    forall k | k in g'.reqs ensures Chain(q', g', k) { assert Chain(q, g, k); }
  }

  lemma RingKeeps(q: Queue, g: Book, h: int)
    requires Wf(q, g) && g.forming == Some(h) && h in g.reqs && g.reqs[h].stage == Formed
    ensures Wf(q.(availRing := q.availRing[q.availIdx % NUM := h]), At(g, h, Ringed))
  {
    var q', g' := q.(availRing := q.availRing[q.availIdx % NUM := h]), At(g, h, Ringed);
    AvailRoom(q, g, h);
    Wrapped(g.availN);
    forall k | k in g.reqs ensures Progress(q', g', k) { assert Progress(q, g, k); }
    Moves(q, g, q', g', h);
  }

  lemma PublishKeeps(q: Queue, g: Book, h: int)
    requires Wf(q, g) && g.forming == Some(h) && h in g.reqs && g.reqs[h].stage == Ringed
    ensures Wf(q.(availIdx := (q.availIdx + 1) % WRAP),
               At(g, h, Offered(g.availN)).(forming := None, availN := g.availN + 1,
                                            offered := g.offered[g.availN := h]))
  {
    var q' := q.(availIdx := (q.availIdx + 1) % WRAP);
    var g' := At(g, h, Offered(g.availN)).(forming := None, availN := g.availN + 1,
                                           offered := g.offered[g.availN := h]);
    Wrapped(g.availN);
    assert Progress(q, g, h);
    forall k | k in g.reqs ensures Progress(q', g', k) { assert Progress(q, g, k); }
    Moves(q, g, q', g', h);
  }

  /** The device takes the next request from the avail ring: what it reads is what was submitted. */
  lemma FetchKeeps(q: Queue, g: Book)
    requires Wf(q, g) && g.devN < g.availN
    ensures var h := q.availRing[q.devIdx % NUM];
            && h in g.reqs && Chain(q, g, h) && g.reqs[h].stage == Offered(g.devN)
            && Wf(q.(devIdx := (q.devIdx + 1) % WRAP), At(g, h, Taken).(devN := g.devN + 1))
  {
    Wrapped(g.devN);
    assert g.devN in g.offered;
    var h := g.offered[g.devN];
    assert Chain(q, g, h);
    var q', g' := q.(devIdx := (q.devIdx + 1) % WRAP), At(g, h, Taken).(devN := g.devN + 1);
    forall k | k in g.reqs ensures Progress(q', g', k) { assert Progress(q, g, k); }
    Moves(q, g, q', g', h);
  }

  lemma ReportKeeps(q: Queue, g: Book, h: int)
    requires Wf(q, g) && h in g.reqs && g.reqs[h].stage == Taken
    ensures 0 <= h < NUM && Wf(q.(info := q.info[h := q.info[h].(status := 0)]), At(g, h, Reported))
  {
    assert Progress(q, g, h);
    var q', g' := q.(info := q.info[h := q.info[h].(status := 0)]), At(g, h, Reported);
    forall k | k in g.reqs ensures Progress(q', g', k) { assert Progress(q, g, k); }
    Moves(q, g, q', g', h);
  }

  lemma ListKeeps(q: Queue, g: Book, h: int)
    requires Wf(q, g) && g.listing.None? && h in g.reqs && g.reqs[h].stage == Reported
    ensures Wf(q.(usedRing := q.usedRing[q.usedPub % NUM := h]), At(g, h, Listed).(listing := Some(h)))
  {
    var q', g' := q.(usedRing := q.usedRing[q.usedPub % NUM := h]), At(g, h, Listed).(listing := Some(h));
    UsedRoom(q, g, h);
    Wrapped(g.usedN);
    forall k | k in g.reqs ensures Progress(q', g', k) { assert Progress(q, g, k); }
    Moves(q, g, q', g', h);
  }

  lemma PostKeeps(q: Queue, g: Book, h: int)
    requires Wf(q, g) && g.listing == Some(h)
    ensures h in g.reqs && Wf(q.(usedPub := (q.usedPub + 1) % WRAP),
                              At(g, h, Posted(g.usedN)).(listing := None, usedN := g.usedN + 1,
                                                         posted := g.posted[g.usedN := h]))
  {
    var q' := q.(usedPub := (q.usedPub + 1) % WRAP);
    var g' := At(g, h, Posted(g.usedN)).(listing := None, usedN := g.usedN + 1, posted := g.posted[g.usedN := h]);
    Wrapped(g.usedN);
    assert Progress(q, g, h);
    forall k | k in g.reqs ensures Progress(q', g', k) { assert Progress(q, g, k); }
    Moves(q, g, q', g', h);
  }

  /** The interrupt handler sees new entries exactly if there are some: the indices do not lap. */
  lemma UsedLag(q: Queue, g: Book)
    requires Wf(q, g)
    ensures q.usedIdx != q.usedPub <==> g.seenN < g.usedN
  {
    if g.seenN < g.usedN {
      assert g.seenN in g.posted;
      var heads := {0, 1, 2, 3, 4, 5, 6, 7};
      forall n | g.seenN <= n < g.usedN ensures n in g.posted && g.posted[n] in heads {
        assert n in g.posted;
        assert Chain(q, g, g.posted[n]);
      }
      Positions(g.posted, g.seenN, g.usedN, heads);
      SameIndex(g.seenN, g.usedN);
    }
  }

  lemma AvailLag(q: Queue, g: Book)
    requires Wf(q, g)
    ensures q.devIdx != q.availIdx <==> g.devN < g.availN
  {
    if g.devN < g.availN {
      var heads := {0, 1, 2, 3, 4, 5, 6, 7};
      forall n | g.devN <= n < g.availN ensures n in g.offered && g.offered[n] in heads {
        assert n in g.offered;
        assert Chain(q, g, g.offered[n]);
      }
      Positions(g.offered, g.devN, g.availN, heads);
      SameIndex(g.devN, g.availN);
    }
  }

  lemma SeeKeeps(q: Queue, g: Book)
    requires Wf(q, g) && g.seenN < g.usedN
    ensures var h := q.usedRing[q.usedIdx % NUM];
            && h in g.reqs && 0 <= h < NUM && q.info[h].status == 0 && q.info[h].b == Some(g.reqs[h].b)
               && g.reqs[h].stage == Posted(g.seenN)
            && Wf(q.(busy := q.busy[g.reqs[h].b := false], usedIdx := (q.usedIdx + 1) % WRAP),
                  At(g, h, Seen).(seenN := g.seenN + 1))
  {
    Wrapped(g.seenN);
    assert g.seenN in g.posted;
    var h := g.posted[g.seenN];
    assert Progress(q, g, h);
    var q', g' := q.(busy := q.busy[g.reqs[h].b := false], usedIdx := (q.usedIdx + 1) % WRAP),
    At(g, h, Seen).(seenN := g.seenN + 1);
    forall k | k in g.reqs ensures Progress(q', g', k) { assert Progress(q, g, k); }
    Moves(q, g, q', g', h);
  }

  function Ended(g: Book, h: int): Book
    requires h in g.reqs
  {
    g.(reqs := g.reqs - {h}, owner := g.owner - {h, g.reqs[h].i1, g.reqs[h].i2}, holder := g.holder - {g.reqs[h].b})
  }

  /** The queue with the chain of request h free again. */
  function Cleared(q: Queue, h: int, i1: int, i2: int): Queue
    requires |q.free| == |q.desc| == |q.info| == NUM && Three(h, i1, i2)
  {
    q.(info := q.info[h := q.info[h].(b := None)], free := q.free[h := true][i1 := true][i2 := true],
       desc := q.desc[h := EMPTY][i1 := EMPTY][i2 := EMPTY])
  }

  /** The other requests do not notice. */
  lemma FinishOther(q: Queue, g: Book, h: int, k: int)
    requires Wf(q, g) && g.forming.None? && h in g.reqs && g.reqs[h].stage == Seen && k in g.reqs && k != h
    requires Chain(q, g, h) && Progress(q, g, h)
    ensures var q', g' := Cleared(q, h, g.reqs[h].i1, g.reqs[h].i2), Ended(g, h);
            Shape(q', g') && k in g'.reqs && Chain(q', g', k) && Progress(q', g', k)
  {
    assert Chain(q, g, k) && Progress(q, g, k);
  }

  lemma FinishKeeps(q: Queue, g: Book, h: int)
    requires Wf(q, g) && g.forming.None? && h in g.reqs && g.reqs[h].stage == Seen
    ensures Chain(q, g, h)
    ensures var r := g.reqs[h];
            Wf(Cleared(q, h, r.i1, r.i2), Ended(g, h))
  {
    assert Chain(q, g, h) && Progress(q, g, h);
    var q', g' := Cleared(q, h, g.reqs[h].i1, g.reqs[h].i2), Ended(g, h);
    forall k | k in g'.reqs ensures Chain(q', g', k) && Progress(q', g', k) { FinishOther(q, g, h, k); }
  }

  /** Without requests, nothing is on its way and every descriptor is free. */
  lemma Idle(q: Queue, g: Book)
    requires Wf(q, g) && g.reqs == map[]
    ensures g.forming.None? && g.listing.None? && g.holder == map[] && g.devN == g.availN && g.seenN == g.usedN
    ensures ThreeFree(q.free) && forall d :: 0 <= d < NUM ==> q.free[d]
  {
    assert q.free[0] && q.free[1] && q.free[2];
    forall b ensures b !in g.holder {}
    assert g.devN < g.availN ==> g.devN in g.offered;
    assert g.seenN < g.usedN ==> g.seenN in g.posted;
  }

  /** h is the only request, for the two sectors of block blockno. */
  predicate Only(g: Book, h: int, b: int, write: bool, blockno: int, st: Stage) {
    h in g.reqs && g.reqs.Keys == {h} && g.reqs[h] == Req(b, write, blockno * 2, g.reqs[h].i1, g.reqs[h].i2, st)
  }

  // ---- driver and device -----------------------------------------------------------------

  class Disk {
    var q: Queue
    ghost var g: Book

    ghost predicate Valid()
      reads this
    {
      Wf(q, g)
    }

    /** The state that virtio_disk_init leaves: all descriptors free, nothing in the rings. */
    constructor ()
      ensures Valid() && g.reqs == map[] && g.forming.None? && forall d :: 0 <= d < NUM ==> q.free[d]
    {
      q := Queue(seq(NUM, i => true), seq(NUM, i => EMPTY), seq(NUM, i => Info(None, 0)), seq(NUM, i => Op(false, 0)),
                 0, seq(NUM, i => 0), 0, 0, seq(NUM, i => 0), map[], 0);
      g := Book(map[], map[], map[], None, None, map[], map[], 0, 0, 0, 0);
    }

    /** alloc_desc: the first free descriptor, no longer free; -1 if there is none. */
    method AllocDesc() returns (i: int)
      requires |q.free| == NUM
      modifies `q
      ensures i == -1 ==> q == old(q) && forall d :: 0 <= d < NUM ==> !q.free[d]
      ensures i != -1 ==> 0 <= i < NUM && old(q).free[i] && q == old(q).(free := old(q).free[i := false])
                          && forall d :: 0 <= d < i ==> !q.free[d]
    {
      i := 0;
      while i < NUM
        invariant 0 <= i <= NUM && q == old(q) && forall d :: 0 <= d < i ==> !q.free[d]
      {
        if q.free[i] {
          q := q.(free := q.free[i := false]);
          return;
        }
        i := i + 1;
      }
      i := -1;
    }

    /** free_desc; its two panics are the preconditions. */
    method FreeDesc(i: int)
      requires |q.free| == |q.desc| == NUM && 0 <= i < NUM && !q.free[i]
      modifies `q
      ensures q == old(q).(free := old(q).free[i := true], desc := old(q).desc[i := EMPTY])
    {
      q := q.(desc := q.desc[i := EMPTY]);
      q := q.(free := q.free[i := true]);
    }

    /** alloc3_desc: three different descriptors that were free, or none at all. */
    method Alloc3Desc() returns (idx: seq<int>)
      requires |q.free| == |q.desc| == NUM && forall d :: 0 <= d < NUM && q.free[d] ==> q.desc[d] == EMPTY
      modifies `q
      ensures idx == [] ==> q == old(q)
      ensures idx == [] ==> !ThreeFree(q.free)
      ensures idx != [] ==>
                && |idx| == 3 && Three(idx[0], idx[1], idx[2]) && old(q).free[idx[0]] && old(q).free[idx[1]]
                   && old(q).free[idx[2]]
                && q == old(q).(free := old(q).free[idx[0] := false][idx[1] := false][idx[2] := false])
    {
      idx := [];
      while |idx| < 3
        invariant |idx| <= 3 && |q.free| == NUM && q == old(q).(free := q.free)
        invariant forall k :: 0 <= k < |idx| ==> 0 <= idx[k] < NUM && old(q).free[idx[k]] && !q.free[idx[k]]
        invariant forall k, l :: 0 <= k < l < |idx| ==> idx[k] != idx[l]
        invariant forall d :: 0 <= d < NUM && d !in idx ==> q.free[d] == old(q).free[d]
        decreases 3 - |idx|
      {
        var i := AllocDesc();
        if i < 0 {
          Undo(idx, old(q));
          return [];
        }
        idx := idx + [i];
      }
    }

    /** The inner loop of alloc3_desc: give back what has been taken. */
    method Undo(idx: seq<int>, ghost q0: Queue)
      requires |q.free| == |q.desc| == |q0.free| == NUM && q == q0.(free := q.free)
      requires forall k :: 0 <= k < |idx| ==>
               0 <= idx[k] < NUM && q0.free[idx[k]] && !q.free[idx[k]] && q.desc[idx[k]] == EMPTY
      requires forall k, l :: 0 <= k < l < |idx| ==> idx[k] != idx[l]
      requires forall d :: 0 <= d < NUM && d !in idx ==> q.free[d] == q0.free[d]
      modifies `q
      ensures q == q0
    {
      var j := 0;
      while j < |idx|
        invariant 0 <= j <= |idx| && |q.free| == NUM && q == q0.(free := q.free)
        invariant forall k :: 0 <= k < |idx| ==> q.free[idx[k]] == (k < j)
        invariant forall d :: 0 <= d < NUM && d !in idx ==> q.free[d] == q0.free[d]
      {
        FreeDesc(idx[j]);
        assert q.desc == q0.desc;
        j := j + 1;
      }
      assert q.free == q0.free;
    }

    /** free_chain follows the links: it frees exactly the three descriptors of the request. */
    method FreeChain(h: int)
      requires Shape(q, g) && h in g.reqs && Chain(q, g, h) && !q.free[h] && !q.free[g.reqs[h].i1]
               && !q.free[g.reqs[h].i2]
      modifies `q
      ensures q == old(q).(free := old(q).free[h := true][g.reqs[h].i1 := true][g.reqs[h].i2 := true],
                           desc := old(q).desc[h := EMPTY][g.reqs[h].i1 := EMPTY][g.reqs[h].i2 := EMPTY])
    {
      var i := h;
      ghost var done := 0;
      ghost var q0, r := q, g.reqs[h];
      while true
        invariant 0 <= done <= 2 && i == (if done == 0 then h else if done == 1 then r.i1 else r.i2)
        invariant q == if done == 0 then q0
                  else if done == 1 then q0.(free := q0.free[h := true], desc := q0.desc[h := EMPTY])
                       else q0.(free := q0.free[h := true][r.i1 := true], desc := q0.desc[h := EMPTY][r.i1 := EMPTY])
        decreases 2 - done
      {
        var d := q.desc[i];
        FreeDesc(i);
        if !d.hasNext { break; }
        i := d.next;
        done := done + 1;
      }
    }

    /** The first part of virtio_disk_rw: descriptors, command, data and status are set up, and the
        buffer is marked busy. -1 stands for having to wait for descriptors. */
    method Start(b: int, write: bool, blockno: int) returns (h: int)
      requires Valid() && g.forming.None? && b !in g.holder
      modifies this
      ensures Valid()
      ensures h == -1 ==> q == old(q) && g == old(g)
      ensures h == -1 ==> !ThreeFree(q.free)
      ensures h != -1 ==>
                && h !in old(g).reqs && h in g.reqs && g.reqs == old(g).reqs[h := g.reqs[h]] && g.forming == Some(h)
                && q.busy == old(q).busy[b := true] && g.reqs[h].b == b && g.reqs[h].write == write
                && g.reqs[h].sector == blockno * 2 && g.reqs[h].stage == Formed
                && q == old(q).(free := q.free, desc := q.desc, ops := q.ops, info := q.info, busy := q.busy)
                && 0 <= h < NUM && q.info == old(q).info[h := Info(Some(b), 0xff)]
                && g == old(g).(reqs := g.reqs, owner := g.owner, holder := g.holder, forming := g.forming)
    {
      ghost var q0 := q;
      var idx := Alloc3Desc();
      if idx == [] { return -1; }
      h := idx[0];
      var sector := blockno * (BSIZE / 512);
      StartKeeps(q0, g, b, write, sector, h, idx[1], idx[2]);
      q := q.(ops := q.ops[h := Op(write, sector)]);
      q := q.(desc := q.desc[h := Desc(OpAddr(h), true, false, idx[1])][idx[1] := Desc(DataAddr(b), true, !write,
          idx[2])][idx[2] := Desc(StatusAddr(h), false, true, 0)]);
      q := q.(info := q.info[h := Info(Some(b), PENDING)]);
      q := q.(busy := q.busy[b := true]);
      g := Begun(g, b, write, sector, h, idx[1], idx[2]);
    }

    /** The head goes into the avail ring; no slot that the device has still to read is touched. */
    method Ring(h: int)
      requires Valid() && g.forming == Some(h) && h in g.reqs && g.reqs[h].stage == Formed
      modifies this
      ensures Valid() && g == At(old(g), h, Ringed)
      ensures q == old(q).(availRing := old(q).availRing[old(q).availIdx % NUM := h])
    {
      RingKeeps(q, g, h);
      q := q.(availRing := q.availRing[q.availIdx % NUM := h]);
      g := At(g, h, Ringed);
    }

    /** avail->idx is increased, modulo 2^16, and the driver waits. */
    method Publish(h: int)
      requires Valid() && g.forming == Some(h) && h in g.reqs && g.reqs[h].stage == Ringed
      modifies this
      ensures Valid() && q == old(q).(availIdx := (old(q).availIdx + 1) % WRAP)
      ensures g == At(old(g), h, Offered(old(g).availN)).(forming := None, availN := old(g).availN + 1,
                                                          offered := old(g).offered[old(g).availN := h])
    {
      PublishKeeps(q, g, h);
      q := q.(availIdx := (q.availIdx + 1) % WRAP);
      g := At(g, h, Offered(g.availN)).(forming := None, availN := g.availN + 1, offered := g.offered[g.availN := h]);
    }

    /** The device takes a request if there is one, in the order of submission, and reads from its
        chain exactly what was submitted. */
    method Fetch() returns (h: int, op: Op, data: Addr, deviceWrites: bool, status: Addr)
      requires Valid()
      modifies this
      ensures Valid() && (h == -1 <==> old(g).devN == old(g).availN) && (h == -1 ==> q == old(q) && g == old(g))
      ensures h != -1 ==>
                && q == old(q).(devIdx := (old(q).devIdx + 1) % WRAP)
                && h in old(g).reqs && old(g).reqs[h].stage == Offered(old(g).devN)
                   && g == At(old(g), h, Taken).(devN := old(g).devN + 1)
                && op == Op(g.reqs[h].write, g.reqs[h].sector) && data == DataAddr(g.reqs[h].b)
                && deviceWrites == !g.reqs[h].write && status == StatusAddr(h)
    {
      AvailLag(q, g);
      if q.devIdx == q.availIdx { return -1, Op(false, 0), Null, false, Null; }
      FetchKeeps(q, g);
      h := q.availRing[q.devIdx % NUM];
      var d0 := q.desc[h];
      var d1 := q.desc[d0.next];
      var d2 := q.desc[d1.next];
      op, data, deviceWrites, status := q.ops[d0.addr.i], d1.addr, d1.deviceWrites, d2.addr;
      q := q.(devIdx := (q.devIdx + 1) % WRAP);
      g := At(g, h, Taken).(devN := g.devN + 1);
    }

    /** The device writes the status byte of a request that it has carried out, in any order. */
    method Report(h: int)
      requires Valid() && h in g.reqs && g.reqs[h].stage == Taken
      modifies this
      ensures Valid() && g == At(old(g), h, Reported)
      ensures 0 <= h < NUM && old(q).info[h].status == 0xff
      ensures q == old(q).(info := old(q).info[h := old(q).info[h].(status := 0)])
    {
      ReportKeeps(q, g, h);
      assert Progress(q, g, h);
      q := q.(info := q.info[h := q.info[h].(status := 0)]);
      g := At(g, h, Reported);
    }

    /** The device puts the head into the used ring. */
    method List(h: int)
      requires Valid() && g.listing.None? && h in g.reqs && g.reqs[h].stage == Reported
      modifies this
      ensures Valid() && g == At(old(g), h, Listed).(listing := Some(h))
      ensures q == old(q).(usedRing := old(q).usedRing[old(q).usedPub % NUM := h])
    {
      ListKeeps(q, g, h);
      q := q.(usedRing := q.usedRing[q.usedPub % NUM := h]);
      g := At(g, h, Listed).(listing := Some(h));
    }

    /** The device increases used->idx, modulo 2^16. */
    method Post(ghost h: int)
      requires Valid() && g.listing == Some(h)
      modifies this
      ensures Valid() && h in old(g).reqs && q == old(q).(usedPub := (old(q).usedPub + 1) % WRAP)
      ensures g == At(old(g), h, Posted(old(g).usedN)).(listing := None, usedN := old(g).usedN + 1,
                                                        posted := old(g).posted[old(g).usedN := h])
    {
      PostKeeps(q, g, h);
      q := q.(usedPub := (q.usedPub + 1) % WRAP);
      g := At(g, h, Posted(g.usedN)).(listing := None, usedN := g.usedN + 1, posted := g.posted[g.usedN := h]);
    }

    /** One turn of virtio_disk_intr: the next completion, if there is one, clears disk in the
        buffer that was submitted, and in no other. The status panic is out of reach. */
    method See() returns (b: Option<int>)
      requires Valid() && g.forming.None?
      modifies this
      ensures Valid() && (b.None? <==> old(g).seenN == old(g).usedN) && (b.None? ==> q == old(q) && g == old(g))
      ensures b.Some? ==> old(g).seenN in old(g).posted && old(g).posted[old(g).seenN] in old(g).reqs
      ensures b.Some? ==>
                var h := old(g).posted[old(g).seenN];
                && b.value == old(g).reqs[h].b && q.busy == old(q).busy[b.value := false] && b.value in old(q).busy
                   && old(q).busy[b.value]
                && q == old(q).(busy := q.busy, usedIdx := (old(q).usedIdx + 1) % WRAP)
                && g == At(old(g), h, Seen).(seenN := old(g).seenN + 1)
    {
      UsedLag(q, g);
      if q.usedIdx == q.usedPub { return None; }
      SeeKeeps(q, g);
      var id := q.usedRing[q.usedIdx % NUM];
      assert id == g.posted[g.seenN] by { Wrapped(g.seenN); assert g.seenN in g.posted; }
      assert Progress(q, g, id);
      if q.info[id].status != 0 {
        assert false;
      }
      b := q.info[id].b;
      q := q.(busy := q.busy[b.value := false]);
      q := q.(usedIdx := (q.usedIdx + 1) % WRAP);
      g := At(g, id, Seen).(seenN := g.seenN + 1);
    }

    /** The last part of virtio_disk_rw, reached once disk is clear: the chain is freed. */
    method Finish(h: int, b: int)
      requires Valid() && g.forming.None? && h in g.reqs && g.reqs[h].b == b && b in q.busy && !q.busy[b]
      modifies this
      ensures Valid() && old(g).reqs[h].stage == Seen && g == Ended(old(g), h) && Chain(old(q), old(g), h)
      ensures q.free == old(q).free[h := true][old(g).reqs[h].i1 := true][old(g).reqs[h].i2 := true]
              && q.busy == old(q).busy
    {
      assert Progress(q, g, h);
      FinishKeeps(q, g, h);
      ghost var q0 := q;
      q := q.(info := q.info[h := q.info[h].(b := None)]);
      assert Chain(q, g, h);
      FreeChain(h);
      g := Ended(g, h);
    }

    /** virtio_disk_rw on an idle queue: there are descriptors. */
    method StartIdle(b: int, write: bool, blockno: int) returns (h: int)
      requires Valid() && g.reqs == map[]
      modifies this
      ensures Valid() && Only(g, h, b, write, blockno, Formed) && g.forming == Some(h) && g.listing.None?
      ensures g.devN == g.availN && g.seenN == g.usedN && q.busy == old(q).busy[b := true]
    {
      Idle(q, g);
      h := Start(b, write, blockno);
      assert g.reqs.Keys == {h};
    }

    /** The second part of virtio_disk_rw, up to its wait. */
    method Offer(h: int)
      requires Valid() && g.forming == Some(h) && h in g.reqs && g.reqs[h].stage == Formed
      modifies this
      ensures Valid() && q.busy == old(q).busy
      ensures g == At(old(g), h, Offered(old(g).availN)).(forming := None, availN := old(g).availN + 1,
                                                          offered := old(g).offered[old(g).availN := h])
    {
      Ring(h);
      Publish(h);
    }

    /** The device serves the only request. */
    method Serve(ghost h: int, ghost b: int, ghost write: bool, ghost blockno: int)
      returns (op: Op, data: Addr, deviceWrites: bool)
      requires Valid() && Only(g, h, b, write, blockno, Offered(g.devN)) && g.forming.None? && g.listing.None?
      requires g.availN == g.devN + 1 && g.seenN == g.usedN
      modifies this
      ensures Valid() && Only(g, h, b, write, blockno, Posted(old(g).usedN)) && g.forming.None?
      ensures g.seenN == old(g).usedN && g.usedN == old(g).usedN + 1 && g.seenN in g.posted && g.posted[g.seenN] == h
      ensures op == Op(write, blockno * 2) && data == DataAddr(b) && deviceWrites == !write && q.busy == old(q).busy
    {
      var k, status;
      k, op, data, deviceWrites, status := Fetch();
      Report(k);
      List(k);
      Post(k);
    }

    /** The interrupt handler and the rest of virtio_disk_rw complete the only request. */
    method Complete(h: int, b: int, ghost write: bool, ghost blockno: int)
      requires Valid() && g.forming.None? && g.seenN < g.usedN && g.seenN in g.posted && g.posted[g.seenN] == h
      requires Only(g, h, b, write, blockno, Posted(g.seenN))
      modifies this
      ensures Valid() && g.reqs == map[] && q.busy == old(q).busy[b := false]
    {
      var seen := See();
      Finish(h, b);
    }

    /** From the wait of virtio_disk_rw to its end. */
    method Turnaround(h: int, b: int, ghost write: bool, ghost blockno: int)
      returns (op: Op, data: Addr, deviceWrites: bool)
      requires Valid() && Only(g, h, b, write, blockno, Offered(g.devN)) && g.forming.None? && g.listing.None?
      requires g.availN == g.devN + 1 && g.seenN == g.usedN
      modifies this
      ensures Valid() && g.reqs == map[]
      ensures op == Op(write, blockno * 2) && data == DataAddr(b) && deviceWrites == !write
      ensures q.busy == old(q).busy[b := false]
    {
      op, data, deviceWrites := Serve(h, b, write, blockno);
      Complete(h, b, write, blockno);
    }

    /** A whole request on an idle queue: the device is told to read or write the two sectors of the
        block, at the buffer's data; the buffer is not busy at the end, and every descriptor is free. */
    method ReadOrWrite(b: int, write: bool, blockno: int) returns (op: Op, data: Addr, deviceWrites: bool)
      requires Valid() && g.reqs == map[]
      modifies this
      ensures Valid() && g.reqs == map[]
      ensures op == Op(write, blockno * 2) && data == DataAddr(b) && deviceWrites == !write
      ensures q.busy == old(q).busy[b := false] && forall d :: 0 <= d < NUM ==> q.free[d]
    {
      var h := StartIdle(b, write, blockno);
      Offer(h);
      op, data, deviceWrites := Turnaround(h, b, write, blockno);
      Idle(q, g);
    }
  }
}
