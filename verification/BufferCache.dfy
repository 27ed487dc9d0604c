/** The buffer cache of kernel/bio.c: a fixed set of buffers on one circular doubly linked list,
    most recently released first, over a disk of blocks. */
module BufferCache {
  import opened Blocks
  import opened Common
  import opened Params
  import opened LogSpec
  import opened Counting

  const HEAD := NBUF   // the list position of bcache.head; buffers are 0..NBUF

  // Keys of the predicates about the list and about which buffer holds what.
  const LIST := 1
  const INDEX := 2

  /** struct buf without its list links. */
  datatype Buf = Buf(valid: bool, dev: nat, blockno: nat, locked: bool, refcnt: nat, data: Block)

  // ---- the circular list -----------------------------------------------------------------

  /** The k-th node after bcache.head; the head itself before the first and after the last. */
  function At(order: seq<nat>, k: int): nat {
    if 0 <= k < |order| then order[k] else HEAD
  }

  /** next and prev link the nodes of order, and the head, into one ring. */
  ghost predicate Ring(next: seq<nat>, prev: seq<nat>, order: seq<nat>) {
    && |next| == NBUF + 1 && |prev| == NBUF + 1
    && Distinct(order)
    && (forall k :: 0 <= k < |order| ==> order[k] < NBUF)
    && next[HEAD] == At(order, 0) && prev[HEAD] == At(order, |order| - 1)
    && (forall k {:trigger next[order[k]]} :: 0 <= k < |order| ==> next[order[k]] == At(order, k + 1))
    && (forall k {:trigger prev[order[k]]} :: 0 <= k < |order| ==> prev[order[k]] == At(order, k - 1))
  }

  lemma UnlinkAt(next: seq<nat>, prev: seq<nat>, order: seq<nat>, k: nat, i: nat)
    requires Ring(next, prev, order) && k < |order| && i < |order| - 1
    ensures var b, o := order[k], Without(order, k);
            && next[b] <= HEAD && prev[b] <= HEAD && o[i] < NBUF
            && next[prev[b] := next[b]][o[i]] == At(o, i + 1)
            && prev[next[b] := prev[b]][o[i]] == At(o, i - 1)
  {
    var b, o := order[k], Without(order, k);
    assert next[b] == At(order, k + 1) && prev[b] == At(order, k - 1);
    var j := if i < k then i else i + 1;
    assert o[i] == order[j] && next[order[j]] == At(order, j + 1) && prev[order[j]] == At(order, j - 1);
    assert At(o, i + 1) == if j == k - 1 then At(order, k + 1) else At(order, j + 1);
    assert At(o, i - 1) == if j == k + 1 then At(order, k - 1) else At(order, j - 1);
    assert At(order, k - 1) == order[j] <==> j == k - 1;
    assert At(order, k + 1) == order[j] <==> j == k + 1;
  }

  lemma WithoutDistinct(order: seq<nat>, k: nat)
    requires Distinct(order) && k < |order|
    ensures Distinct(Without(order, k))
  {
    var o := Without(order, k);
    forall i, j | 0 <= i < j < |o| ensures o[i] != o[j] {
      var i', j' := if i < k then i else i + 1, if j < k then j else j + 1;
      assert o[i] == order[i'] && o[j] == order[j'];
    }
  }

  lemma UnlinkEnds(next: seq<nat>, prev: seq<nat>, order: seq<nat>, k: nat)
    requires Ring(next, prev, order) && k < |order|
    ensures var b, o := order[k], Without(order, k);
            && next[b] <= HEAD && prev[b] <= HEAD
            && next[prev[b] := next[b]][HEAD] == At(o, 0) && prev[next[b] := prev[b]][HEAD] == At(o, |o| - 1)
  {
    var b, o := order[k], Without(order, k);
    assert next[b] == At(order, k + 1) && prev[b] == At(order, k - 1);
    assert At(o, 0) == if k == 0 then At(order, 1) else At(order, 0);
    assert At(o, |o| - 1) == if k == |o| then At(order, k - 1) else At(order, |order| - 1);
    assert At(order, k - 1) == HEAD <==> k == 0;
    assert At(order, k + 1) == HEAD <==> k == |o|;
  }

  /** Taking a node out of the ring by joining its neighbours. */
  lemma UnlinkRing(next: seq<nat>, prev: seq<nat>, order: seq<nat>, k: nat)
    requires Ring(next, prev, order) && k < |order|
    ensures var b := order[k];
            && next[b] <= HEAD && prev[b] <= HEAD
            && Ring(next[prev[b] := next[b]], prev[next[b] := prev[b]], Without(order, k))
  {
    var b, o := order[k], Without(order, k);
    UnlinkEnds(next, prev, order, k);
    WithoutDistinct(order, k);
    var next', prev' := next[prev[b] := next[b]], prev[next[b] := prev[b]];
    forall i: nat | i < |o| ensures o[i] < NBUF && next'[o[i]] == At(o, i + 1) && prev'[o[i]] == At(o, i - 1) {
      UnlinkAt(next, prev, order, k, i);
    }
  }

  lemma LinkFrontAt(next: seq<nat>, prev: seq<nat>, order: seq<nat>, b: nat, i: nat)
    requires Ring(next, prev, order) && b < NBUF && b !in order && i <= |order|
    ensures var o := [b] + order;
            && next[HEAD] <= HEAD && o[i] < NBUF
            && next[b := next[HEAD]][HEAD := b][o[i]] == At(o, i + 1)
            && prev[b := HEAD][next[HEAD] := b][o[i]] == At(o, i - 1)
  {
    var o := [b] + order;
    assert At(o, i + 1) == At(order, i) && (i > 1 ==> At(o, i - 1) == At(order, i - 2));
    if i > 0 {
      assert o[i] == order[i - 1] && next[order[i - 1]] == At(order, i) && prev[order[i - 1]] == At(order, i - 2);
      assert order[i - 1] == order[0] <==> i == 1;
    }
  }

  lemma LinkFrontEnds(next: seq<nat>, prev: seq<nat>, order: seq<nat>, b: nat)
    requires Ring(next, prev, order) && b < NBUF
    ensures var o := [b] + order;
            && next[HEAD] <= HEAD
            && next[b := next[HEAD]][HEAD := b][HEAD] == At(o, 0)
            && prev[b := HEAD][next[HEAD] := b][HEAD] == At(o, |o| - 1)
  {
    if |order| > 0 {
      assert ([b] + order)[|order|] == order[|order| - 1];
    }
  }

  lemma ConsDistinct(order: seq<nat>, b: nat)
    requires Distinct(order) && b !in order
    ensures Distinct([b] + order)
  {
  }

  /** Putting a node right behind the head. */
  lemma LinkFrontRing(next: seq<nat>, prev: seq<nat>, order: seq<nat>, b: nat)
    requires Ring(next, prev, order) && b < NBUF && b !in order
    ensures next[HEAD] <= HEAD
    ensures Ring(next[b := next[HEAD]][HEAD := b], prev[b := HEAD][next[HEAD] := b], [b] + order)
  {
    var o := [b] + order;
    LinkFrontEnds(next, prev, order, b);
    ConsDistinct(order, b);
    var next', prev' := next[b := next[HEAD]][HEAD := b], prev[b := HEAD][next[HEAD] := b];
    forall i: nat | i < |o| ensures o[i] < NBUF && next'[o[i]] == At(o, i + 1) && prev'[o[i]] == At(o, i - 1) {
      LinkFrontAt(next, prev, order, b, i);
    }
  }

  /** The six pointer updates of brelse, in its order, move the k-th node to the front. */
  lemma MoveRing(next: seq<nat>, prev: seq<nat>, order: seq<nat>, k: nat)
    requires Ring(next, prev, order) && k < |order|
    ensures var b := order[k];
            && next[b] <= HEAD && prev[b] <= HEAD
            && var prev1 := prev[next[b] := prev[b]];
            && prev1[b] <= HEAD
            && var next1 := next[prev1[b] := next[b]];
            && next1[HEAD] <= HEAD
            && Ring(next1[b := next1[HEAD]][HEAD := b], prev1[b := HEAD][next1[HEAD] := b], [b] + Without(order, k))
  {
    var b := order[k];
    UnlinkRing(next, prev, order, k);
    assert next[b] != b by {
      assert next[order[k]] == At(order, k + 1);
    }
    LinkFrontRing(next[prev[b] := next[b]], prev[next[b] := prev[b]], Without(order, k), b);
  }

  /** NBUF distinct nodes are all of them: the list is a permutation of the buffers. */
  lemma Everyone(order: seq<nat>, i: nat)
    requires Distinct(order) && |order| == NBUF && (forall k :: 0 <= k < |order| ==> order[k] < NBUF)
    requires i < NBUF
    ensures i in order
  {
    BelowCount(order, NBUF);
  }

  /** The front goes to the newest stamp, the rest keep theirs. */
  ghost predicate Newest(order: seq<nat>, stamp: seq<int>) {
    && (forall k :: 0 <= k < |order| ==> order[k] < |stamp|)
    && forall j, k :: 0 <= j < k < |order| ==> stamp[order[j]] > stamp[order[k]]
  }

  lemma NewestFront(order: seq<nat>, stamp: seq<int>, k: nat, now: int)
    requires Newest(order, stamp) && Distinct(order) && k < |order|
    requires forall i :: 0 <= i < |stamp| ==> stamp[i] < now
    ensures Newest([order[k]] + Without(order, k), stamp[order[k] := now])
  {
    var o, s := [order[k]] + Without(order, k), stamp[order[k] := now];
    forall i, j | 0 <= i < j < |o| ensures s[o[i]] > s[o[j]] {
      var j' := if j <= k then j - 1 else j;
      assert o[j] == order[j'] && j' != k;
      if i > 0 {
        var i' := if i <= k then i - 1 else i;
        assert o[i] == order[i'] && i' < j' && i' != k;
      }
    }
  }

  /** One ring through all buffers, most recently released first. */
  ghost predicate LruList(next: seq<nat>, prev: seq<nat>, order: seq<nat>, stamp: seq<int>, clock: int) {
    && |order| == NBUF && |stamp| == NBUF
    && Ring(next, prev, order)
    && Newest(order, stamp)
    && (forall i :: 0 <= i < NBUF ==> stamp[i] <= clock)
  }

  ghost predicate Listed(next: seq<nat>, prev: seq<nat>, order: seq<nat>, stamp: seq<int>, clock: int) {
    && |next| == |prev| == NBUF + 1 && |order| == |stamp| == NBUF
    && forall n {:trigger Open(n)} :: Open(n) && n == LIST ==> LruList(next, prev, order, stamp, clock)
  }

  /** Every buffer is somewhere on the list. */
  lemma Position(next: seq<nat>, prev: seq<nat>, order: seq<nat>, stamp: seq<int>, clock: int, b: nat) returns (k: nat)
    requires Listed(next, prev, order, stamp, clock) && b < NBUF
    ensures k < NBUF && order[k] == b
  {
    assert Open(LIST);
    Everyone(order, b);
    k :| 0 <= k < NBUF && order[k] == b;
  }

  /** Moving the k-th buffer to the front at the next tick of the clock. */
  lemma MoveFront(next: seq<nat>, prev: seq<nat>, order: seq<nat>, stamp: seq<int>, clock: int, k: nat)
    requires Listed(next, prev, order, stamp, clock) && k < NBUF
    ensures forall i :: 0 <= i < NBUF ==> stamp[i] <= clock
    ensures var b := order[k];
            && b < NBUF && next[b] <= HEAD && prev[b] <= HEAD
            && var prev1 := prev[next[b] := prev[b]];
            && prev1[b] <= HEAD
            && var next1 := next[prev1[b] := next[b]];
            && next1[HEAD] <= HEAD
            && Listed(next1[b := next1[HEAD]][HEAD := b], prev1[b := HEAD][next1[HEAD] := b],
                       [b] + Without(order, k), stamp[b := clock + 1], clock + 1)
  {
    assert Open(LIST);
    MoveRing(next, prev, order, k);
    NewestFront(order, stamp, k, clock + 1);
  }

  // ---- which buffer holds what -----------------------------------------------------------

  datatype Key = Key(dev: nat, blockno: nat)

  function KeyOf(b: Buf): Key { Key(b.dev, b.blockno) }

  /** where maps each cached block of a real device to its buffer; unused buffers have device 0. */
  ghost predicate Indexed(bufs: seq<Buf>, where: map<Key, nat>) {
    forall n {:trigger Open(n)} :: Open(n) && n == INDEX ==>
      && (forall i {:trigger bufs[i]} :: 0 <= i < |bufs| && bufs[i].dev != 0 ==>
          KeyOf(bufs[i]) in where && where[KeyOf(bufs[i])] == i)
      && (forall k :: k in where ==> k.dev != 0 && where[k] < |bufs| && KeyOf(bufs[where[k]]) == k)
  }

  /** At most one buffer holds any block of a real device, and where finds it. */
  lemma CachedOnce(bufs: seq<Buf>, where: map<Key, nat>)
    requires Indexed(bufs, where)
    ensures forall i, j :: 0 <= i < j < |bufs| && bufs[i].dev != 0 ==> KeyOf(bufs[i]) != KeyOf(bufs[j])
    ensures forall k: Key :: k.dev != 0 ==> (k in where <==> exists i :: 0 <= i < |bufs| && KeyOf(bufs[i]) == k)
  {
    assert Open(INDEX);
    forall k: Key | k.dev != 0 ensures k in where <==> exists i :: 0 <= i < |bufs| && KeyOf(bufs[i]) == k {
      if k in where {
        assert KeyOf(bufs[where[k]]) == k;
      }
    }
  }

  lemma SameKey(bufs: seq<Buf>, where: map<Key, nat>, b: nat, nb: Buf)
    requires Indexed(bufs, where) && b < |bufs| && KeyOf(nb) == KeyOf(bufs[b])
    ensures Indexed(bufs[b := nb], where)
  {
    assert Open(INDEX);
  }

  /** Handing buffer b over to a block that was not cached. */
  lemma NewKey(bufs: seq<Buf>, where: map<Key, nat>, b: nat, nb: Buf)
    requires Indexed(bufs, where) && b < |bufs| && nb.dev != 0 && KeyOf(nb) !in where
    ensures Indexed(bufs[b := nb], (where - {KeyOf(bufs[b])})[KeyOf(nb) := b])
  {
    assert Open(INDEX);
  }

  class Cache {
    var bufs: seq<Buf>
    var next: seq<nat>
    var prev: seq<nat>
    var disk: Disk
    ghost var order: seq<nat>     // the buffers from bcache.head.next on
    ghost var stamp: seq<int>     // when each buffer last went to the front
    ghost var clock: int
    ghost var where: map<Key, nat>
    ghost var refs: seq<nat>      // references that processes hold, waiting for or owning the lock
    ghost var pins: seq<nat>      // references that the log holds
    ghost var writes: seq<Write>  // every block write so far

    ghost predicate ListOk()
      reads this`next, this`prev, this`order, this`stamp, this`clock
    {
      Listed(next, prev, order, stamp, clock)
    }

    ghost predicate RefsOk()
      reads this`bufs, this`where, this`refs, this`pins
    {
      && |bufs| == NBUF && |refs| == NBUF && |pins| == NBUF
      && Indexed(bufs, where)
      && (forall i :: 0 <= i < NBUF ==> bufs[i].refcnt == refs[i] + pins[i] && (bufs[i].locked ==> refs[i] >= 1))
    }

    ghost predicate Valid()
      reads this
    {
      ListOk() && RefsOk()
    }

    /** binit: push the buffers one by one behind the head. */
    constructor (disk: Disk)
      ensures Valid() && this.disk == disk && writes == []
      ensures forall i :: 0 <= i < NBUF ==> bufs[i] == Buf(false, 0, 0, false, 0, ZeroBlock)
      ensures where == map[]
      ensures forall i :: 0 <= i < NBUF ==> refs[i] == 0 && pins[i] == 0
    {
      this.disk := disk;
      bufs := seq(NBUF, i => Buf(false, 0, 0, false, 0, ZeroBlock));
      next := seq(NBUF + 1, i => HEAD);
      prev := seq(NBUF + 1, i => HEAD);
      order, writes, clock, where := [], [], NBUF, map[];
      stamp := seq(NBUF, i => i);
      refs := seq(NBUF, i => 0);
      pins := seq(NBUF, i => 0);
      new;
      var b := 0;
      while b < NBUF
        invariant 0 <= b <= NBUF && |order| == b
        invariant forall k :: 0 <= k < b ==> order[k] == b - 1 - k
        invariant Ring(next, prev, order)
        invariant bufs == seq(NBUF, i => Buf(false, 0, 0, false, 0, ZeroBlock))
        invariant stamp == seq(NBUF, i => i) && refs == pins == seq(NBUF, i => 0)
        invariant clock == NBUF && writes == [] && where == map[] && this.disk == disk
      {
        LinkFrontRing(next, prev, order, b);
        next := next[b := next[HEAD]];
        prev := prev[b := HEAD];
        prev := prev[next[HEAD] := b];
        next := next[HEAD := b];
        order := [b] + order;
        b := b + 1;
      }
    }

    /** First loop of bget: is the block cached? Answers HEAD if not. */
    method Scan(dev: nat, blockno: nat) returns (b: nat)
      requires Valid() && dev != 0
      ensures b != HEAD ==> b < NBUF && KeyOf(bufs[b]) == Key(dev, blockno) && Key(dev, blockno) in where
                            && where[Key(dev, blockno)] == b
      ensures b == HEAD ==> Key(dev, blockno) !in where
    {
      assert Open(LIST);
      b := next[HEAD];
      ghost var k := 0;
      while b != HEAD
        invariant 0 <= k <= NBUF && b == At(order, k)
        invariant forall j :: 0 <= j < k ==> KeyOf(bufs[order[j]]) != Key(dev, blockno)
        decreases NBUF - k
      {
        if bufs[b].dev == dev && bufs[b].blockno == blockno {
          assert Open(INDEX);
          return;
        }
        assert next[order[k]] == At(order, k + 1);
        b, k := next[b], k + 1;
      }
      assert Open(INDEX);
      if Key(dev, blockno) in where {
        Everyone(order, where[Key(dev, blockno)]);
      }
    }

    /** Second loop of bget: the unreferenced buffer released least recently, or HEAD. */
    method Victim() returns (b: nat)
      requires Valid()
      ensures b == HEAD <==> forall i :: 0 <= i < NBUF ==> bufs[i].refcnt > 0
      ensures b != HEAD ==> b < NBUF && bufs[b].refcnt == 0
      ensures b != HEAD ==> forall i :: 0 <= i < NBUF && bufs[i].refcnt == 0 ==> stamp[b] <= stamp[i]
    {
      assert Open(LIST);
      b := prev[HEAD];
      ghost var k := NBUF - 1;
      while b != HEAD
        invariant -1 <= k < NBUF && b == At(order, k)
        invariant forall j :: k < j < NBUF ==> bufs[order[j]].refcnt > 0
        decreases k
      {
        if bufs[b].refcnt == 0 {
          forall i | 0 <= i < NBUF && bufs[i].refcnt == 0 ensures stamp[b] <= stamp[i] {
            Everyone(order, i);
            var j :| 0 <= j < NBUF && order[j] == i;
          }
          return;
        }
        assert prev[order[k]] == At(order, k - 1);
        b, k := prev[b], k - 1;
      }
      forall i | 0 <= i < NBUF ensures bufs[i].refcnt > 0 {
        Everyone(order, i);
        var j :| 0 <= j < NBUF && order[j] == i;
      }
    }

    /** bget up to the release of bcache.lock: find the block, or recycle the unreferenced
        buffer that was released least recently. None is the panic "bget: no buffers". */
    method Get(dev: nat, blockno: nat) returns (r: Option<nat>)
      requires Valid() && dev != 0
      modifies this`bufs, this`refs, this`where
      ensures Valid()
      ensures r.None? <==> Key(dev, blockno) !in old(where) && forall i :: 0 <= i < NBUF ==> old(bufs)[i].refcnt > 0
      ensures r.None? ==> bufs == old(bufs) && refs == old(refs) && where == old(where)
      ensures r.Some? ==> r.value < NBUF && KeyOf(bufs[r.value]) == Key(dev, blockno)
                          && refs == old(refs)[r.value := old(refs)[r.value] + 1]
      ensures r.Some? && Key(dev, blockno) in old(where) ==>
                && where == old(where) && r.value == where[Key(dev, blockno)]
                && bufs == old(bufs)[r.value := old(bufs)[r.value].(refcnt := old(bufs)[r.value].refcnt + 1)]
      ensures r.Some? && Key(dev, blockno) !in old(where) ==>
                && old(bufs)[r.value].refcnt == 0
                && (forall i :: 0 <= i < NBUF && old(bufs)[i].refcnt == 0 ==> stamp[r.value] <= stamp[i])
                && bufs == old(bufs)[r.value := Buf(false, dev, blockno, false, 1, old(bufs)[r.value].data)]
                && where == (old(where) - {KeyOf(old(bufs)[r.value])})[Key(dev, blockno) := r.value]
    {
      var b := Scan(dev, blockno);
      if b != HEAD {
        SameKey(bufs, where, b, bufs[b].(refcnt := bufs[b].refcnt + 1));
        bufs := bufs[b := bufs[b].(refcnt := bufs[b].refcnt + 1)];
        refs := refs[b := refs[b] + 1];
        return Some(b);
      }
      b := Victim();
      if b != HEAD {
        assert !bufs[b].locked;
        NewKey(bufs, where, b, Buf(false, dev, blockno, false, 1, bufs[b].data));
        where := (where - {KeyOf(bufs[b])})[Key(dev, blockno) := b];
        bufs := bufs[b := bufs[b].(dev := dev, blockno := blockno, valid := false, refcnt := 1)];
        refs := refs[b := refs[b] + 1];
        return Some(b);
      }
      r := None;
    }

    /** The rest of bget and bread: take the sleep-lock, and read the disk on a cold buffer. */
    method LockAndFill(b: nat)
      requires Valid() && b < NBUF && refs[b] >= 1 && !bufs[b].locked && bufs[b].blockno < |disk|
      modifies this`bufs
      ensures Valid()
      ensures bufs == old(bufs)[b := old(bufs)[b].(locked := true, valid := true,
                        data := if old(bufs)[b].valid then old(bufs)[b].data else disk[old(bufs)[b].blockno])]
    {
      bufs := bufs[b := bufs[b].(locked := true)];
      if !bufs[b].valid {
        bufs := bufs[b := bufs[b].(data := disk[bufs[b].blockno])];
        bufs := bufs[b := bufs[b].(valid := true)];
      }
    }

    /** The owner of the lock changes the bytes. */
    method Store(b: nat, data: Block)
      requires Valid() && b < NBUF && bufs[b].locked
      modifies this`bufs
      ensures Valid() && bufs == old(bufs)[b := old(bufs)[b].(data := data)]
    {
      bufs := bufs[b := bufs[b].(data := data)];
    }

    method Bwrite(b: nat)
      requires Valid() && b < NBUF && bufs[b].locked && bufs[b].blockno < |disk|
      modifies this`disk, this`writes
      ensures Valid() && disk == old(disk)[bufs[b].blockno := bufs[b].data]
      ensures writes == old(writes) + [Write(bufs[b].blockno, bufs[b].data)]
    {
      disk := disk[bufs[b].blockno := bufs[b].data];
      writes := writes + [Write(bufs[b].blockno, bufs[b].data)];
    }

    /** The relinking in brelse: take b out of the list and put it behind the head. */
    method MoveToFront(b: nat)
      requires ListOk() && b < NBUF
      modifies this`next, this`prev, this`order, this`stamp, this`clock
      ensures ListOk()
      ensures order[0] == b
      ensures forall i :: 0 <= i < NBUF && i != b ==> stamp[i] == old(stamp)[i] && stamp[i] < stamp[b]
    {
      ghost var k := Position(next, prev, order, stamp, clock, b);
      MoveFront(next, prev, order, stamp, clock, k);
      prev := prev[next[b] := prev[b]];
      next := next[prev[b] := next[b]];
      next := next[b := next[HEAD]];
      prev := prev[b := HEAD];
      prev := prev[next[HEAD] := b];
      next := next[HEAD := b];
      order, stamp, clock := [b] + Without(order, k), stamp[b := clock + 1], clock + 1;
    }

    /** brelse: unlock, drop the reference and, if it was the last, move to the front. */
    method Brelse(b: nat)
      requires Valid() && b < NBUF && bufs[b].locked
      modifies this`bufs, this`refs, this`next, this`prev, this`order, this`stamp, this`clock
      ensures Valid()
      ensures bufs == old(bufs)[b := old(bufs)[b].(locked := false, refcnt := old(bufs)[b].refcnt - 1)]
      ensures refs == old(refs)[b := old(refs)[b] - 1]
      ensures bufs[b].refcnt > 0 ==> order == old(order) && stamp == old(stamp)
      ensures bufs[b].refcnt == 0 ==> order[0] == b
      ensures forall i :: 0 <= i < NBUF && i != b ==>
                stamp[i] == old(stamp)[i] && (bufs[b].refcnt == 0 ==> stamp[i] < stamp[b])
    {
      bufs := bufs[b := bufs[b].(locked := false)];
      bufs := bufs[b := bufs[b].(refcnt := bufs[b].refcnt - 1)];
      refs := refs[b := refs[b] - 1];
      if bufs[b].refcnt == 0 {
        MoveToFront(b);
      }
    }

    method Bpin(b: nat)
      requires Valid() && b < NBUF
      modifies this`bufs, this`pins
      ensures Valid() && bufs == old(bufs)[b := old(bufs)[b].(refcnt := old(bufs)[b].refcnt + 1)]
      ensures pins == old(pins)[b := old(pins)[b] + 1]
    {
      bufs := bufs[b := bufs[b].(refcnt := bufs[b].refcnt + 1)];
      pins := pins[b := pins[b] + 1];
    }

    method Bunpin(b: nat)
      requires Valid() && b < NBUF && pins[b] >= 1
      modifies this`bufs, this`pins
      ensures Valid() && bufs == old(bufs)[b := old(bufs)[b].(refcnt := old(bufs)[b].refcnt - 1)]
      ensures pins == old(pins)[b := old(pins)[b] - 1]
    {
      bufs := bufs[b := bufs[b].(refcnt := bufs[b].refcnt - 1)];
      pins := pins[b := pins[b] - 1];
    }
  }
}
