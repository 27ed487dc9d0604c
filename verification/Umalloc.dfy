/** user/umalloc.c: the allocator of section 8.7 of The C Programming Language, 2nd edition.
    Addresses count Header units; 0 is the null pointer. */
module Umalloc {
  import opened Common

  const MIN_CORE := 4096

  /** nbytes rounded up to whole units, and one for the header. */
  function Units(nbytes: nat): nat { (nbytes + 15) / 16 + 1 }

  /** What sbrk, whose parameter is an int of 32 bits, is asked for by morecore(nu). */
  function SbrkArgument(nu: nat): int {
    var bytes := Max(nu, MIN_CORE) * 16 % 0x1_0000_0000;
    if bytes < 0x8000_0000 then bytes else bytes - 0x1_0000_0000
  }

  /** For a request of 32 bits sbrk is asked for the units that morecore then uses exactly if they
      are fewer than 2^31 bytes; otherwise it is asked for less, mostly to shrink the process. */
  lemma SbrkArgumentExactly(nbytes: nat)
    requires nbytes < 0x1_0000_0000
    ensures SbrkArgument(Units(nbytes)) == Max(Units(nbytes), MIN_CORE) * 16 <==> Units(nbytes) * 16 < 0x8000_0000
  {
    var nu := Units(nbytes);
    assert MIN_CORE * 16 < 0x8000_0000 && nu * 16 <= 0x1_0000_0000 + 16;
  }

  /** A header field; 0 where there is no header. */
  function Get(m: map<int, int>, p: int): int { if p in m then m[p] else 0 }

  // ---- the free list ---------------------------------------------------------------------

  /** q follows p in address order, the lowest block following the highest. */
  ghost predicate Follows(all: set<int>, base: int, p: int, q: int) {
    (p < q || q == base) && forall f :: f in all && p < f ==> p < q <= f
  }

  /** The blocks in all form one circular list in address order, base being the lowest. */
  ghost predicate Ring(ptr: map<int, int>, all: set<int>, base: int) {
    && base in all && (forall p :: p in all ==> base <= p)
    && forall p {:trigger Get(ptr, p)} :: p in all ==> Get(ptr, p) in all && Follows(all, base, p, Get(ptr, p))
  }

  lemma RingInsert(ptr: map<int, int>, all: set<int>, base: int, p: int, b: int)
    requires Ring(ptr, all, base) && p in all && b !in all && p < b && forall f :: f in all ==> f <= p || b < f
    ensures Ring(ptr[b := Get(ptr, p)][p := b], all + {b}, base)
  {
    var ptr', all' := ptr[b := Get(ptr, p)][p := b], all + {b};
    var q := Get(ptr, p);
    assert q in all && Follows(all, base, p, q);
    assert Follows(all', base, p, b) && Follows(all', base, b, q);
    forall f | f in all && f != p ensures Get(ptr', f) in all' && Follows(all', base, f, Get(ptr', f)) {
      assert Get(ptr', f) == Get(ptr, f) && Follows(all, base, f, Get(ptr, f));
    }
  }

  lemma RingRemove(ptr: map<int, int>, all: set<int>, base: int, p: int, x: int)
    requires Ring(ptr, all, base) && p in all && Get(ptr, p) == x != base
    ensures Ring(ptr[p := Get(ptr, x)], all - {x}, base)
  {
    var ptr', all' := ptr[p := Get(ptr, x)], all - {x};
    assert Follows(all, base, p, x) && Follows(all, base, x, Get(ptr, x));
    forall f | f in all' ensures Get(ptr', f) in all' && Follows(all', base, f, Get(ptr', f)) {
      assert Follows(all, base, f, Get(ptr, f));
    }
  }

  /** The part of a row up to the highest block reached so far. */
  ghost predicate Row(ptr: map<int, int>, all: set<int>, base: int, row: seq<int>) {
    && |row| > 0 && row[0] == base
    && (forall i :: 0 <= i < |row| ==> row[i] in all)
    && (forall i :: 0 < i < |row| ==> row[i - 1] < row[i] && Get(ptr, row[i - 1]) == row[i])
    && (forall f :: f in all && f <= row[|row| - 1] ==> f in row)
  }

  lemma RowStep(ptr: map<int, int>, all: set<int>, base: int, row: seq<int>)
    requires Ring(ptr, all, base) && Row(ptr, all, base, row) && Get(ptr, row[|row| - 1]) != base
    ensures Row(ptr, all, base, row + [Get(ptr, row[|row| - 1])]) && row[|row| - 1] < Get(ptr, row[|row| - 1])
  {
    var last := row[|row| - 1];
    var row' := row + [Get(ptr, last)];
    assert Follows(all, base, last, Get(ptr, last));
    forall f | f in all && f <= Get(ptr, last) ensures f in row' {
      if f > last { assert row'[|row|] == f; }
    }
  }

  lemma {:induction false} CircleFrom(ptr: map<int, int>, all: set<int>, base: int, row: seq<int>, top: int)
    returns (whole: seq<int>)
    requires Ring(ptr, all, base) && Row(ptr, all, base, row) && forall f :: f in all ==> f < top
    ensures Row(ptr, all, base, whole) && Get(ptr, whole[|whole| - 1]) == base && forall f :: f in all <==> f in whole
    decreases top - row[|row| - 1]
  {
    var last := row[|row| - 1];
    if Get(ptr, last) == base {
      assert Follows(all, base, last, base);
      whole := row;
    } else {
      RowStep(ptr, all, base, row);
      whole := CircleFrom(ptr, all, base, row + [Get(ptr, last)], top);
    }
  }

  /** Followed from base, the list meets every block and comes back: the blocks can be laid out in
      a row in address order, each pointing to the next and the last to base. */
  lemma OneCircle(ptr: map<int, int>, all: set<int>, base: int, top: int) returns (whole: seq<int>)
    requires Ring(ptr, all, base) && forall f :: f in all ==> f < top
    ensures Row(ptr, all, base, whole) && Get(ptr, whole[|whole| - 1]) == base && forall f :: f in all <==> f in whole
  {
    whole := CircleFrom(ptr, all, base, [base], top);
  }

  // ---- the blocks ------------------------------------------------------------------------

  /** Block b owns exactly its own units. */
  ghost predicate Owns(size: map<int, int>, owner: map<int, int>, b: int) {
    Get(size, b) > 0 && forall u :: b <= u < b + Get(size, b) ==> u in owner && owner[u] == b
  }

  /** The units obtained from sbrk (the keys of owner) are shared out among the free blocks and
      the live blocks, each unit belonging to one block. */
  ghost predicate Parts(size: map<int, int>, free: set<int>, live: map<int, int>, owner: map<int, int>) {
    && (forall b {:trigger Owns(size, owner, b)} :: b in free || b in live ==> Owns(size, owner, b))
    && (forall b :: b in live ==> b !in free && Get(size, b) == live[b])
    && (forall u {:trigger owner[u]} :: u in owner ==>
          (owner[u] in free || owner[u] in live) && owner[u] <= u < owner[u] + Get(size, owner[u]))
  }

  /** No two free blocks are adjacent. */
  ghost predicate Coalesced(size: map<int, int>, free: set<int>) {
    forall b {:trigger Get(size, b)} :: b in free ==> b + Get(size, b) !in free
  }

  ghost function Reown(owner: map<int, int>, a: int, b: int): map<int, int> {
    map u | u in owner :: if owner[u] == b then a else owner[u]
  }

  /** Two adjacent free blocks become one. */
  lemma Merge(size: map<int, int>, free: set<int>, live: map<int, int>, owner: map<int, int>, a: int, b: int)
    requires Parts(size, free, live, owner) && a in free && b in free && a + Get(size, a) == b
    ensures Parts(size[a := Get(size, a) + Get(size, b)], free - {b}, live, Reown(owner, a, b))
  {
    var size', owner' := size[a := Get(size, a) + Get(size, b)], Reown(owner, a, b);
    assert Owns(size, owner, a) && Owns(size, owner, b);
    forall c | c in free - {b} || c in live ensures Owns(size', owner', c) {
      assert Owns(size, owner, c);
    }
  }

  /** Two blocks do not overlap. */
  lemma Disjoint(size: map<int, int>, owner: map<int, int>, a: int, c: int)
    requires Owns(size, owner, a) && Owns(size, owner, c) && a != c
    ensures c + Get(size, c) <= a || a + Get(size, a) <= c
  {
    assert c in owner && owner[c] == c && a in owner && owner[a] == a;
  }

  ghost function OwnTail(owner: map<int, int>, b: int, n: int): map<int, int> {
    map u | u in owner :: if b <= u < b + n then b else owner[u]
  }

  /** The end of a free block becomes a live block of n units. */
  lemma Split(size: map<int, int>, free: set<int>, live: map<int, int>, owner: map<int, int>, a: int, n: int)
    requires Parts(size, free, live, owner) && a in free && 0 < n < Get(size, a)
    ensures var b := a + Get(size, a) - n;
            && b !in free && b !in live
            && Parts(size[a := Get(size, a) - n][b := n], free, live[b := n], OwnTail(owner, b, n))
  {
    var b := a + Get(size, a) - n;
    var size', owner' := size[a := Get(size, a) - n][b := n], OwnTail(owner, b, n);
    assert Owns(size, owner, a);
    assert owner[b] == a;
    assert !Owns(size, owner, b);
    forall c | c in free || c in live ensures Owns(size', owner', c) {
      assert Owns(size, owner, c);
      if c != a {
        Disjoint(size, owner, a, c);
      }
    }
    forall u | u in owner'
      ensures (owner'[u] in free || owner'[u] in live[b := n]) && owner'[u] <= u < owner'[u] + Get(size', owner'[u]) {
      assert owner[u] <= u < owner[u] + Get(size, owner[u]);
    }
  }

  ghost function OwnNew(owner: map<int, int>, b: int, n: int): map<int, int>
    decreases n
  {
    if n <= 0 then owner else OwnNew(owner, b, n - 1)[b + n - 1 := b]
  }

  lemma {:induction false} OwnNewIs(owner: map<int, int>, b: int, n: int)
    ensures forall u :: u in OwnNew(owner, b, n) <==> u in owner || b <= u < b + n
    ensures forall u {:trigger OwnNew(owner, b, n)[u]} :: u in OwnNew(owner, b, n) ==>
              if b <= u < b + n then OwnNew(owner, b, n)[u] == b else u in owner && OwnNew(owner, b, n)[u] == owner[u]
    decreases n
  {
    if n > 0 { OwnNewIs(owner, b, n - 1); }
  }

  /** A new region above everything else becomes a live block. */
  lemma Extend(size: map<int, int>, free: set<int>, live: map<int, int>, owner: map<int, int>, b: int, n: int)
    requires Parts(size, free, live, owner) && n > 0 && forall u :: u in owner ==> u < b
    ensures b !in free && b !in live && Parts(size[b := n], free, live[b := n], OwnNew(owner, b, n))
  {
    OwnNewIs(owner, b, n);
    assert b !in owner;
    assert Owns(size, owner, b) ==> b in owner;
    var size', owner' := size[b := n], OwnNew(owner, b, n);
    forall c | c in free || c in live ensures Owns(size', owner', c) {
      assert Owns(size, owner, c) && c != b;
      forall u | c <= u < c + Get(size, c) ensures u in owner' && owner'[u] == c { assert u in owner; }
    }
  }

  // ---- free in values --------------------------------------------------------------------

  /** The whole state after malloc has been called once. */
  ghost predicate Wf(ptr: map<int, int>, size: map<int, int>, base: int, free: set<int>, live: map<int, int>,
                     owner: map<int, int>, brk: int) {
    && 0 < base < brk && base !in free && base !in live && Get(size, base) == 0
    && forall n {:trigger Open(n)} :: Open(n) ==>
         && Ring(ptr, free + {base}, base) && Parts(size, free, live, owner)
         && forall u :: u in owner ==> base < u < brk
  }

  /** Only blocks in s have a free block right behind them. */
  ghost predicate Touching(size: map<int, int>, free: set<int>, s: set<int>) {
    forall f {:trigger Get(size, f)} :: f in free && f + Get(size, f) in free ==> f in s
  }

  /** Unit u belongs to a free block. */
  ghost predicate IdleIn(owner: map<int, int>, free: set<int>, u: int) { u in owner && owner[u] in free }

  lemma Bounds(ptr: map<int, int>, size: map<int, int>, base: int, free: set<int>, live: map<int, int>,
               owner: map<int, int>, brk: int)
    requires Wf(ptr, size, base, free, live, owner, brk)
    ensures forall b :: b in free || b in live ==> base < b < brk && Owns(size, owner, b)
  {
    assert Open(0);
    forall b | b in free || b in live ensures base < b < brk && Owns(size, owner, b) {
      assert Owns(size, owner, b) && b in owner;
    }
  }

  /** Live block b joins the free list between p and its successor. */
  lemma Insert(ptr: map<int, int>, size: map<int, int>, base: int, free: set<int>, live: map<int, int>,
               owner: map<int, int>, brk: int, p: int, b: int)
    requires Wf(ptr, size, base, free, live, owner, brk) && b in live && p in free + {base}
    requires p < b && forall f :: f in free ==> f <= p || b < f
    ensures Wf(ptr[b := Get(ptr, p)][p := b], size, base, free + {b}, live - {b}, owner, brk)
    ensures forall u :: IdleIn(owner, free + {b}, u) <==> IdleIn(owner, free, u) || b <= u < b + Get(size, b)
  {
    assert Open(0);
    Bounds(ptr, size, base, free, live, owner, brk);
    RingInsert(ptr, free + {base}, base, p, b);
    assert free + {base} + {b} == free + {b} + {base};
  }

  /** Then only b and p can touch a free block, namely the successor of p and b. */
  lemma InsertTouching(ptr: map<int, int>, size: map<int, int>, base: int, free: set<int>, live: map<int, int>,
                       owner: map<int, int>, brk: int, p: int, b: int)
    requires Wf(ptr, size, base, free, live, owner, brk) && Coalesced(size, free) && b in live && p in free + {base}
    requires p < b && forall f :: f in free ==> f <= p || b < f
    ensures Touching(size, free + {b}, {p, b})
    ensures b + Get(size, b) in free ==> Get(ptr, p) == b + Get(size, b)
    ensures base < b && Get(size, b) > 0 && Get(ptr, p) in free + {base} && (p + Get(size, p) == b ==> p in free)
  {
    assert Open(0);
    Bounds(ptr, size, base, free, live, owner, brk);
    forall f | f in free && f + Get(size, f) in free + {b} ensures f == p {
      if f < p { Disjoint(size, owner, f, p); }
    }
    var q := Get(ptr, p);
    assert Follows(free + {base}, base, p, q);
    if b + Get(size, b) in free {
      Disjoint(size, owner, b, q);
    }
  }

  /** Free block b, which follows p in the list and in memory, is merged into p. */
  lemma Absorb(ptr: map<int, int>, size: map<int, int>, base: int, free: set<int>, live: map<int, int>,
               owner: map<int, int>, brk: int, p: int, b: int, s: set<int>)
    requires Wf(ptr, size, base, free, live, owner, brk) && p in free && b in free && Get(ptr, p) == b
             && p + Get(size, p) == b
    requires Touching(size, free, s) && b !in s
    ensures var size' := size[p := Get(size, p) + Get(size, b)];
            && Wf(ptr[p := Get(ptr, b)], size', base, free - {b}, live, Reown(owner, p, b), brk)
            && Touching(size', free - {b}, s - {p}) && Get(size, p) > 0 && Get(size, b) > 0
    ensures forall u :: IdleIn(Reown(owner, p, b), free - {b}, u) <==> IdleIn(owner, free, u)
  {
    AbsorbKeeps(ptr, size, base, free, live, owner, brk, p, b);
    assert Owns(size, owner, p) && Owns(size, owner, b) by { Bounds(ptr, size, base, free, live, owner, brk); }
    AbsorbTouches(size, free, owner, p, b, s);
  }

  lemma AbsorbKeeps(ptr: map<int, int>, size: map<int, int>, base: int, free: set<int>, live: map<int, int>,
                    owner: map<int, int>, brk: int, p: int, b: int)
    requires Wf(ptr, size, base, free, live, owner, brk) && p in free && b in free && Get(ptr, p) == b
             && p + Get(size, p) == b
    ensures Wf(ptr[p := Get(ptr, b)], size[p := Get(size, p) + Get(size, b)], base, free - {b}, live,
               Reown(owner, p, b), brk)
  {
    assert Open(0);
    RingRemove(ptr, free + {base}, base, p, b);
    assert free + {base} - {b} == free - {b} + {base};
    Merge(size, free, live, owner, p, b);
  }

  lemma AbsorbTouches(size: map<int, int>, free: set<int>, owner: map<int, int>, p: int, b: int, s: set<int>)
    requires p in free && b in free && p + Get(size, p) == b && Owns(size, owner, p) && Owns(size, owner, b)
    requires Touching(size, free, s) && b !in s
    ensures Touching(size[p := Get(size, p) + Get(size, b)], free - {b}, s - {p})
    ensures Get(size, p) > 0 && Get(size, b) > 0
    ensures forall u :: IdleIn(Reown(owner, p, b), free - {b}, u) <==> IdleIn(owner, free, u)
  {
    var size' := size[p := Get(size, p) + Get(size, b)];
    forall f | f in free - {b} && f + Get(size', f) in free - {b} ensures f in s - {p} {
      assert f == p ==> b + Get(size, b) in free;
      assert f != p ==> Get(size', f) == Get(size, f);
    }
  }

  /** bp is in the list behind p, merged with its successor if that is adjacent: ptr and size as
      free has them then, but for the link from p. */
  ghost predicate Joined(ptr: map<int, int>, size: map<int, int>, base: int, free: set<int>, live: map<int, int>,
                         owner: map<int, int>, brk: int, p: int, b: int,
                         free0: set<int>, live0: map<int, int>, owner0: map<int, int>) {
    && Wf(ptr[p := b], size, base, free, live, owner, brk) && Touching(size, free, {p}) && b in live0 && b in free
       && p in free + {base} && base <= p
    && live == live0 - {b} && owner.Keys == owner0.Keys && Get(size, b) >= live0[b] && p != b
    && (p + Get(size, p) == b ==> p in free) && (p in free && p + Get(size, p) in free ==> p + Get(size, p) == b)
    && (forall u :: IdleIn(owner, free, u) <==> IdleIn(owner0, free0, u) || b <= u < b + live0[b])
  }

  lemma JoinApart(ptr: map<int, int>, size: map<int, int>, base: int, free: set<int>, live: map<int, int>,
                  owner: map<int, int>, brk: int, p: int, b: int)
    requires Wf(ptr, size, base, free, live, owner, brk) && Coalesced(size, free) && b in live && p in free + {base}
    requires p < b && (forall f :: f in free ==> f <= p || b < f) && b + Get(size, b) != Get(ptr, p)
    ensures Joined(ptr[b := Get(ptr, p)], size, base, free + {b}, live - {b}, owner, brk, p, b, free, live, owner)
  {
    assert Open(0);
    Insert(ptr, size, base, free, live, owner, brk, p, b);
    InsertTouching(ptr, size, base, free, live, owner, brk, p, b);
  }

  lemma JoinUpper(ptr: map<int, int>, size: map<int, int>, base: int, free: set<int>, live: map<int, int>,
                  owner: map<int, int>, brk: int, p: int, b: int)
    requires Wf(ptr, size, base, free, live, owner, brk) && Coalesced(size, free) && b in live && p in free + {base}
    requires p < b && (forall f :: f in free ==> f <= p || b < f) && b + Get(size, b) == Get(ptr, p)
    ensures var q := Get(ptr, p);
            Joined(ptr[b := Get(ptr, q)], size[b := Get(size, b) + Get(size, q)], base, free + {b} - {q}, live - {b},
                   Reown(owner, b, q), brk, p, b, free, live, owner)
  {
    assert Open(0);
    var q := Get(ptr, p);
    Insert(ptr, size, base, free, live, owner, brk, p, b);
    InsertTouching(ptr, size, base, free, live, owner, brk, p, b);
    var ptr1 := ptr[b := q][p := b];
    Absorb(ptr1, size, base, free + {b}, live - {b}, owner, brk, b, q, {p, b});
    assert ptr1[b := Get(ptr1, q)] == ptr[b := Get(ptr, q)][p := b];
    assert {p, b} - {b} == {p};
    assert Get(size[b := Get(size, b) + Get(size, q)], p) == Get(size, p);
  }

  lemma JoinLower(ptr: map<int, int>, size: map<int, int>, base: int, free: set<int>, live: map<int, int>,
                  owner: map<int, int>, brk: int, p: int, b: int,
                  free0: set<int>, live0: map<int, int>, owner0: map<int, int>)
    requires Joined(ptr, size, base, free, live, owner, brk, p, b, free0, live0, owner0) && p + Get(size, p) == b
    ensures var ptr', size', owner' := ptr[p := Get(ptr, b)], size[p := Get(size, p) + Get(size, b)],
    Reown(owner, p, b);
            && Wf(ptr', size', base, free - {b}, live, owner', brk) && Coalesced(size', free - {b})
            && Get(size', p) >= live0[b] && owner'.Keys == owner0.Keys
            && (forall u :: IdleIn(owner', free - {b}, u) <==> IdleIn(owner0, free0, u) || b <= u < b + live0[b])
  {
    assert Open(0);
    var ptr1 := ptr[p := b];
    Absorb(ptr1, size, base, free, live, owner, brk, p, b, {p});
    assert ptr1[p := Get(ptr1, b)] == ptr[p := Get(ptr, b)];
    assert {p} - {p} == {};
  }

  /** Units b .. b + n, which were free, are no longer, and nothing else has changed. */
  ghost predicate TakenFrom(owner0: map<int, int>, free0: set<int>, owner: map<int, int>, free: set<int>, b: int,
                            n: int) {
    && owner.Keys == owner0.Keys && (forall u :: b <= u < b + n ==> IdleIn(owner0, free0, u))
    && (forall u :: IdleIn(owner, free, u) <==> IdleIn(owner0, free0, u) && !(b <= u < b + n))
  }

  lemma TakeWhole(ptr: map<int, int>, size: map<int, int>, base: int, free: set<int>, live: map<int, int>,
                  owner: map<int, int>, brk: int, prevp: int, p: int)
    requires Wf(ptr, size, base, free, live, owner, brk) && Coalesced(size, free) && prevp in free + {base}
             && Get(ptr, prevp) == p && p in free
    ensures p !in live && Wf(ptr[prevp := Get(ptr, p)], size, base, free - {p}, live[p := Get(size, p)], owner, brk)
    ensures Coalesced(size, free - {p}) && TakenFrom(owner, free, owner, free - {p}, p, Get(size, p))
    ensures p > base && (prevp == p ==> false)
  {
    assert Open(0);
    Bounds(ptr, size, base, free, live, owner, brk);
    RingRemove(ptr, free + {base}, base, prevp, p);
    assert free + {base} - {p} == free - {p} + {base};
    assert Follows(free + {base}, base, prevp, p);
    forall c | c in free - {p} || c in live[p := Get(size, p)] ensures Owns(size, owner, c) {}
  }

  lemma TakeEnd(ptr: map<int, int>, size: map<int, int>, base: int, free: set<int>, live: map<int, int>,
                owner: map<int, int>, brk: int, p: int, n: int, b: int)
    requires Wf(ptr, size, base, free, live, owner, brk) && p in free && 0 < n < Get(size, p)
             && b == p + Get(size, p) - n
    ensures b !in live && b > base && b !in free
    ensures Wf(ptr, size[p := Get(size, p) - n][b := n], base, free, live[b := n], OwnTail(owner, b, n), brk)
  {
    Bounds(ptr, size, base, free, live, owner, brk);
    assert Parts(size, free, live, owner) by { assert Open(0); }
    Split(size, free, live, owner, p, n);
    assert forall u :: u in owner ==> base < u < brk by { assert Open(0); }
    assert Ring(ptr, free + {base}, base) by { assert Open(0); }
  }

  lemma TakeEndRest(ptr: map<int, int>, size: map<int, int>, base: int, free: set<int>, live: map<int, int>,
                    owner: map<int, int>, brk: int, p: int, n: int, b: int)
    requires Wf(ptr, size, base, free, live, owner, brk) && Coalesced(size, free) && p in free
             && 0 < n < Get(size, p) && b == p + Get(size, p) - n
    ensures Coalesced(size[p := Get(size, p) - n][b := n], free)
            && TakenFrom(owner, free, OwnTail(owner, b, n), free, b, n)
  {
    Bounds(ptr, size, base, free, live, owner, brk);
    TakeEnd(ptr, size, base, free, live, owner, brk, p, n, b);
    var size' := size[p := Get(size, p) - n][b := n];
    forall f | f in free ensures f + Get(size', f) !in free {
      assert f + Get(size, f) !in free;
    }
  }

  /** The blocks that malloc has passed on its way round from freep to p. */
  predicate Passed(freep: int, p: int, f: int) {
    if p > freep then freep < f < p else f > freep || f < p
  }

  lemma PassedStep(ptr: map<int, int>, all: set<int>, base: int, freep: int, p: int)
    requires Ring(ptr, all, base) && freep in all && p in all
    ensures p == freep ==> forall f :: f in all ==> !Passed(freep, Get(ptr, p), f)
    ensures p != freep ==> forall f :: f in all && Passed(freep, Get(ptr, p), f) ==> Passed(freep, p, f) || f == p
    ensures p != freep && p > freep ==> Get(ptr, p) <= freep || Get(ptr, p) > p
    ensures p != freep && p <= freep ==> p < Get(ptr, p) <= freep
  {
    assert Follows(all, base, p, Get(ptr, p));
  }

  class Heap {
    const base: int
    var freep: int
    var ptr: map<int, int>
    var size: map<int, int>
    ghost var free: set<int>
    ghost var live: map<int, int>
    ghost var owner: map<int, int>
    ghost var brk: int

    ghost predicate Valid()
      reads this
    {
      if freep == 0 then 0 < base < brk && free == {} && live == map[] && owner == map[]
      else Wf(ptr, size, base, free, live, owner, brk) && Coalesced(size, free) && freep in free + {base}
    }

    constructor (base: int)
      requires base > 0
      ensures Valid() && live == map[] && owner == map[]
    {
      this.base := base;
      freep, ptr, size, free, live, owner, brk := 0, map[], map[], {}, map[], map[], base + 1;
    }

    /** The units of u's block are free. */
    ghost predicate Idle(u: int)
      reads this
    {
      IdleIn(owner, free, u)
    }

    /** The search in free: the block below bp, however the circle is entered. */
    method Below(bp: int) returns (p: int)
      requires Valid() && freep != 0 && bp in live
      ensures p in free + {base} && p < bp && forall f :: f in free + {base} ==> f <= p || bp < f
    {
      assert Open(0);
      Bounds(ptr, size, base, free, live, owner, brk);
      ghost var all := free + {base};
      p := freep;
      while !(bp > p && bp < Get(ptr, p))
        invariant p in all && p < brk
        decreases if p > bp then 1 else 0, brk - p
      {
        assert Follows(all, base, p, Get(ptr, p));
        if p >= Get(ptr, p) && (bp > p || bp < Get(ptr, p)) {
          break;
        }
        p := Get(ptr, p);
      }
      assert Follows(all, base, p, Get(ptr, p));
    }

    /** free: exactly the units of the block become free, merged with the neighbours. */
    method Free(ap: int)
      requires Valid() && ap - 1 in live
      modifies this
      ensures Valid() && freep != 0 && brk == old(brk)
      ensures live == old(live) - {ap - 1} && owner.Keys == old(owner).Keys
      ensures forall u :: Idle(u) <==> old(Idle(u)) || ap - 1 <= u < ap - 1 + old(live)[ap - 1]
      ensures Get(size, freep) >= old(live)[ap - 1] || Get(size, Get(ptr, freep)) >= old(live)[ap - 1]
    {
      var bp := ap - 1;
      var p := Below(bp);
      ghost var free1, owner1 := JoinNext(bp, p);
      JoinPrevious(bp, p, free1, owner1);
    }

    /** The first if in free: bp takes over its successor, or links to it. */
    method JoinNext(bp: int, p: int) returns (ghost free1: set<int>, ghost owner1: map<int, int>)
      requires Valid() && freep != 0 && bp in live && p in free + {base} && p < bp
               && forall f :: f in free + {base} ==> f <= p || bp < f
      modifies `ptr, `size
      ensures Joined(ptr, size, base, free1, live - {bp}, owner1, brk, p, bp, free, live, owner)
    {
      var q := Get(ptr, p);
      free1, owner1 := free + {bp}, owner;
      if bp + Get(size, bp) == q {
        JoinUpper(ptr, size, base, free, live, owner, brk, p, bp);
        size := size[bp := Get(size, bp) + Get(size, q)];
        ptr := ptr[bp := Get(ptr, q)];
        free1, owner1 := free1 - {q}, Reown(owner, bp, q);
      } else {
        JoinApart(ptr, size, base, free, live, owner, brk, p, bp);
        ptr := ptr[bp := q];
      }
    }

    /** The second if in free, and freep: p takes over bp, or links to it. */
    method JoinPrevious(bp: int, p: int, ghost free1: set<int>, ghost owner1: map<int, int>)
      requires Joined(ptr, size, base, free1, live - {bp}, owner1, brk, p, bp, free, live, owner)
      modifies this
      ensures Valid() && freep != 0 && brk == old(brk) && live == old(live) - {bp} && owner.Keys == old(owner).Keys
      ensures forall u :: Idle(u) <==> old(Idle(u)) || bp <= u < bp + old(live)[bp]
      ensures Get(size, freep) >= old(live)[bp] || Get(size, Get(ptr, freep)) >= old(live)[bp]
    {
      if p + Get(size, p) == bp {
        JoinLower(ptr, size, base, free1, live - {bp}, owner1, brk, p, bp, free, live, owner);
        size := size[p := Get(size, p) + Get(size, bp)];
        ptr := ptr[p := Get(ptr, bp)];
        free, owner := free1 - {bp}, Reown(owner1, p, bp);
      } else {
        ptr := ptr[p := bp];
        free, owner := free1, owner1;
      }
      freep := p;
      live := live - {bp};
    }

    /** morecore: the new region, merged with what is adjacent, is where the search goes on. */
    method Morecore(nu: nat, core: Option<int>) returns (p: int)
      requires Valid() && freep != 0 && (core.Some? ==> core.value >= brk)
      modifies this
      ensures Valid() && freep != 0 && live == old(live)
      ensures core.None? ==> p == 0 && freep == old(freep) && ptr == old(ptr) && size == old(size)
                             && free == old(free) && owner == old(owner)
      ensures core.Some? ==> p == freep && Grown(old(owner), old(free), core.value, Max(nu, MIN_CORE))
      ensures core.Some? ==> Get(size, freep) >= nu || Get(size, Get(ptr, freep)) >= nu
    {
      var n := nu;
      if n < MIN_CORE { n := MIN_CORE; }
      if core.None? { return 0; }
      AddCore(core.value, n);
      Free(core.value + 1);
      assert live == old(live);
      p := freep;
    }

    /** The region returned by sbrk gets a header and counts as allocated until it is freed. */
    method AddCore(b: int, n: int)
      requires Valid() && freep != 0 && b >= brk && n > 0
      modifies `size, `live, `owner, `brk
      ensures Valid() && b !in old(live) && live == old(live)[b := n]
      ensures forall u :: u in owner <==> u in old(owner) || b <= u < b + n
      ensures forall u :: Idle(u) <==> old(Idle(u))
    {
      AddsCore(ptr, size, base, free, live, owner, brk, b, n);
      size := size[b := n];
      live := live[b := n];
      owner := OwnNew(owner, b, n);
      brk := b + n;
    }

    static lemma AddsCore(ptr: map<int, int>, size: map<int, int>, base: int, free: set<int>, live: map<int, int>,
                          owner: map<int, int>, brk: int, b: int, n: int)
      requires Wf(ptr, size, base, free, live, owner, brk) && Coalesced(size, free) && b >= brk && n > 0
      ensures Wf(ptr, size[b := n], base, free, live[b := n], OwnNew(owner, b, n), b + n)
      ensures Coalesced(size[b := n], free) && b !in live && b !in free
      ensures forall u :: u in OwnNew(owner, b, n) <==> u in owner || b <= u < b + n
      ensures forall u :: IdleIn(OwnNew(owner, b, n), free, u) <==> IdleIn(owner, free, u)
    {
      assert Open(0);
      Extend(size, free, live, owner, b, n);
      OwnNewIs(owner, b, n);
      forall f | f in free ensures f + Get(size[b := n], f) !in free { assert Get(size[b := n], f) == Get(size, f); }
    }

    /** The heap has got the units b .. b + n, which are free, and nothing else has changed. */
    ghost predicate Grown(owner0: map<int, int>, free0: set<int>, b: int, n: int)
      reads this
    {
      forall u :: (u in owner <==> u in owner0 || b <= u < b + n)
        && (Idle(u) <==> IdleIn(owner0, free0, u) || b <= u < b + n)
    }

    /** The block p fits exactly and leaves the list. */
    method Unlink(prevp: int, p: int)
      requires Valid() && freep != 0 && prevp in free + {base} && base <= prevp && Get(ptr, prevp) == p && p in free
      modifies this
      ensures Valid() && freep == prevp && p > 0 && p !in old(live) && live == old(live)[p := Get(old(size), p)]
      ensures TakenFrom(old(owner), old(free), owner, free, p, Get(old(size), p))
    {
      TakeWhole(ptr, size, base, free, live, owner, brk, prevp, p);
      ptr := ptr[prevp := Get(ptr, p)];
      live, free := live[p := Get(size, p)], free - {p};
      freep := prevp;
    }

    /** The block p is larger and loses its end. */
    method CutEnd(prevp: int, p: int, nunits: int) returns (b: int)
      requires Valid() && freep != 0 && prevp in free + {base} && base <= prevp && p in free
               && 0 < nunits < Get(size, p)
      modifies this
      ensures Valid() && freep == prevp && b > 0 && b !in old(live) && live == old(live)[b := nunits]
      ensures TakenFrom(old(owner), old(free), owner, free, b, nunits)
    {
      b := p + Get(size, p) - nunits;
      TakeEnd(ptr, size, base, free, live, owner, brk, p, nunits, b);
      TakeEndRest(ptr, size, base, free, live, owner, brk, p, nunits, b);
      size := size[p := Get(size, p) - nunits][b := nunits];
      live, owner := live[b := nunits], OwnTail(owner, b, nunits);
      freep := prevp;
    }

    /** The block p fits. */
    method Take(prevp: int, p: int, nunits: int) returns (r: int)
      requires Valid() && freep != 0 && prevp in free + {base} && base <= prevp && Get(ptr, prevp) == p
               && p in free + {base}
      requires 0 < nunits <= Get(size, p)
      modifies this
      ensures Valid() && r > 1 && r - 1 !in old(live) && live == old(live)[r - 1 := nunits]
      ensures TakenFrom(old(owner), old(free), owner, free, r - 1, nunits)
    {
      if Get(size, p) == nunits {
        Unlink(prevp, p);
        r := p + 1;
      } else {
        var b := CutEnd(prevp, p, nunits);
        r := b + 1;
      }
    }

    /** What malloc promises, having got the units from core to core + n from sbrk or none. */
    ghost predicate Allocated(owner0: map<int, int>, free0: set<int>, core: int, n: int, b: int, nunits: int)
      reads this
    {
      && (forall u :: u in owner <==> u in owner0 || core <= u < core + n)
      && (forall u :: b <= u < b + nunits ==> IdleIn(owner0, free0, u) || core <= u < core + n)
      && (forall u :: Idle(u) <==> (IdleIn(owner0, free0, u) || core <= u < core + n) && !(b <= u < b + nunits))
    }

    /** malloc: a live block of the right size on units that were free or that sbrk has just
        returned. sbrk is asked at most once, and only if no free block is large enough; malloc
        fails only if sbrk does. Where sbrk succeeds it has been asked for the units that are used,
        which by SbrkArgumentExactly is so exactly below 2^31 bytes. */
    method Malloc(nbytes: nat, core: Option<int>) returns (r: int, ghost asked: bool)
      requires Valid() && (core.Some? ==> core.value >= brk && Units(nbytes) * 16 < 0x8000_0000)
      modifies this
      ensures Valid() && (asked <==> forall f :: f in old(free) ==> Get(old(size), f) < Units(nbytes))
      ensures r == 0 <==> asked && core.None?
      ensures r == 0 ==> live == old(live) && owner == old(owner) && free == old(free)
      ensures r != 0 ==> r - 1 !in old(live) && live == old(live)[r - 1 := Units(nbytes)]
      ensures r != 0 ==> nbytes <= (live[r - 1] - 1) * 16 < nbytes + 16
      ensures r != 0 ==> Allocated(old(owner), old(free), if asked then core.value else 0,
                                   if asked then Max(Units(nbytes), MIN_CORE) else 0, r - 1, Units(nbytes))
    {
      if freep == 0 {
        ptr := ptr[base := base];
        freep := base;
        size := size[base := 0];
        assert free + {base} == {base};
      }
      r, asked := Search(Units(nbytes), core);
    }

    /** The loop in malloc. */
    method Search(nunits: int, core: Option<int>) returns (r: int, ghost asked: bool)
      requires Valid() && freep != 0 && nunits > 0 && (core.Some? ==> core.value >= brk)
      modifies this
      ensures Valid() && (asked <==> forall f :: f in old(free) ==> Get(old(size), f) < nunits)
      ensures r == 0 <==> asked && core.None?
      ensures r == 0 ==> live == old(live) && owner == old(owner) && free == old(free)
      ensures r != 0 ==> r - 1 !in old(live) && live == old(live)[r - 1 := nunits]
      ensures r != 0 ==> Allocated(old(owner), old(free), if asked then core.value else 0,
                                   if asked then Max(nunits, MIN_CORE) else 0, r - 1, nunits)
    {
      var prevp := freep;
      var p := Get(ptr, prevp);
      asked := false;
      Onward(prevp);
      while true
        invariant Valid() && freep != 0 && prevp in free + {base} && base <= prevp && Get(ptr, prevp) == p
                  && live == old(live)
        invariant p in free + {base} && p < brk
        invariant !asked ==> freep == old(freep) && ptr == old(ptr) && size == old(size) && free == old(free)
                             && owner == old(owner) && brk == old(brk)
        invariant !asked ==> forall f :: f in free + {base} && Passed(freep, p, f) ==> Get(size, f) < nunits
        invariant asked ==> core.Some? && Grown(old(owner), old(free), core.value, Max(nunits, MIN_CORE))
        invariant asked ==> forall f :: f in old(free) ==> Get(old(size), f) < nunits
        invariant asked ==> Get(size, freep) >= nunits || (p == Get(ptr, freep) && Get(size, p) >= nunits)
        decreases !asked, if p > freep then 1 else 0, brk - p
      {
        if Get(size, p) >= nunits {
          break;
        }
        if p == freep {
          p := Morecore(nunits, core);
          asked := true;
          if p == 0 {
            return 0, true;
          }
        }
        Onward(p);
        prevp, p := p, Get(ptr, p);
      }
      r := Take(prevp, p, nunits);
    }

    /** Where the next step round the circle leads. */
    lemma Onward(p: int)
      requires Valid() && freep != 0 && p in free + {base}
      ensures Get(ptr, p) in free + {base} && base <= p && base <= Get(ptr, p) < brk
      ensures p == freep ==> forall f :: f in free + {base} ==> !Passed(freep, Get(ptr, p), f)
      ensures p != freep ==> forall f :: f in free + {base} && Passed(freep, Get(ptr, p), f) ==>
              Passed(freep, p, f) || f == p
      ensures p != freep && p > freep ==> Get(ptr, p) <= freep || Get(ptr, p) > p
      ensures p != freep && p <= freep ==> p < Get(ptr, p) <= freep
    {
      assert Open(0);
      Bounds(ptr, size, base, free, live, owner, brk);
      PassedStep(ptr, free + {base}, base, freep, p);
    }
  }
}
