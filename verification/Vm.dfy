/** kernel/kalloc.c and the user half of kernel/vm.c. A page is read either as 512 entries or as
    4096 bytes; that no page is ever used both ways is part of what is proved. */
module Vm {
  import opened Blocks
  import opened Common
  import opened PageSpec

  // Keys of predicates about the roles of pages, what an address space shows, the free list, and
  // a subtree that is gone.
  const ROLES := 1
  const SHOWN := 2
  const LINKS := 3
  const GONE := 4

  /** The address of page q as a word of a table. */
  function LinkTo(q: nat): Pte { Decode(q * PGSIZE) }

  /** The element behind the k-th one, 0 behind the last. */
  function Behind(list: seq<nat>, k: int): nat { if 0 <= k + 1 < |list| then list[k + 1] else 0 }

  /** A free page: junk, and in its first word the address of the next one. */
  function FreedWords(next: nat): (t: seq<Pte>)
    ensures |t| == ENTRIES && t[0] == LinkTo(next)
  {
    [LinkTo(next)] + seq(ENTRIES - 1, i => Decode(0x0101_0101_0101_0101))
  }

  function FreedBytes(next: nat): (s: seq<Byte>)
    ensures |s| == PGSIZE
  {
    WordBytes(next * PGSIZE, 8) + seq(PGSIZE - 8, i => 1)
  }

  /** The n lowest bytes of a word, lowest first. */
  function WordBytes(w: nat, n: nat): (s: seq<Byte>)
    ensures |s| == n
  {
    if n == 0 then [] else [w % 256] + WordBytes(w / 256, n - 1)
  }

  /** r->next in a free page. */
  function NextOf(t: seq<Pte>): nat
    requires |t| == ENTRIES
  {
    Encode(t[0]) / PGSIZE
  }

  /** The free pages hang together: each names the next one, the last one names none. */
  ghost predicate Linked(mem: Tables, freelist: seq<nat>, head: nat) {
    forall n {:trigger Open(n)} :: Open(n) && n == LINKS ==>
      && head == Behind(freelist, -1)
      && forall k :: 0 <= k < |freelist| ==>
           && freelist[k] in mem && |mem[freelist[k]]| == ENTRIES && mem[freelist[k]][0] == LinkTo(Behind(freelist, k))
  }

  const JUNK_FRESH: seq<Pte> := seq(ENTRIES, i => Decode(0x0505_0505_0505_0505))

  function Fill(b: Byte): (s: seq<Byte>)
    ensures |s| == PGSIZE && forall i :: 0 <= i < PGSIZE ==> s[i] == b
  {
    seq(PGSIZE, i => b)
  }

  function Pages(start: nat, stop: nat): (s: set<nat>)
    requires start <= stop
    ensures forall p: nat :: p in s <==> start <= p < stop
    decreases stop - start
  {
    if start == stop then {} else {start} + Pages(start + 1, stop)
  }

  ghost predicate BytesOk(bytes: map<nat, seq<Byte>>, role: map<nat, Role>) {
    forall p {:trigger bytes[p]} :: p in role ==> p in bytes && |bytes[p]| == PGSIZE
  }

  /** Some free pages have become tables of root; every other page is used as before and, if it is
      in use, has the same bytes. */
  ghost predicate TookTables(role: map<nat, Role>, role': map<nat, Role>, bytes: map<nat, seq<Byte>>,
                             bytes': map<nat, seq<Byte>>, root: nat) {
    forall n {:trigger Open(n)} :: Open(n) && n == ROLES ==>
      && role'.Keys == role.Keys && role.Keys <= bytes.Keys && role.Keys <= bytes'.Keys
      && forall p :: p in role ==>
           if role[p].Free? then role'[p].Free? || (role'[p].Table? && role'[p].node.root == root)
           else role'[p] == role[p] && bytes'[p] == bytes[p]
  }

  /** role with the managed pages among ppn .. ppn + k made leaf pages for first .. first + k. */
  ghost function ClaimRange(role: map<nat, Role>, root: nat, first: nat, ppn: nat, k: nat): map<nat, Role> {
    map p | p in role :: if ppn <= p < ppn + k then Leaf(root, first + p - ppn) else role[p]
  }

  /** role with the leaf pages of root for vpn .. vpn + k given a new role. */
  ghost function DropRange(role: map<nat, Role>, root: nat, vpn: nat, k: nat, to: Role): map<nat, Role> {
    map p | p in role :: if role[p].Leaf? && role[p].root == root && vpn <= role[p].vpn < vpn + k then to else role[p]
  }

  /** From one memory to the next, root maps first .. first + k to ppn .. ppn + k with flags, and
      nothing else changes in any address space. */
  ghost predicate MapsRange(mem: Tables, at: map<Node, nat>, mem': Tables, at': map<Node, nat>, root: nat, first: nat,
                            k: nat, ppn: nat, flags: Flags) {
    forall r: nat, v: nat :: Lookup(mem', at', r, v) ==
      if r == root && first <= v < first + k then Some(Pte(ppn + v - first, flags)) else Lookup(mem, at, r, v)
  }

  /** root no longer maps vpn .. vpn + k, and nothing else changes. */
  ghost predicate UnmapsRange(mem: Tables, at: map<Node, nat>, mem': Tables, at': map<Node, nat>, root: nat, vpn: nat,
                              k: nat) {
    forall r: nat, v: nat :: Lookup(mem', at', r, v) == if r == root && vpn <= v < vpn + k then None
      else Lookup(mem, at, r, v)
  }

  /** Pages in use have kept their bytes. */
  ghost predicate KeepsBytes(role: map<nat, Role>, bytes: map<nat, seq<Byte>>, bytes': map<nat, seq<Byte>>) {
    forall n {:trigger Open(n)} :: Open(n) && n == ROLES ==>
      forall p :: p in role && !role[p].Free? ==> p in bytes && p in bytes' && bytes'[p] == bytes[p]
  }

  /** Tables are only added. */
  ghost predicate Extends(at: map<Node, nat>, at': map<Node, nat>) {
    forall nd :: nd in at ==> nd in at' && at'[nd] == at[nd]
  }

  /** PGROUNDUP(sz) / PGSIZE. */
  function Up(sz: nat): nat { (sz + PGSIZE - 1) / PGSIZE }

  /** Page v begins below sz. */
  lemma UpIs(sz: nat)
    ensures forall v: nat {:trigger v * PGSIZE} :: v < Up(sz) <==> v * PGSIZE < sz
  {
    forall v: nat ensures v < Up(sz) <==> v * PGSIZE < sz {}
  }

  /** A user page: flags of its entry and its bytes. */
  datatype Page = Page(flags: Flags, data: seq<Byte>)

  function Repeat(g: Page, n: nat): (s: seq<Page>)
    ensures |s| == n && forall i :: 0 <= i < n ==> s[i] == g
  {
    seq(n, i => g)
  }

  /** Virtual page v of root is g, on a physical page of its own. */
  ghost predicate Shows(mem: Tables, at: map<Node, nat>, role: map<nat, Role>, bytes: map<nat, seq<Byte>>, root: nat,
                        v: nat, g: Page) {
    var m := Lookup(mem, at, root, v);
    && m.Some? && m.value.flags == g.flags && m.value.ppn in role && role[m.value.ppn] == Leaf(root, v)
    && m.value.ppn in bytes && bytes[m.value.ppn] == g.data
  }

  /** From virtual page first on, root shows the pages list. */
  ghost predicate ShowsAll(mem: Tables, at: map<Node, nat>, role: map<nat, Role>, bytes: map<nat, seq<Byte>>,
                           root: nat, first: nat, list: seq<Page>) {
    forall n {:trigger Open(n)} :: Open(n) && n == SHOWN ==>
      forall t: nat :: t < |list| ==> Shows(mem, at, role, bytes, root, first + t, list[t])
  }

  /** Free pages have become tables of root or leaf pages of root for first .. first + k; every
      other page is used as before and, if it is in use, has the same bytes. */
  ghost predicate TookPages(role: map<nat, Role>, role': map<nat, Role>, bytes: map<nat, seq<Byte>>,
                            bytes': map<nat, seq<Byte>>,
                            root: nat, first: nat, k: nat) {
    forall n {:trigger Open(n)} :: Open(n) && n == ROLES ==>
      && role'.Keys == role.Keys && role.Keys <= bytes.Keys && role.Keys <= bytes'.Keys
      && forall p :: p in role ==>
           if role[p].Free? then
             || role'[p].Free?
             || (role'[p].Table? && role'[p].node.root == root)
             || (role'[p].Leaf? && role'[p].root == root && first <= role'[p].vpn < first + k)
           else role'[p] == role[p] && bytes'[p] == bytes[p]
  }

  /** Every byte below sz is mapped. */
  ghost predicate AllThere(mem: Tables, at: map<Node, nat>, root: nat, sz: nat) {
    forall a: nat :: a < sz ==> Lookup(mem, at, root, a / PGSIZE).Some?
  }

  /** With the pages that begin from oldsz on, every byte below newsz is mapped. */
  lemma Covers(mem0: Tables, at0: map<Node, nat>, mem: Tables, at: map<Node, nat>, root: nat, oldsz: nat, newsz: nat)
    requires forall v: nat {:trigger Lookup(mem, at, root, v)} :: oldsz <= v * PGSIZE < newsz ==>
               Lookup(mem, at, root, v).Some?
    requires forall v: nat {:trigger Lookup(mem, at, root, v)} :: v * PGSIZE < oldsz ==>
               Lookup(mem, at, root, v) == Lookup(mem0, at0, root, v)
    ensures AllThere(mem0, at0, root, oldsz) ==> AllThere(mem, at, root, newsz)
  {
    if AllThere(mem0, at0, root, oldsz) {
      forall a: nat | a < newsz ensures Lookup(mem, at, root, a / PGSIZE).Some? {
        var v := a / PGSIZE;
        assert v * PGSIZE <= a && v * PGSIZE / PGSIZE == v;
      }
    }
  }

  class Memory {
    var mem: Tables
    var bytes: map<nat, seq<Byte>>
    var head: nat                 // kmem.freelist
    ghost var freelist: seq<nat>
    ghost var role: map<nat, Role>
    ghost var at: map<Node, nat>
    ghost var dry: nat            // calls of kalloc that have found no page

    /** kinit with freerange: the pages start to stop are handed over one by one to kfree. */
    constructor (start: nat, stop: nat)
      requires 0 < start <= stop
      ensures Valid() && at == map[] && |freelist| == stop - start
      ensures forall p :: p in role <==> start <= p < stop
      ensures forall p :: p in role ==> role[p] == Free
    {
      mem, bytes, head, freelist, at, dry := map[], map p | p in Pages(start, stop) :: Fill(0), 0, [], map[], 0;
      role := map p | p in Pages(start, stop) :: Held;
      new;
      var p := start;
      while p < stop
        invariant start <= p <= stop && Valid() && at == map[] && |freelist| == p - start
        invariant forall q :: q in role <==> start <= q < stop
        invariant forall q :: q in role ==> role[q] == if q < p then Free else Held
      {
        Kfree(p);
        p := p + 1;
      }
    }

    ghost predicate Valid()
      reads this
    {
      Wf(mem, freelist, role, at) && Linked(mem, freelist, head) && forall n {:trigger Open(n)} :: Open(n) && n == 0 ==>
        BytesOk(bytes, role) && role.Keys <= bytes.Keys
    }

    /** walkaddr's view: what (root, vpn) is mapped to. */
    ghost function Map(root: nat, vpn: nat): Option<Pte>
      reads this
    {
      Lookup(mem, at, root, vpn)
    }

    ghost predicate IsRoot(root: nat)
      reads this
    {
      Node(root, 2, 0) in at && at[Node(root, 2, 0)] == root
    }

    /** kalloc: the first free page, filled with junk; 0 when there is none. */
    method Kalloc() returns (p: nat)
      requires Valid()
      modifies this
      ensures Valid() && at == old(at) && SameMaps(old(mem), at, mem, at)
      ensures p == 0 <==> old(freelist) == []
      ensures p == 0 ==> mem == old(mem) && bytes == old(bytes) && freelist == [] && role == old(role)
      ensures p != 0 ==>
                && p == old(freelist)[0] && freelist == old(freelist)[1..]
                && p in old(role) && old(role)[p].Free? && role == old(role)[p := Held]
                && mem == old(mem)[p := JUNK_FRESH] && bytes == old(bytes)[p := Fill(5)]
      ensures dry == old(dry) + if p == 0 then 1 else 0
    {
      FirstFree(mem, freelist, role, at, head);
      if head == 0 {
        dry := dry + 1;
        return 0;
      }
      p := head;
      Alloc(mem, freelist, role, at, JUNK_FRESH);
      RestFree(mem, freelist, head, JUNK_FRESH);
      head := NextOf(mem[p]);
      freelist := freelist[1..];
      mem, bytes := mem[p := JUNK_FRESH], bytes[p := Fill(5)];
      role := role[p := Held];
    }

    /** The head of the list. */
    static lemma FirstFree(mem: Tables, freelist: seq<nat>, role: map<nat, Role>, at: map<Node, nat>, head: nat)
      requires Wf(mem, freelist, role, at) && Linked(mem, freelist, head)
      ensures head == 0 <==> freelist == []
      ensures head != 0 ==> head == freelist[0] && head in mem && |mem[head]| == ENTRIES && head !in freelist[1..]
    {
      assert freelist != [] ==> freelist[0] in role && 0 !in role && freelist[0] !in freelist[1..] by {
        assert Open(0);
      }
      assert Open(LINKS);
    }

    static lemma LinkBack(q: nat)
      ensures Encode(LinkTo(q)) / PGSIZE == q
    {
      WordRoundTrip(q * PGSIZE);
    }

    /** The list without its head, which is overwritten. */
    static lemma RestFree(mem: Tables, freelist: seq<nat>, head: nat, words: seq<Pte>)
      requires Linked(mem, freelist, head) && freelist != [] && head == freelist[0] && head !in freelist[1..]
      requires head in mem && |mem[head]| == ENTRIES
      ensures Linked(mem[head := words], freelist[1..], NextOf(mem[head]))
    {
      assert Open(LINKS);
      LinkBack(Behind(freelist, 0));
      var rest := freelist[1..];
      forall k | 0 <= k < |rest|
        ensures rest[k] == freelist[k + 1] && rest[k] in rest && Behind(rest, k) == Behind(freelist, k + 1) {}
    }

    /** A new head, pointing to the old one. */
    static lemma NewFree(mem: Tables, freelist: seq<nat>, head: nat, p: nat)
      requires Linked(mem, freelist, head) && p !in freelist
      ensures Linked(mem[p := FreedWords(head)], [p] + freelist, p)
    {
      assert Open(LINKS);
      var list, mem' := [p] + freelist, mem[p := FreedWords(head)];
      forall k | 0 <= k < |list|
        ensures list[k] in mem' && |mem'[list[k]]| == ENTRIES
        ensures mem'[list[k]][0] == LinkTo(Behind(list, k))
      {
        assert Behind(list, k) == Behind(freelist, k - 1);
        assert k > 0 ==> list[k] == freelist[k - 1];
      }
    }

    /** Pages that are not free are no concern of the list. */
    static lemma LinksStay(mem: Tables, freelist: seq<nat>, head: nat, p: nat, words: seq<Pte>)
      requires Linked(mem, freelist, head) && p !in freelist
      ensures Linked(mem[p := words], freelist, head)
    {
      assert Open(LINKS);
    }

    static lemma NotFree(mem: Tables, freelist: seq<nat>, role: map<nat, Role>, at: map<Node, nat>, p: nat)
      requires Wf(mem, freelist, role, at) && p in role && !role[p].Free?
      ensures p !in freelist
    {
      assert Open(0);
    }

    static lemma TableNotFree(mem: Tables, freelist: seq<nat>, role: map<nat, Role>, at: map<Node, nat>, nd: Node)
      requires Wf(mem, freelist, role, at) && nd in at
      ensures at[nd] !in freelist
    {
      assert Open(0);
    }

    /** kfree of a page that belongs to the caller. */
    method Kfree(p: nat)
      requires Valid() && p in role && role[p] == Held
      modifies this
      ensures Valid() && at == old(at) && SameMaps(old(mem), at, mem, at)
      ensures freelist == [p] + old(freelist) && role == old(role)[p := Free]
      ensures mem == old(mem)[p := FreedWords(old(head))] && bytes == old(bytes)[p := FreedBytes(old(head))]
      ensures dry == old(dry) && head == p
    {
      Release(mem, freelist, role, at, p, FreedWords(head));
      NotFree(mem, freelist, role, at, p);
      NewFree(mem, freelist, head, p);
      mem, bytes := mem[p := FreedWords(head)], bytes[p := FreedBytes(head)];
      head := p;
      freelist := [p] + freelist;
      role := role[p := Free];
    }

    /** memset(page, 0, PGSIZE) of a page that belongs to the caller. */
    method Zero(p: nat)
      requires Valid() && p in role && role[p] == Held
      modifies this`mem, this`bytes
      ensures Valid() && SameMaps(old(mem), at, mem, at)
      ensures mem == old(mem)[p := ZeroTable] && bytes == old(bytes)[p := Fill(0)]
    {
      Rewrite(mem, freelist, role, at, p, ZeroTable);
      NotFree(mem, freelist, role, at, p);
      LinksStay(mem, freelist, head, p, ZeroTable);
      mem, bytes := mem[p := ZeroTable], bytes[p := Fill(0)];
    }

    /** The else branch in walk: allocate and link the next table, or fail. */
    method Grow(page: nat, idx: nat, ghost nd: Node) returns (p: nat)
      requires Valid() && nd in at && at[nd] == page && nd.level > 0 && idx < ENTRIES
      requires page in mem && |mem[page]| == ENTRIES && !mem[page][idx].flags.v
      modifies this
      ensures Valid() && SameMaps(old(mem), old(at), mem, at)
      ensures TookTables(old(role), role, old(bytes), bytes, nd.root)
      ensures p == 0 ==> freelist == [] && at == old(at)
      ensures p != 0 ==> at == old(at)[nd.Child(idx) := p] && nd.Child(idx) !in old(at)
      ensures dry == old(dry) + if p == 0 then 1 else 0
    {
      assert BytesOk(bytes, role) && role.Keys <= bytes.Keys by { assert Open(0); }
      Fresh(mem, freelist, role, at, nd, idx);
      p := Kalloc();
      if p != 0 {
        Zero(p);
        Link(mem, freelist, role, at, nd, idx, p);
        TableNotFree(mem, freelist, role, at, nd);
        LinksStay(mem, freelist, head, page, mem[page][idx := Pte(p, ONLY_V)]);
        mem := mem[page := mem[page][idx := Pte(p, ONLY_V)]];
        role := role[p := Table(nd.Child(idx))];
        at := at[nd.Child(idx) := p];
      }
    }

    /** An invalid entry has no table below it, and a table page is not free. */
    static lemma Fresh(mem: Tables, freelist: seq<nat>, role: map<nat, Role>, at: map<Node, nat>, nd: Node, idx: nat)
      requires Wf(mem, freelist, role, at) && nd in at && nd.level > 0 && idx < ENTRIES
      requires at[nd] in mem && |mem[at[nd]]| == ENTRIES && !mem[at[nd]][idx].flags.v
      ensures nd.Child(idx) !in at && at[nd] in role && role[at[nd]] == Table(nd)
    {
      assert Open(0);
      var c := nd.Child(idx);
      assert c.Parent() == nd && c.Slot() == idx;
    }

    /** What walk finds in a table on the way. */
    static lemma Below(mem: Tables, freelist: seq<nat>, role: map<nat, Role>, at: map<Node, nat>, root: nat,
                       level: nat, vpn: nat)
      requires Wf(mem, freelist, role, at) && 1 <= level <= 2 && vpn < MAXVPN && OnPath(root, level, vpn) in at
      ensures var nd := OnPath(root, level, vpn);
              && at[nd] in mem && |mem[at[nd]]| == ENTRIES
              && (mem[at[nd]][Px(level, vpn)].flags.v <==> OnPath(root, level - 1, vpn) in at)
              && (mem[at[nd]][Px(level, vpn)].flags.v ==>
                  mem[at[nd]][Px(level, vpn)].ppn == at[OnPath(root, level - 1, vpn)])
    {
      assert Open(0);
      PathStep(root, level, vpn);
      var nd, c := OnPath(root, level, vpn), OnPath(root, level - 1, vpn);
      assert mem[at[nd]][Px(level, vpn)].flags.v ==> EntryOk(mem[at[nd]][Px(level, vpn)], role, at, nd, Px(level, vpn));
      if c in at {
        assert c.Parent() in at;
      }
    }

    /** walk: the level-0 table page for vpn, or none. Without alloc nothing changes and the answer
        tells whether that table exists; with alloc it fails only when memory has run out. Either
        way no address space maps anything new. */
    method Walk(root: nat, vpn: nat, alloc: bool) returns (r: Option<nat>)
      requires Valid() && IsRoot(root) && vpn < MAXVPN
      modifies this
      ensures Valid() && SameMaps(old(mem), old(at), mem, at) && TookTables(old(role), role, old(bytes), bytes, root)
      ensures Extends(old(at), at)
      ensures !alloc ==> mem == old(mem) && bytes == old(bytes) && freelist == old(freelist) && role == old(role)
                         && at == old(at)
      ensures r.Some? ==> OnPath(root, 0, vpn) in at && at[OnPath(root, 0, vpn)] == r.value
      ensures r.None? ==> OnPath(root, 0, vpn) !in at && (alloc ==> freelist == [])
      ensures dry == old(dry) + if alloc && r.None? then 1 else 0
    {
      assert BytesOk(bytes, role) && role.Keys <= bytes.Keys by { assert Open(0); }
      var page, level := root, 2;
      while level > 0
        invariant 0 <= level <= 2 && Valid()
        invariant SameMaps(old(mem), old(at), mem, at) && TookTables(old(role), role, old(bytes), bytes, root)
        invariant Extends(old(at), at)
        invariant !alloc ==> mem == old(mem) && bytes == old(bytes) && freelist == old(freelist)
                             && role == old(role) && at == old(at)
        invariant OnPath(root, level, vpn) in at && at[OnPath(root, level, vpn)] == page && dry == old(dry)
      {
        Below(mem, freelist, role, at, root, level, vpn);
        PathStep(root, level, vpn);
        var e := mem[page][Px(level, vpn)];
        if e.flags.v {
          page := e.ppn;
        } else {
          if !alloc {
            Absent(mem, freelist, role, at, root, level, vpn);
            return None;
          }
          ghost var role1, bytes1 := role, bytes;
          var p := Grow(page, Px(level, vpn), OnPath(root, level, vpn));
          TookTrans(old(role), role1, role, old(bytes), bytes1, bytes, root);
          if p == 0 {
            Below(mem, freelist, role, at, root, level, vpn);
            Absent(mem, freelist, role, at, root, level, vpn);
            return None;
          }
          page := p;
        }
        level := level - 1;
      }
      r := Some(page);
    }

    static lemma Absent(mem: Tables, freelist: seq<nat>, role: map<nat, Role>, at: map<Node, nat>, root: nat,
                        level: nat, vpn: nat)
      requires Wf(mem, freelist, role, at) && 1 <= level <= 2 && vpn < MAXVPN && OnPath(root, level - 1, vpn) !in at
      ensures OnPath(root, 0, vpn) !in at
    {
      assert Open(0);
      PathStep(root, 1, vpn);
      var d := OnPath(root, 0, vpn);
      assert d in at ==> d.Parent() in at;
    }

    /** walkaddr: the physical page of a user-accessible mapping, 0 otherwise. */
    method Walkaddr(root: nat, vpn: nat) returns (ppn: nat)
      requires Valid() && IsRoot(root)
      modifies this
      ensures Valid() && mem == old(mem) && bytes == old(bytes) && freelist == old(freelist) && role == old(role)
              && at == old(at)
      ensures ppn == if vpn < MAXVPN && Map(root, vpn).Some? && Map(root, vpn).value.flags.u then Map(root,
          vpn).value.ppn else 0
      ensures dry == old(dry)
    {
      if vpn >= MAXVPN { return 0; }
      var t := Walk(root, vpn, false);
      if t.None? { return 0; }
      TableShape(mem, freelist, role, at, OnPath(root, 0, vpn));
      var e := mem[t.value][vpn % ENTRIES];
      if !e.flags.v { return 0; }
      if !e.flags.u { return 0; }
      ppn := e.ppn;
    }

    static lemma TableShape(mem: Tables, freelist: seq<nat>, role: map<nat, Role>, at: map<Node, nat>, nd: Node)
      requires Wf(mem, freelist, role, at) && nd in at
      ensures at[nd] in mem && |mem[at[nd]]| == ENTRIES && at[nd] in role && role[at[nd]] == Table(nd)
    {
      assert Open(0);
    }

    /** One turn of mappages. */
    method MapOne(root: nat, vpn: nat, ppn: nat, perm: Flags) returns (ok: bool)
      requires Valid() && IsRoot(root) && vpn < MAXVPN && Map(root, vpn).None?
      requires ppn in role ==> role[ppn] == Held
      modifies this
      ensures Valid() && IsRoot(root)
      ensures ok ==> ChangedAt(old(mem), old(at), mem, at, root, vpn, Some(Pte(ppn, perm.(v := true))))
      ensures ok ==> TookTables(Claim(old(role), ppn, Leaf(root, vpn)), role, old(bytes), bytes, root)
      ensures !ok ==> SameMaps(old(mem), old(at), mem, at) && TookTables(old(role), role, old(bytes), bytes, root)
                      && freelist == []
      ensures Extends(old(at), at)
      ensures dry == old(dry) + if ok then 0 else 1
    {
      var t := Walk(root, vpn, true);
      if t.None? { return false; }
      var page, e := t.value, Pte(ppn, perm.(v := true));
      assert Map(root, vpn) == old(Map(root, vpn));
      TookClaim(old(role), role, old(bytes), bytes, root, ppn, Leaf(root, vpn));
      SetLeaf(mem, freelist, role, at, root, vpn, e);
      TableNotFree(mem, freelist, role, at, OnPath(root, 0, vpn));
      LinksStay(mem, freelist, head, page, mem[page][vpn % ENTRIES := e]);
      mem := mem[page := mem[page][vpn % ENTRIES := e]];
      role := Claim(role, ppn, Leaf(root, vpn));
      ok := true;
    }

    /** One turn of uvmunmap; that the page is freed before the entry is cleared in the code makes
        no difference to the outcome. */
    method UnmapOne(root: nat, vpn: nat, do_free: bool, ghost to: Role)
      requires Valid() && IsRoot(root) && vpn < MAXVPN && Map(root, vpn).Some?
      requires do_free ==> Map(root, vpn).value.ppn in role
      requires to == if do_free then Free else Held
      modifies this
      ensures Valid() && at == old(at)
      ensures ChangedAt(old(mem), at, mem, at, root, vpn, None)
      ensures role == DropRange(old(role), root, vpn, 1, to)
      ensures !do_free ==> bytes == old(bytes) && freelist == old(freelist)
      ensures do_free ==> |freelist| == |old(freelist)| + 1
      ensures KeepsBytes(role, old(bytes), bytes)
      ensures dry == old(dry)
    {
      assert BytesOk(bytes, role) && role.Keys <= bytes.Keys by { assert Open(0); }
      var t := Walk(root, vpn, false);
      TableShape(mem, freelist, role, at, OnPath(root, 0, vpn));
      var page := t.value;
      var ppn := mem[page][vpn % ENTRIES].ppn;
      TableNotFree(mem, freelist, role, at, OnPath(root, 0, vpn));
      LinksStay(mem, freelist, head, page, mem[page][vpn % ENTRIES := NO_PTE]);
      ClearLeaf(mem, freelist, role, at, root, vpn);
      OneLeaf(mem, freelist, role, at, root, vpn, Held);
      mem := mem[page := mem[page][vpn % ENTRIES := NO_PTE]];
      role := Claim(role, ppn, Held);
      KeepsSame(role, bytes);
      if do_free {
        KeepsFreed(role, bytes, bytes, ppn, FreedBytes(head));
        Kfree(ppn);
      }
    }

    /** The only managed leaf page for (root, vpn) is the one that is mapped. */
    static lemma OneLeaf(mem: Tables, freelist: seq<nat>, role: map<nat, Role>, at: map<Node, nat>, root: nat,
                         vpn: nat, to: Role)
      requires Wf(mem, freelist, role, at) && Lookup(mem, at, root, vpn).Some?
      ensures var ppn := Lookup(mem, at, root, vpn).value.ppn;
              && (forall p :: p in role && role[p] == Leaf(root, vpn) ==> p == ppn)
              && (ppn in role ==> role[ppn] == Leaf(root, vpn))
              && DropRange(role, root, vpn, 1, to) == Claim(role, ppn, to)
    {
      ClearLeaf(mem, freelist, role, at, root, vpn);
      assert Open(0);
      forall p | p in role && role[p] == Leaf(root, vpn) ensures p == Lookup(mem, at, root, vpn).value.ppn {
        assert Mapped(mem, at, role[p].root, role[p].vpn, p);
      }
    }

    /** What mappages has done since mem0 and the rest, having mapped k pages. */
    ghost predicate Mapping(root: nat, first: nat, ppn: nat, flags: Flags, k: nat,
                            mem0: Tables, at0: map<Node, nat>, role0: map<nat, Role>, bytes0: map<nat, seq<Byte>>)
      reads this
    {
      && Valid() && IsRoot(root) && Extends(at0, at)
      && MapsRange(mem0, at0, mem, at, root, first, k, ppn, flags)
      && TookTables(ClaimRange(role0, root, first, ppn, k), role, bytes0, bytes, root)
    }

    /** One turn of mappages, seen from its start. */
    method MapTurn(root: nat, a: nat, ppn: nat, perm: Flags, ghost first: nat, ghost ppn0: nat, ghost k: nat,
                   ghost mem0: Tables, ghost at0: map<Node, nat>, ghost role0: map<nat, Role>,
                   ghost bytes0: map<nat, seq<Byte>>)
      returns (ok: bool, ghost k': nat)
      requires Mapping(root, first, ppn0, perm.(v := true), k, mem0, at0, role0, bytes0)
      requires a == first + k < MAXVPN && ppn == ppn0 + k && Lookup(mem0, at0, root, a).None?
               && (ppn in role0 ==> role0[ppn] == Held)
      modifies this
      ensures Mapping(root, first, ppn0, perm.(v := true), k', mem0, at0, role0, bytes0)
      ensures if ok then k' == k + 1 else k' == k && freelist == []
      ensures dry == old(dry) + if ok then 0 else 1
    {
      ghost var role1, bytes1, mem1, at1 := role, bytes, mem, at;
      HeldStays(role0, role, root, first, ppn0, k, bytes0, bytes);
      ok := MapOne(root, a, ppn, perm);
      if ok {
        ClaimNext(role0, role1, role, bytes0, bytes1, bytes, root, first, ppn0, k, a, ppn);
        MapsNext(mem0, at0, mem1, at1, mem, at, root, first, k, ppn0, perm.(v := true), a, ppn);
        k' := k + 1;
      } else {
        k' := k;
        TookTrans(ClaimRange(role0, root, first, ppn0, k), role1, role, bytes0, bytes1, bytes, root);
      }
    }

    static lemma HeldStays(role0: map<nat, Role>, role: map<nat, Role>, root: nat, first: nat, ppn: nat, k: nat,
                           bytes0: map<nat, seq<Byte>>, bytes: map<nat, seq<Byte>>)
      requires TookTables(ClaimRange(role0, root, first, ppn, k), role, bytes0, bytes, root)
      requires ppn + k in role0 ==> role0[ppn + k] == Held
      ensures ppn + k in role ==> role[ppn + k] == Held
    {
      assert Open(ROLES);
      var c := ClaimRange(role0, root, first, ppn, k);
      assert ppn + k in role ==> ppn + k in c && c[ppn + k] == Held;
    }

    /** mappages: maps the pages that va .. va + size touches to consecutive physical pages. -1
        means that memory for a table ran out; then the first done pages are mapped. */
    method Mappages(root: nat, va: nat, size: nat, pa: nat, perm: Flags) returns (r: int, ghost done: nat)
      requires Valid() && IsRoot(root) && size > 0 && (va + size - 1) / PGSIZE < MAXVPN
      requires forall v: nat :: va / PGSIZE <= v <= (va + size - 1) / PGSIZE ==> Map(root, v).None?
      requires forall p :: p in role && pa / PGSIZE <= p <= pa / PGSIZE + (va + size - 1) / PGSIZE - va / PGSIZE ==>
               role[p] == Held
      modifies this
      ensures Mapping(root, va / PGSIZE, pa / PGSIZE, perm.(v := true), done, old(mem), old(at), old(role), old(bytes))
      ensures r == 0 || r == -1
      ensures r == 0 ==> done == (va + size - 1) / PGSIZE - va / PGSIZE + 1
      ensures r == -1 ==> done <= (va + size - 1) / PGSIZE - va / PGSIZE && freelist == []
      ensures dry == old(dry) + if r == 0 then 0 else 1
    {
      assert BytesOk(bytes, role) && role.Keys <= bytes.Keys by { assert Open(0); }
      var a, last, ppn := va / PGSIZE, (va + size - 1) / PGSIZE, pa / PGSIZE;
      done := 0;
      assert ClaimRange(role, root, a, ppn, 0) == role;
      while true
        invariant a == va / PGSIZE + done <= last && ppn == pa / PGSIZE + done && dry == old(dry)
        invariant Mapping(root, va / PGSIZE, pa / PGSIZE, perm.(v := true), done, old(mem), old(at), old(role),
                          old(bytes))
        decreases last - a
      {
        assert Lookup(old(mem), old(at), root, a) == old(Map(root, a));
        var ok;
        ok, done := MapTurn(root, a, ppn, perm, va / PGSIZE, pa / PGSIZE, done, old(mem), old(at), old(role),
                            old(bytes));
        if !ok {
          return -1, done;
        }
        if a == last { break; }
        a, ppn := a + 1, ppn + 1;
      }
      r := 0;
    }

    static lemma TookTrans(r0: map<nat, Role>, r1: map<nat, Role>, r2: map<nat, Role>,
                           b0: map<nat, seq<Byte>>, b1: map<nat, seq<Byte>>, b2: map<nat, seq<Byte>>, root: nat)
      requires TookTables(r0, r1, b0, b1, root) && TookTables(r1, r2, b1, b2, root)
      ensures TookTables(r0, r2, b0, b2, root)
    {
      assert Open(ROLES);
    }

    /** A held page may get a new role meanwhile. */
    static lemma TookClaim(r0: map<nat, Role>, r1: map<nat, Role>, b0: map<nat, seq<Byte>>, b1: map<nat, seq<Byte>>,
                           root: nat, p: nat, to: Role)
      requires TookTables(r0, r1, b0, b1, root) && (p in r0 ==> r0[p] == Held)
      ensures TookTables(Claim(r0, p, to), Claim(r1, p, to), b0, b1, root) && (p in r1 ==> r1[p] == Held)
    {
      assert Open(ROLES);
    }

    /** A page that was taken for nothing is given back. */
    static lemma TookAndGave(r0: map<nat, Role>, r1: map<nat, Role>, b0: map<nat, seq<Byte>>, b1: map<nat, seq<Byte>>,
                             root: nat, p: nat, junk0: seq<Byte>, junk1: seq<Byte>)
      requires p in r0 && r0[p].Free? && r0.Keys <= b0.Keys && TookTables(r0[p := Held], r1, b0[p := junk0], b1, root)
      ensures p in r1 && r1[p] == Held && TookTables(r0, r1[p := Free], b0, b1[p := junk1], root)
    {
      assert Open(ROLES);
      assert p in r0[p := Held];
    }

    /** Leaf pages keep their role and their bytes. */
    static lemma LeavesKept(r0: map<nat, Role>, r1: map<nat, Role>, b0: map<nat, seq<Byte>>, b1: map<nat, seq<Byte>>,
                            root: nat)
      requires TookTables(r0, r1, b0, b1, root)
      ensures forall q :: q in r0 && r0[q].Leaf? ==> q in r1 && r1[q] == r0[q] && q in b0 && q in b1 && b1[q] == b0[q]
    {
      assert Open(ROLES);
    }

    static lemma ClaimNext(r0: map<nat, Role>, r1: map<nat, Role>, r2: map<nat, Role>,
                           b0: map<nat, seq<Byte>>, b1: map<nat, seq<Byte>>, b2: map<nat, seq<Byte>>,
                           root: nat, first: nat, ppn: nat, k: nat, a: nat, p: nat)
      requires a == first + k && p == ppn + k && (p in r0 ==> r0[p] == Held)
      requires TookTables(ClaimRange(r0, root, first, ppn, k), r1, b0, b1, root)
      requires TookTables(Claim(r1, p, Leaf(root, a)), r2, b1, b2, root)
      ensures TookTables(ClaimRange(r0, root, first, ppn, k + 1), r2, b0, b2, root)
    {
      TookClaim(ClaimRange(r0, root, first, ppn, k), r1, b0, b1, root, p, Leaf(root, a));
      assert Claim(ClaimRange(r0, root, first, ppn, k), p, Leaf(root, a)) == ClaimRange(r0, root, first, ppn, k + 1);
      TookTrans(ClaimRange(r0, root, first, ppn, k + 1), Claim(r1, p, Leaf(root, a)), r2, b0, b1, b2, root);
    }

    static lemma MapsNext(mem: Tables, at: map<Node, nat>, mem1: Tables, at1: map<Node, nat>, mem2: Tables,
                          at2: map<Node, nat>,
                          root: nat, first: nat, k: nat, ppn: nat, flags: Flags, a: nat, p: nat)
      requires MapsRange(mem, at, mem1, at1, root, first, k, ppn, flags) && a == first + k && p == ppn + k
      requires ChangedAt(mem1, at1, mem2, at2, root, a, Some(Pte(p, flags)))
      ensures MapsRange(mem, at, mem2, at2, root, first, k + 1, ppn, flags)
    {
    }

    static lemma DropNext(role: map<nat, Role>, root: nat, vpn: nat, k: nat, to: Role)
      requires !to.Leaf?
      ensures DropRange(DropRange(role, root, vpn, k, to), root, vpn + k, 1, to) == DropRange(role, root, vpn, k + 1,
          to)
    {
    }

    /** Pages that are still in use have kept their bytes all along. */
    static lemma KeepsTrans(role1: map<nat, Role>, role2: map<nat, Role>, b0: map<nat, seq<Byte>>,
                            b1: map<nat, seq<Byte>>, b2: map<nat, seq<Byte>>)
      requires KeepsBytes(role1, b0, b1) && KeepsBytes(role2, b1, b2)
      requires forall p :: p in role2 && !role2[p].Free? ==> p in role1 && !role1[p].Free?
      ensures KeepsBytes(role2, b0, b2)
    {
      assert Open(ROLES);
    }

    static lemma KeepsSame(role: map<nat, Role>, bytes: map<nat, seq<Byte>>)
      requires role.Keys <= bytes.Keys
      ensures KeepsBytes(role, bytes, bytes)
    {
    }

    static lemma KeepsFreed(role: map<nat, Role>, b0: map<nat, seq<Byte>>, b1: map<nat, seq<Byte>>, p: nat,
                            junk: seq<Byte>)
      requires KeepsBytes(role, b0, b1)
      ensures KeepsBytes(role[p := Free], b0, b1[p := junk])
    {
      assert Open(ROLES);
    }

    static lemma UnmapsNext(mem: Tables, mem1: Tables, mem2: Tables, at: map<Node, nat>, root: nat, vpn: nat, k: nat)
      requires UnmapsRange(mem, at, mem1, at, root, vpn, k) && ChangedAt(mem1, at, mem2, at, root, vpn + k, None)
      ensures UnmapsRange(mem, at, mem2, at, root, vpn, k + 1)
    {
    }

    static lemma DropsNext(role0: map<nat, Role>, role1: map<nat, Role>, role2: map<nat, Role>, root: nat, vpn: nat,
                           k: nat, to: Role, b0: map<nat, seq<Byte>>, b1: map<nat, seq<Byte>>, b2: map<nat, seq<Byte>>)
      requires !to.Leaf? && role1 == DropRange(role0, root, vpn, k, to)
      requires role2 == DropRange(role1, root, vpn + k, 1, to) && KeepsBytes(role1, b0, b1) && KeepsBytes(role2, b1, b2)
      ensures role2 == DropRange(role0, root, vpn, k + 1, to) && KeepsBytes(role2, b0, b2)
    {
      DropNext(role0, root, vpn, k, to);
      KeepsTrans(role1, role2, b0, b1, b2);
    }

    /** What uvmunmap has done since mem0 and the rest, having removed k pages. */
    ghost predicate Unmapping(root: nat, vpn: nat, k: nat, to: Role,
                              mem0: Tables, at0: map<Node, nat>, role0: map<nat, Role>, bytes0: map<nat, seq<Byte>>)
      reads this
    {
      && Valid() && at == at0 && UnmapsRange(mem0, at0, mem, at, root, vpn, k)
      && role == DropRange(role0, root, vpn, k, to) && KeepsBytes(role, bytes0, bytes)
    }

    /** One turn of uvmunmap, seen from its start. */
    method UnmapTurn(root: nat, a: nat, do_free: bool, ghost to: Role, ghost vpn: nat,
                     ghost mem0: Tables, ghost at0: map<Node, nat>, ghost role0: map<nat, Role>,
                     ghost bytes0: map<nat, seq<Byte>>)
      requires vpn <= a < MAXVPN && Unmapping(root, vpn, a - vpn, to, mem0, at0, role0, bytes0) && IsRoot(root)
      requires to == if do_free then Free else Held
      requires Lookup(mem0, at0, root, a).Some? && (do_free ==> Lookup(mem0, at0, root, a).value.ppn in role0)
      modifies this
      ensures Unmapping(root, vpn, a + 1 - vpn, to, mem0, at0, role0, bytes0)
      ensures |freelist| == |old(freelist)| + if do_free then 1 else 0
      ensures dry == old(dry)
    {
      assert Map(root, a) == Lookup(mem0, at0, root, a);
      UnmapOne(root, a, do_free, to);
      UnmapsNext(mem0, old(mem), mem, at, root, vpn, a - vpn);
      DropsNext(role0, old(role), role, root, vpn, a - vpn, to, bytes0, old(bytes), bytes);
    }

    /** uvmunmap: root loses exactly vpn .. vpn + n, whose managed pages become free or, without
        do_free, the caller's. The panics for a missing or non-leaf entry are its preconditions. */
    method Uvmunmap(root: nat, vpn: nat, n: nat, do_free: bool)
      requires Valid() && IsRoot(root) && vpn + n <= MAXVPN
      requires forall v: nat :: vpn <= v < vpn + n ==> Map(root, v).Some? && Map(root, v).value.flags != ONLY_V
      requires do_free ==> forall v: nat :: vpn <= v < vpn + n ==> Map(root, v).value.ppn in role
      modifies this
      ensures Unmapping(root, vpn, n, if do_free then Free else Held, old(mem), old(at), old(role), old(bytes))
      ensures |freelist| == |old(freelist)| + if do_free then n else 0
      ensures dry == old(dry)
    {
      assert BytesOk(bytes, role) && role.Keys <= bytes.Keys by { assert Open(0); }
      var a := vpn;
      ghost var to := if do_free then Free else Held;
      assert DropRange(role, root, vpn, 0, to) == role;
      while a < vpn + n
        invariant vpn <= a <= vpn + n && dry == old(dry)
        invariant |freelist| == |old(freelist)| + if do_free then a - vpn else 0
        invariant Unmapping(root, vpn, a - vpn, to, old(mem), old(at), old(role), old(bytes))
      {
        assert Lookup(old(mem), old(at), root, a) == old(Map(root, a));
        UnmapTurn(root, a, do_free, to, vpn, old(mem), old(at), old(role), old(bytes));
        a := a + 1;
      }
    }

    /** uvmcreate: an empty address space, or 0. */
    method Uvmcreate() returns (root: nat)
      requires Valid()
      modifies this
      ensures Valid() && SameMaps(old(mem), old(at), mem, at)
      ensures root == 0 <==> old(freelist) == []
      ensures root == 0 ==> role == old(role) && at == old(at)
      ensures root != 0 ==> IsRoot(root) && old(root in role && role[root].Free?)
                            && role == old(role)[root := Table(Node(root, 2, 0))]
      ensures root != 0 ==> forall v :: Map(root, v).None?
      ensures dry == old(dry) + if root == 0 then 1 else 0
    {
      root := Kalloc();
      if root != 0 {
        Zero(root);
        NewRoot(mem, freelist, role, at, root);
        role := role[root := Table(Node(root, 2, 0))];
        at := at[Node(root, 2, 0) := root];
      }
    }

    /** uvmdealloc: shrink from oldsz to newsz, freeing the pages in between. */
    method Uvmdealloc(root: nat, oldsz: nat, newsz: nat) returns (sz: nat)
      requires Valid() && IsRoot(root) && oldsz <= MAXVPN * PGSIZE
      requires forall v: nat {:trigger Map(root, v)} :: newsz <= v * PGSIZE < oldsz ==>
                 Map(root, v).Some? && Map(root, v).value.flags != ONLY_V && Map(root, v).value.ppn in role
      modifies this
      ensures sz == if newsz < oldsz then newsz else oldsz
      ensures forall r: nat, v: nat {:trigger Map(r, v)} ::
                Map(r, v) == if r == root && newsz <= v * PGSIZE < oldsz then None else old(Map(r, v))
      ensures forall p :: p in old(role) ==>
                p in role && role[p] == if old(role)[p].Leaf? && old(role)[p].root == root
                                           && newsz <= old(role)[p].vpn * PGSIZE < oldsz then Free else old(role)[p]
      ensures forall a: nat {:trigger a / PGSIZE} :: a < newsz ==> Map(root, a / PGSIZE) == old(Map(root, a / PGSIZE))
      ensures Unmapping(root, Up(sz), if Up(newsz) < Up(oldsz) then Up(oldsz) - Up(newsz) else 0, Free, old(mem),
                        old(at), old(role), old(bytes))
      ensures dry == old(dry)
    {
      assert BytesOk(bytes, role) && role.Keys <= bytes.Keys by { assert Open(0); }
      UpIs(newsz);
      UpIs(oldsz);
      if newsz >= oldsz {
        assert DropRange(role, root, Up(oldsz), 0, Free) == role;
        return oldsz;
      }
      if Up(newsz) < Up(oldsz) {
        Uvmunmap(root, Up(newsz), Up(oldsz) - Up(newsz), true);
      } else {
        assert DropRange(role, root, Up(newsz), 0, Free) == role;
      }
      sz := newsz;
    }

    /** kalloc, fill and mappages for one user page, as uvmalloc and uvmcopy do it; on failure the
        page is given back and 0 returned. */
    method Place(root: nat, a: nat, perm: Flags, data: seq<Byte>) returns (p: nat)
      requires Valid() && IsRoot(root) && a < MAXVPN && Map(root, a).None? && |data| == PGSIZE
      modifies this
      ensures Valid() && IsRoot(root) && Extends(old(at), at)
      ensures p == 0 ==> SameMaps(old(mem), old(at), mem, at)
                         && TookTables(old(role), role, old(bytes), bytes, root) && |freelist| <= 1
      ensures p != 0 ==>
                && old(p in role && role[p].Free?)
                && ChangedAt(old(mem), old(at), mem, at, root, a, Some(Pte(p, perm.(v := true))))
                && TookTables(old(role)[p := Leaf(root, a)], role, old(bytes)[p := data], bytes, root)
      ensures dry == old(dry) + if p == 0 then 1 else 0
    {
      assert BytesOk(bytes, role) && role.Keys <= bytes.Keys by { assert Open(0); }
      p := Kalloc();
      if p == 0 { return; }
      bytes := bytes[p := data];
      assert bytes == old(bytes)[p := data];
      assert Map(root, a) == old(Map(root, a));
      OnePage(a, p);
      var r;
      ghost var done;
      r, done := Mappages(root, a * PGSIZE, PGSIZE, p * PGSIZE, perm);
      ClaimNone(old(role), root, a, p);
      if r != 0 {
        TookAndGave(old(role), role, old(bytes), bytes, root, p, data, FreedBytes(head));
        Kfree(p);
        return 0;
      }
    }

    /** Mapping no page, and mapping one page that the caller has just got. */
    static lemma ClaimNone(role: map<nat, Role>, root: nat, a: nat, p: nat)
      ensures ClaimRange(role[p := Held], root, a, p, 0) == role[p := Held]
      ensures ClaimRange(role[p := Held], root, a, p, 1) == role[p := Leaf(root, a)]
    {
    }

    static lemma OnePage(a: nat, p: nat)
      ensures a * PGSIZE / PGSIZE == a && (a * PGSIZE + PGSIZE - 1) / PGSIZE == a && p * PGSIZE / PGSIZE == p
    {
    }

    /** Since mem0 and the rest, root has got the pages list from first on, taken from the free
        pages, and nothing else has changed in any address space. */
    ghost predicate Added(root: nat, first: nat, list: seq<Page>,
                          mem0: Tables, at0: map<Node, nat>, role0: map<nat, Role>, bytes0: map<nat, seq<Byte>>)
      reads this
    {
      && Valid() && IsRoot(root) && Extends(at0, at)
      && ShowsAll(mem, at, role, bytes, root, first, list)
      && (forall r: nat, v: nat {:trigger Lookup(mem, at, r, v)} ::
            !(r == root && first <= v < first + |list|) ==> Lookup(mem, at, r, v) == Lookup(mem0, at0, r, v))
      && TookPages(role0, role, bytes0, bytes, root, first, |list|)
    }

    /** One turn of uvmalloc or uvmcopy. */
    method AddPage(root: nat, a: nat, perm: Flags, data: seq<Byte>, ghost first: nat, ghost list: seq<Page>,
                   ghost mem0: Tables, ghost at0: map<Node, nat>, ghost role0: map<nat, Role>,
                   ghost bytes0: map<nat, seq<Byte>>)
      returns (ok: bool, ghost list': seq<Page>)
      requires Added(root, first, list, mem0, at0, role0, bytes0)
      requires a == first + |list| < MAXVPN && Lookup(mem0, at0, root, a).None? && |data| == PGSIZE
      modifies this
      ensures list' == if ok then list + [Page(perm.(v := true), data)] else list
      ensures Added(root, first, list', mem0, at0, role0, bytes0)
      ensures !ok ==> |freelist| <= 1
      ensures dry == old(dry) + if ok then 0 else 1
    {
      assert Map(root, a) == Lookup(mem0, at0, root, a);
      var p := Place(root, a, perm, data);
      ok := p != 0;
      if ok {
        LeavesKept(old(role)[p := Leaf(root, a)], role, old(bytes)[p := data], bytes, root);
        StillShown(old(mem), old(at), old(role), old(bytes), mem, at, role, bytes, root, first, list);
        ShowsNext(mem, at, role, bytes, root, first, list, a, Page(perm.(v := true), data));
        AddedRoles(role0, old(role), role, bytes0, old(bytes), bytes, root, first, |list|, a, p, data);
        list' := list + [Page(perm.(v := true), data)];
      } else {
        LeavesKept(old(role), role, old(bytes), bytes, root);
        StillShown(old(mem), old(at), old(role), old(bytes), mem, at, role, bytes, root, first, list);
        TookNoPage(role0, old(role), role, bytes0, old(bytes), bytes, root, first, |list|);
        list' := list;
      }
    }

    /** Pages that keep their entry, their role and their bytes are still shown. */
    static lemma StillShown(mem: Tables, at: map<Node, nat>, role: map<nat, Role>, bytes: map<nat, seq<Byte>>,
                            mem': Tables, at': map<Node, nat>, role': map<nat, Role>, bytes': map<nat, seq<Byte>>,
                            root: nat, first: nat, list: seq<Page>)
      requires ShowsAll(mem, at, role, bytes, root, first, list)
      requires forall v: nat :: first <= v < first + |list| ==> Lookup(mem', at', root, v) == Lookup(mem, at, root, v)
      requires forall q :: q in role && role[q].Leaf? ==>
               q in role' && role'[q] == role[q] && q in bytes && q in bytes' && bytes'[q] == bytes[q]
      ensures ShowsAll(mem', at', role', bytes', root, first, list)
    {
      assert Open(SHOWN);
      forall t: nat | t < |list| ensures Shows(mem', at', role', bytes', root, first + t, list[t]) {
        assert Shows(mem, at, role, bytes, root, first + t, list[t]);
      }
    }

    static lemma ShowsNext(mem: Tables, at: map<Node, nat>, role: map<nat, Role>, bytes: map<nat, seq<Byte>>,
                           root: nat, first: nat, list: seq<Page>, a: nat, g: Page)
      requires ShowsAll(mem, at, role, bytes, root, first, list) && a == first + |list|
               && Shows(mem, at, role, bytes, root, a, g)
      ensures ShowsAll(mem, at, role, bytes, root, first, list + [g])
    {
      assert Open(SHOWN);
    }

    static lemma ShownAt(mem: Tables, at: map<Node, nat>, role: map<nat, Role>, bytes: map<nat, seq<Byte>>,
                         root: nat, first: nat, list: seq<Page>, v: nat)
      requires ShowsAll(mem, at, role, bytes, root, first, list) && first <= v < first + |list|
      ensures Shows(mem, at, role, bytes, root, v, list[v - first])
    {
      assert Open(SHOWN);
      assert Shows(mem, at, role, bytes, root, first + (v - first), list[v - first]);
    }

    static lemma TookNoPage(r0: map<nat, Role>, r1: map<nat, Role>, r2: map<nat, Role>,
                            b0: map<nat, seq<Byte>>, b1: map<nat, seq<Byte>>, b2: map<nat, seq<Byte>>, root: nat,
                            first: nat, k: nat)
      requires TookPages(r0, r1, b0, b1, root, first, k) && TookTables(r1, r2, b1, b2, root)
      ensures TookPages(r0, r2, b0, b2, root, first, k)
    {
      assert Open(ROLES);
    }

    static lemma AddedRoles(r0: map<nat, Role>, r1: map<nat, Role>, r2: map<nat, Role>,
                            b0: map<nat, seq<Byte>>, b1: map<nat, seq<Byte>>, b2: map<nat, seq<Byte>>,
                            root: nat, first: nat, k: nat, a: nat, p: nat, data: seq<Byte>)
      requires TookPages(r0, r1, b0, b1, root, first, k) && a == first + k && p in r1 && r1[p].Free?
      requires TookTables(r1[p := Leaf(root, a)], r2, b1[p := data], b2, root)
      ensures TookPages(r0, r2, b0, b2, root, first, k + 1)
    {
      assert Open(ROLES);
    }

    /** A leaf page is mapped where its role says. */
    static lemma LeavesMapped(mem: Tables, freelist: seq<nat>, role: map<nat, Role>, at: map<Node, nat>)
      requires Wf(mem, freelist, role, at)
      ensures forall p :: p in role && role[p].Leaf? ==> Lookup(mem, at, role[p].root, role[p].vpn).Some?
    {
      assert Open(0);
      forall p | p in role && role[p].Leaf? ensures Lookup(mem, at, role[p].root, role[p].vpn).Some? {
        assert Mapped(mem, at, role[p].root, role[p].vpn, p);
      }
    }

    /** Taking back the pages that were added: every address space is as it was, and the pages are
        free again (tables that were allocated on the way stay). */
    method TakeBack(root: nat, ghost first: nat, n: nat, firstPage: nat, ghost list: seq<Page>,
                    ghost mem0: Tables, ghost at0: map<Node, nat>, ghost role0: map<nat, Role>,
                    ghost bytes0: map<nat, seq<Byte>>)
      requires Added(root, first, list, mem0, at0, role0, bytes0) && n == |list| && firstPage == first
               && first + n <= MAXVPN
      requires forall t: nat :: t < |list| ==> list[t].flags != ONLY_V
      requires forall v: nat :: first <= v < first + n ==> Lookup(mem0, at0, root, v).None?
      requires forall p :: p in role0 && role0[p].Leaf? ==> Lookup(mem0, at0, role0[p].root, role0[p].vpn).Some?
      modifies this
      ensures Valid() && IsRoot(root) && Extends(at0, at)
      ensures SameMaps(mem0, at0, mem, at) && TookTables(role0, role, bytes0, bytes, root)
      ensures |freelist| == |old(freelist)| + n
      ensures dry == old(dry)
    {
      forall v: nat | first <= v < first + n
        ensures Map(root, v).Some? && Map(root, v).value.flags != ONLY_V && Map(root, v).value.ppn in role
      {
        assert Open(SHOWN);
        assert Shows(mem, at, role, bytes, root, first + (v - first), list[v - first]);
      }
      Uvmunmap(root, firstPage, n, true);
      assert role.Keys <= bytes.Keys by { assert Open(0); }
      BackRoles(role0, old(role), role, bytes0, old(bytes), bytes, root, first, n, mem0, at0);
    }

    static lemma BackRoles(r0: map<nat, Role>, r1: map<nat, Role>, r2: map<nat, Role>,
                           b0: map<nat, seq<Byte>>, b1: map<nat, seq<Byte>>, b2: map<nat, seq<Byte>>, root: nat,
                           first: nat, n: nat,
                           mem0: Tables, at0: map<Node, nat>)
      requires TookPages(r0, r1, b0, b1, root, first, n) && r2 == DropRange(r1, root, first, n, Free)
               && r2.Keys <= b2.Keys
      requires KeepsBytes(r2, b1, b2)
      requires forall v: nat :: first <= v < first + n ==> Lookup(mem0, at0, root, v).None?
      requires forall p :: p in r0 && r0[p].Leaf? ==> Lookup(mem0, at0, r0[p].root, r0[p].vpn).Some?
      ensures TookTables(r0, r2, b0, b2, root)
    {
      assert Open(ROLES);
      forall p | p in r0 && !r0[p].Free? ensures r2[p] == r0[p] {}
    }

    /** uvmalloc: on success root has got zeroed pages of its own for everything up to newsz, with
        the flags asked for; on failure, which is answered by 0, every address space is as it was
        and every page used before is used as before. It fails exactly when a call of kalloc has found
        no page, and then all that is free afterwards are the pages it has given back. */
    method Uvmalloc(root: nat, oldsz: nat, newsz: nat, xperm: Flags) returns (sz: nat, ghost ok: bool)
      requires Valid() && IsRoot(root) && newsz <= MAXVPN * PGSIZE
      requires forall v: nat {:trigger Map(root, v)} :: oldsz <= v * PGSIZE < newsz ==> Map(root, v).None?
      modifies this
      ensures Valid() && IsRoot(root)
      ensures newsz < oldsz ==>
              ok && sz == oldsz && mem == old(mem) && bytes == old(bytes) && freelist == old(freelist)
                && role == old(role) && at == old(at)
      ensures newsz >= oldsz && ok ==>
                && sz == newsz
                && Added(root, Up(oldsz),
                         Repeat(Page(xperm.(v := true, r := true, u := true), Fill(0)), Up(newsz) - Up(oldsz)),
                         old(mem), old(at), old(role), old(bytes))
      ensures newsz >= oldsz && ok ==>
                && (forall v: nat {:trigger Map(root, v)} :: oldsz <= v * PGSIZE < newsz ==>
                      Shows(mem, at, role, bytes, root, v, Page(xperm.(v := true, r := true, u := true), Fill(0))))
                && (forall r: nat, v: nat {:trigger Map(r, v)} ::
                      !(r == root && oldsz <= v * PGSIZE < newsz) ==> Map(r, v) == old(Map(r, v)))
      ensures newsz >= oldsz && ok && AllThere(old(mem), old(at), root, oldsz) ==> AllThere(mem, at, root, newsz)
      ensures !ok ==> sz == 0 && SameMaps(old(mem), old(at), mem, at)
                      && TookTables(old(role), role, old(bytes), bytes, root)
      ensures !ok ==> |freelist| <= Up(newsz) - Up(oldsz)
      ensures dry == old(dry) + if ok then 0 else 1
    {
      if newsz < oldsz { return oldsz, true; }
      assert BytesOk(bytes, role) && role.Keys <= bytes.Keys by { assert Open(0); }
      LeavesMapped(mem, freelist, role, at);
      UpIs(oldsz);
      UpIs(newsz);
      forall v: nat | Up(oldsz) <= v < Up(newsz) ensures Lookup(mem, at, root, v).None? { assert Map(root, v).None?; }
      var perm := xperm.(r := true, u := true);
      ghost var page := Page(perm.(v := true), Fill(0));
      var a := Up(oldsz);
      ghost var list: seq<Page> := [];
      while a * PGSIZE < newsz
        invariant a == Up(oldsz) + |list| && (a == Up(oldsz) || a <= Up(newsz)) && dry == old(dry)
        invariant forall t :: 0 <= t < |list| ==> list[t] == page
        invariant Added(root, Up(oldsz), list, old(mem), old(at), old(role), old(bytes))
      {
        assert a < Up(newsz);
        var added;
        added, list := AddPage(root, a, perm, Fill(0), Up(oldsz), list, old(mem), old(at), old(role), old(bytes));
        if !added {
          TakeBack(root, Up(oldsz), a - Up(oldsz), Up(oldsz), list, old(mem), old(at), old(role), old(bytes));
          return 0, false;
        }
        a := a + 1;
      }
      assert list == Repeat(page, Up(newsz) - Up(oldsz));
      sz, ok := newsz, true;
      forall v: nat | oldsz <= v * PGSIZE < newsz
        ensures Lookup(mem, at, root, v).Some? && Shows(mem, at, role, bytes, root, v, page)
      {
        ShownAt(mem, at, role, bytes, root, Up(oldsz), list, v);
      }
      forall v: nat | v * PGSIZE < oldsz ensures Lookup(mem, at, root, v) == Lookup(old(mem), old(at), root, v) {
        assert v < Up(oldsz);
      }
      Covers(old(mem), old(at), mem, at, root, oldsz, newsz);
    }

    /** Part of the subtree below nd has been taken down since mem0 and the rest, and it maps nothing. */
    static ghost predicate AtWork(nd: Node, mem0: Tables, role0: map<nat, Role>, at0: map<Node, nat>,
                                  mem: Tables, role: map<nat, Role>, at: map<Node, nat>) {
      forall n {:trigger Open(n)} :: Open(n) && n == GONE ==>
        TakingDown(mem0, role0, at0, mem, role, at, nd) && NoLeafBelow(mem, at, nd) && SameMaps(mem0, at0, mem, at)
    }

    /** freewalk is at work on table nd, whose page is page. */
    ghost predicate Dismantling(page: nat, nd: Node, mem0: Tables, role0: map<nat, Role>, at0: map<Node, nat>,
                                bytes0: map<nat, seq<Byte>>)
      reads this
    {
      && Valid() && nd in at && at[nd] == page && page in mem && |mem[page]| == ENTRIES
      && AtWork(nd, mem0, role0, at0, mem, role, at) && KeepsBytes(role, bytes0, bytes)
    }

    /** The state that freewalk leaves: the subtree of nd is free, no other page has changed its
        use, and clearing the entry that the parent still has makes the tables right again. */
    static ghost predicate GoneFrom(nd: Node, mem0: Tables, role0: map<nat, Role>, at0: map<Node, nat>,
                                    mem: Tables, freelist: seq<nat>, role: map<nat, Role>, at: map<Node, nat>)
    {
      forall n {:trigger Open(n)} :: Open(n) && n == GONE ==>
        && at == Prune(at0, nd) && role == FreeTables(role0, nd)
        && (forall d :: d in at ==> d in at0 && at[d] in mem0 && at[d] in mem && mem[at[d]] == mem0[at[d]])
        && (nd.level < 2 ==> nd.Parent() in at && at[nd.Parent()] in mem && |mem[at[nd.Parent()]]| == ENTRIES)
        && Wf(Cut(mem, at, nd), freelist, role, at) && SameMaps(mem0, at0, Cut(mem, at, nd), at)
    }

    /** The same of this memory, with the bytes. */
    ghost predicate Dismantled(nd: Node, mem0: Tables, role0: map<nat, Role>, at0: map<Node, nat>,
                               bytes0: map<nat, seq<Byte>>)
      reads this
    {
      && GoneFrom(nd, mem0, role0, at0, mem, freelist, role, at) && Linked(mem, freelist, head)
      && BytesOk(bytes, role) && role.Keys <= bytes.Keys && KeepsBytes(role, bytes0, bytes)
    }

    /** freewalk with nothing mapped below: every table of the subtree of nd becomes free, and
        "freewalk: leaf" is out of reach. */
    method Freewalk(page: nat, ghost nd: Node)
      requires Valid() && nd in at && at[nd] == page && NoLeafBelow(mem, at, nd)
      requires nd.level < 2 ==> nd.Parent() in at
      modifies this
      ensures Dismantled(nd, old(mem), old(role), old(at), old(bytes))
      decreases nd.level, 1
    {
      assert BytesOk(bytes, role) && role.Keys <= bytes.Keys by { assert Open(0); }
      OwnPages(mem, freelist, role, at, nd);
      var i := 0;
      while i < ENTRIES
        invariant 0 <= i <= ENTRIES && Dismantling(page, nd, old(mem), old(role), old(at), old(bytes))
        invariant forall j :: 0 <= j < i ==> !mem[page][j].flags.v
      {
        FreeEntry(page, i, nd, old(mem), old(role), old(at), old(bytes));
        i := i + 1;
      }
      assert nd.level < 2 ==> nd.Parent() in at by { assert Open(GONE); }
      FreeTable(page, nd, old(mem), old(freelist), old(role), old(at), old(bytes));
    }

    /** The final kfree in freewalk. */
    method FreeTable(page: nat, ghost nd: Node, ghost mem0: Tables, ghost freelist0: seq<nat>,
                     ghost role0: map<nat, Role>, ghost at0: map<Node, nat>, ghost bytes0: map<nat, seq<Byte>>)
      requires Dismantling(page, nd, mem0, role0, at0, bytes0) && Wf(mem0, freelist0, role0, at0)
      requires forall j :: 0 <= j < ENTRIES ==> !mem[page][j].flags.v
      requires nd.level < 2 ==> nd.Parent() in at
      modifies this
      ensures Dismantled(nd, mem0, role0, at0, bytes0)
    {
      assert BytesOk(bytes, role) && role.Keys <= bytes.Keys by { assert Open(0); }
      TableFreed(page, nd, mem0, freelist0, role0, at0, mem, freelist, role, at, FreedWords(head));
      KeepsFreed(role, bytes0, bytes, page, FreedBytes(head));
      TableNotFree(mem, freelist, role, at, nd);
      NewFree(mem, freelist, head, page);
      mem, bytes := mem[page := FreedWords(head)], bytes[page := FreedBytes(head)];
      head := page;
      freelist := [page] + freelist;
      role := role[page := Free];
      at := at - {nd};
    }

    /** The final kfree in freewalk, on values. */
    static lemma TableFreed(page: nat, nd: Node, mem0: Tables, freelist0: seq<nat>, role0: map<nat, Role>,
                            at0: map<Node, nat>,
                            mem: Tables, freelist: seq<nat>, role: map<nat, Role>, at: map<Node, nat>, words: seq<Pte>)
      requires Wf(mem0, freelist0, role0, at0) && Wf(mem, freelist, role, at)
               && AtWork(nd, mem0, role0, at0, mem, role, at)
      requires nd in at && at[nd] == page && page in mem && |mem[page]| == ENTRIES
      requires forall j :: 0 <= j < ENTRIES ==> !mem[page][j].flags.v
      requires nd.level < 2 ==> nd.Parent() in at
      ensures page in role && GoneFrom(nd, mem0, role0, at0, mem[page := words], [page] + freelist,
                                       role[page := Free], at - {nd})
    {
      assert Open(GONE);
      OwnPages(mem, freelist, role, at, nd);
      TakenDown(mem0, freelist0, role0, at0, mem, freelist, role, at, nd);
      Unlink(mem, freelist, role, at, nd, words);
      CutAfter(mem, at, nd, page, words);
    }

    /** Tables have pages, and nd has one of its own. */
    static lemma OwnPages(mem: Tables, freelist: seq<nat>, role: map<nat, Role>, at: map<Node, nat>, nd: Node)
      requires Wf(mem, freelist, role, at) && nd in at
      ensures forall d :: d in at ==> at[d] in mem && |mem[at[d]]| == ENTRIES
      ensures forall d :: d in at && d != nd ==> at[d] != at[nd]
    {
      assert Open(0);
    }

    /** Clearing the parent entry and filling the page commute. */
    static lemma CutAfter(mem: Tables, at: map<Node, nat>, nd: Node, page: nat, words: seq<Pte>)
      requires nd in at && at[nd] == page && page in mem
      requires nd.level < 2 ==>
               nd.Parent() in at && at[nd.Parent()] in mem && |mem[at[nd.Parent()]]| == ENTRIES
                 && at[nd.Parent()] != page
      ensures nd.level < 2 ==> Cut(mem[page := words], at - {nd}, nd) == Cut(mem, at, nd)[page := words]
    {
    }

    /** One turn of freewalk. */
    method FreeEntry(page: nat, i: nat, ghost nd: Node, ghost mem0: Tables, ghost role0: map<nat, Role>,
                     ghost at0: map<Node, nat>, ghost bytes0: map<nat, seq<Byte>>)
      requires Dismantling(page, nd, mem0, role0, at0, bytes0) && i < ENTRIES
      modifies this
      ensures Dismantling(page, nd, mem0, role0, at0, bytes0)
      ensures mem[page] == old(mem)[page][i := mem[page][i]] && !mem[page][i].flags.v
      decreases nd.level, 0
    {
      var pte := mem[page][i];
      assert Open(GONE);
      EntryKind(mem, freelist, role, at, nd, i);
      if pte.flags.v && !pte.flags.r && !pte.flags.w && !pte.flags.x {
        OwnPages(mem, freelist, role, at, nd);
        Freewalk(pte.ppn, nd.Child(i));
        TableNotFree(Cut(mem, at, nd.Child(i)), freelist, role, at, nd);
        LinksStay(mem, freelist, head, page, mem[page][i := NO_PTE]);
        mem := mem[page := mem[page][i := NO_PTE]];
        KeepsTrans(old(role), role, bytes0, old(bytes), bytes);
        DownOne(mem0, role0, at0, old(mem), old(role), old(at), mem, role, at, nd, i);
      } else if pte.flags.v {
        assert false;
      }
    }

    /** In a subtree without leaves a valid entry points to a table. */
    static lemma EntryKind(mem: Tables, freelist: seq<nat>, role: map<nat, Role>, at: map<Node, nat>, nd: Node, i: nat)
      requires Wf(mem, freelist, role, at) && nd in at && at[nd] in mem && |mem[at[nd]]| == ENTRIES && i < ENTRIES
               && NoLeafBelow(mem, at, nd)
      ensures mem[at[nd]][i].flags.v ==>
                && nd.level > 0 && nd.Child(i) in at && mem[at[nd]][i] == Pte(at[nd.Child(i)], ONLY_V)
                && nd.Child(i).Parent() == nd && nd.Child(i).Slot() == i && NoLeafBelow(mem, at, nd.Child(i))
    {
      assert Open(0);
      if mem[at[nd]][i].flags.v {
        assert Sub(nd, nd);
        assert EntryOk(mem[at[nd]][i], role, at, nd, i);
        var c := nd.Child(i);
        assert c.Parent() == nd && c.Slot() == i;
        forall d | d in at && d.level == 0 && Sub(c, d) && at[d] in mem && |mem[at[d]]| == ENTRIES
          ensures forall idx :: 0 <= idx < ENTRIES ==> !mem[at[d]][idx].flags.v
        {
          SubOfChild(nd, i, d);
        }
      }
    }
  }
}
