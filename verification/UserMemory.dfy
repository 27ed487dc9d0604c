/** Whole address spaces and user bytes in kernel/vm.c: uvmfree, uvmcopy, copyout, copyin and
    copyinstr, over the page tables of Vm. */
module UserMemory {
  import opened Blocks
  import opened Common
  import opened PageSpec
  import opened Vm

  // ---- what the hardware sees ------------------------------------------------------------

  /** The tables as 64-bit words. */
  function WordsOf(mem: Tables): map<nat, seq<nat>> { map p | p in mem :: TableWords(mem[p]) }

  /** A leaf can be read or executed. Writable without readable is reserved and faults. */
  predicate IsLeaf(f: Flags) { f.r || (f.x && !f.w) }

  /** The pages that an entry of a table of this level stands for. */
  function Span(level: nat): nat { if level == 0 then 1 else if level == 1 then ENTRIES else ENTRIES * ENTRIES }

  /** Address translation of section 4.3.2 of the RISC-V Privileged Architecture, on words in
      memory, from the table in page on; None is a page fault. A leaf above level 0 is a superpage,
      which has to be aligned. */
  function Translate(words: map<nat, seq<nat>>, page: nat, level: nat, vpn: nat): Option<Pte>
    decreases level
  {
    if page !in words || |words[page]| != ENTRIES then None
    else
      var e := Decode(words[page][Px(level, vpn)]);
      if !e.flags.v || (e.flags.w && !e.flags.r) then None
      else if IsLeaf(e.flags) then
        if e.ppn % Span(level) == 0 then Some(e.(ppn := e.ppn + vpn % Span(level))) else None
      else if level == 0 then None
      else Translate(words, e.ppn, level - 1, vpn)
  }

  /** What the encoding makes of one entry. */
  lemma WordsAt(mem: Tables, page: nat, i: nat)
    requires page in mem && |mem[page]| == ENTRIES && i < ENTRIES
    ensures page in WordsOf(mem) && |WordsOf(mem)[page]| == ENTRIES && Decode(WordsOf(mem)[page][i]) == mem[page][i]
  {
    PteRoundTrip(mem[page][i]);
  }

  /** From the table on the path to vpn, the hardware finds the entry that Lookup tells, unless it
      is no leaf. */
  lemma {:induction false} TranslateFrom(mem: Tables, freelist: seq<nat>, role: map<nat, Role>, at: map<Node, nat>,
                                         root: nat, level: nat, vpn: nat)
    requires Wf(mem, freelist, role, at) && vpn < MAXVPN && level <= 2 && OnPath(root, level, vpn) in at
    ensures var e := Lookup(mem, at, root, vpn);
            Translate(WordsOf(mem), at[OnPath(root, level, vpn)], level, vpn)
            == if e.Some? && IsLeaf(e.value.flags) then e else None
  {
    var nd := OnPath(root, level, vpn);
    Memory.TableShape(mem, freelist, role, at, nd);
    WordsAt(mem, at[nd], Px(level, vpn));
    if level > 0 {
      Memory.Below(mem, freelist, role, at, root, level, vpn);
      if OnPath(root, level - 1, vpn) in at {
        assert mem[at[nd]][Px(level, vpn)].flags == ONLY_V by {
          assert Open(0);
          PathStep(root, level, vpn);
        }
        TranslateFrom(mem, freelist, role, at, root, level - 1, vpn);
      } else {
        Memory.Absent(mem, freelist, role, at, root, level, vpn);
      }
    }
  }

  /** The hardware's translation of the words in memory is the map that the tables stand for; an
      entry that is no leaf in its eyes faults. */
  lemma HardwareSees(m: Memory, root: nat, vpn: nat)
    requires m.Valid() && m.IsRoot(root) && vpn < MAXVPN
    ensures Translate(WordsOf(m.mem), root, 2, vpn) ==
              if m.Map(root, vpn).Some? && IsLeaf(m.Map(root, vpn).value.flags) then m.Map(root, vpn) else None
  {
    TranslateFrom(m.mem, m.freelist, m.role, m.at, root, 2, vpn);
  }

  // ---- freeing an address space ----------------------------------------------------------

  /** Every page of root, table or leaf, is free; no other page has changed its use. */
  ghost function ReleaseAll(role: map<nat, Role>, root: nat): map<nat, Role> {
    map p | p in role ::
      if (role[p].Table? && role[p].node.root == root) || (role[p].Leaf? && role[p].root == root) then Free else role[p]
  }

  /** The subtree of a root consists of all tables of its address space. */
  lemma {:induction false} SubOfRoot(mem: Tables, role: map<nat, Role>, at: map<Node, nat>, root: nat, d: Node)
    requires Trees(mem, role, at) && d in at
    ensures Sub(Node(root, 2, 0), d) <==> d.root == root
    decreases 2 - d.level
  {
    if d.level < 2 {
      assert d.Parent() in at;
      SubOfRoot(mem, role, at, root, d.Parent());
    }
  }

  lemma NothingMapped(mem: Tables, freelist: seq<nat>, role: map<nat, Role>, at: map<Node, nat>, root: nat)
    requires Wf(mem, freelist, role, at) && forall v: nat :: Lookup(mem, at, root, v).None?
    ensures NoLeafBelow(mem, at, Node(root, 2, 0))
  {
    assert Open(0);
    forall d, idx | d in at && d.level == 0 && Sub(Node(root, 2, 0), d) && at[d] in mem && |mem[at[d]]| == ENTRIES
      && 0 <= idx < ENTRIES
      ensures !mem[at[d]][idx].flags.v
    {
      SubOfRoot(mem, role, at, root, d);
      var v := d.prefix * ENTRIES + idx;
      assert OnPath(root, 0, v) == d && v % ENTRIES == idx;
      assert Lookup(mem, at, root, v).None?;
    }
  }

  lemma AllReleased(mem: Tables, freelist: seq<nat>, role: map<nat, Role>, at: map<Node, nat>, root: nat, n: nat,
                    mem1: Tables, freelist1: seq<nat>, role1: map<nat, Role>)
    requires Wf(mem, freelist, role, at) && role1 == DropRange(role, root, 0, n, Free)
    requires forall v: nat :: v >= n ==> Lookup(mem, at, root, v).None?
    requires Wf(mem1, freelist1, role1, at)
    ensures FreeTables(role1, Node(root, 2, 0)) == ReleaseAll(role, root)
    ensures forall d :: d in Prune(at, Node(root, 2, 0)) <==> d in at && d.root != root
  {
    Memory.LeavesMapped(mem, freelist, role, at);
    assert Open(0);
    forall d | d in at ensures Sub(Node(root, 2, 0), d) <==> d.root == root {
      SubOfRoot(mem, role, at, root, d);
    }
    forall p | p in role ensures FreeTables(role1, Node(root, 2, 0))[p] == ReleaseAll(role, root)[p] {
      if role[p].Table? { assert role[p].node in at; }
      if role[p].Leaf? && role[p].root == root { assert role[p].vpn < n; }
    }
  }

  /** uvmfree of an address space whose mappings are exactly the pages below sz: all its pages,
      leaves and tables, become free, nothing else changes, and no panic is reached. */
  method Uvmfree(m: Memory, root: nat, sz: nat)
    requires m.Valid() && m.IsRoot(root) && sz <= MAXVPN * PGSIZE
    requires forall v: nat {:trigger m.Map(root, v)} :: v * PGSIZE < sz ==>
             m.Map(root, v).Some? && m.Map(root, v).value.flags != ONLY_V && m.Map(root, v).value.ppn in m.role
    requires forall v: nat {:trigger m.Map(root, v)} :: v * PGSIZE >= sz ==> m.Map(root, v).None?
    modifies m
    ensures m.Valid() && m.role == ReleaseAll(old(m.role), root) && KeepsBytes(m.role, old(m.bytes), m.bytes)
    ensures forall d :: d in m.at <==> d in old(m.at) && d.root != root
    ensures forall r: nat, v: nat :: m.Map(r, v) == if r == root then None else old(m.Map(r, v))
  {
    ghost var mem0, at0, role0, bytes0, free0 := m.mem, m.at, m.role, m.bytes, m.freelist;
    UpIs(sz);
    forall v: nat | v >= Up(sz) ensures Lookup(mem0, at0, root, v).None? {
      assert v * PGSIZE >= sz;
      assert m.Map(root, v).None?;
    }
    assert DropRange(role0, root, 0, 0, Free) == role0;
    assert BytesOk(m.bytes, m.role) && m.role.Keys <= m.bytes.Keys by { assert Open(0); }
    if sz > 0 {
      m.Uvmunmap(root, 0, Up(sz), true);
    }
    FreeEmpty(m, root, Up(sz), mem0, free0, role0, at0, bytes0);
  }

  /** freewalk from the root of an address space that maps nothing any more. */
  method FreeEmpty(m: Memory, root: nat, ghost n: nat, ghost mem0: Tables, ghost free0: seq<nat>,
                   ghost role0: map<nat, Role>, ghost at0: map<Node, nat>, ghost bytes0: map<nat, seq<Byte>>)
    requires m.Unmapping(root, 0, n, Free, mem0, at0, role0, bytes0) && m.IsRoot(root) && Wf(mem0, free0, role0, at0)
    requires forall v: nat :: v >= n ==> Lookup(mem0, at0, root, v).None?
    modifies m
    ensures m.Valid() && m.role == ReleaseAll(role0, root) && KeepsBytes(m.role, bytes0, m.bytes)
    ensures forall d :: d in m.at <==> d in at0 && d.root != root
    ensures forall r: nat, v: nat :: m.Map(r, v) == if r == root then None else Lookup(mem0, at0, r, v)
  {
    forall v: nat ensures Lookup(m.mem, m.at, root, v).None? {}
    NothingMapped(m.mem, m.freelist, m.role, m.at, root);
    AllReleased(mem0, free0, role0, at0, root, n, m.mem, m.freelist, m.role);
    m.Freewalk(root, Node(root, 2, 0));
    assert Open(GONE);
  }

  // ---- copying an address space ----------------------------------------------------------

  /** uvmcopy: the child shows, page by page, the flags and bytes of the parent on pages of its
      own; on failure every address space is as it was and no leaf page has been kept. It fails
      exactly when a call of kalloc has found no page, and then all that is free afterwards are the
      pages it has given back. */
  method Uvmcopy(m: Memory, parent: nat, child: nat, sz: nat) returns (r: int, ghost list: seq<Page>)
    requires m.Valid() && m.IsRoot(parent) && m.IsRoot(child) && parent != child && sz <= MAXVPN * PGSIZE
    requires forall v: nat {:trigger m.Map(parent, v)} :: v * PGSIZE < sz ==>
             m.Map(parent, v).Some? && m.Map(parent, v).value.flags != ONLY_V && m.Map(parent, v).value.ppn in m.role
    requires forall v: nat {:trigger m.Map(child, v)} :: v * PGSIZE < sz ==> m.Map(child, v).None?
    modifies m
    ensures m.Valid() && (r == 0 || r == -1)
    ensures forall t: nat :: t < |list| ==> old(Shows(m.mem, m.at, m.role, m.bytes, parent, t, list[t]))
    ensures r == 0 ==> |list| == Up(sz) && m.Added(child, 0, list, old(m.mem), old(m.at), old(m.role), old(m.bytes))
    ensures r == 0 ==> Apart(m.mem, m.at, parent, child, Up(sz))
    ensures r == 0 ==> Copied(m.mem, m.at, m.bytes, child, old(m.mem), old(m.at), old(m.bytes), parent, sz)
    ensures r == 0 ==> forall q: nat, v: nat {:trigger m.Map(q, v)} ::
              !(q == child && v * PGSIZE < sz) ==> m.Map(q, v) == old(m.Map(q, v))
    ensures r == -1 ==> SameMaps(old(m.mem), old(m.at), m.mem, m.at)
                        && TookTables(old(m.role), m.role, old(m.bytes), m.bytes, child)
    ensures r == -1 ==> |m.freelist| <= Up(sz)
    ensures m.dry == old(m.dry) + if r == 0 then 0 else 1
  {
    ghost var mem0, at0, role0, bytes0 := m.mem, m.at, m.role, m.bytes;
    assert BytesOk(m.bytes, m.role) && m.role.Keys <= m.bytes.Keys by { assert Open(0); }
    Memory.LeavesMapped(m.mem, m.freelist, m.role, m.at);
    UpIs(sz);
    forall v: nat | v < Up(sz) ensures Lookup(mem0, at0, child, v).None? && LeafPage(mem0, at0, role0, parent, v) {
      assert v * PGSIZE < sz;
      assert m.Map(child, v).None? && m.Map(parent, v).Some?;
      MappedRole(m.mem, m.freelist, m.role, m.at, parent, v);
    }
    var i := 0;
    list := [];
    while i * PGSIZE < sz
      invariant i == |list| <= Up(sz) && m.dry == old(m.dry)
      invariant m.Added(child, 0, list, mem0, at0, role0, bytes0)
      invariant forall t: nat :: t < |list| ==>
                list[t].flags != ONLY_V && Shows(mem0, at0, role0, bytes0, parent, t, list[t])
    {
      assert i < Up(sz);
      assert m.IsRoot(parent);
      var ok;
      ok, list := CopyPage(m, parent, child, i, list, mem0, at0, role0, bytes0);
      if !ok {
        m.TakeBack(child, 0, i, 0, list, mem0, at0, role0, bytes0);
        return -1, list;
      }
      i := i + 1;
    }
    CopyApart(mem0, at0, role0, bytes0, m.mem, m.at, m.role, m.bytes, parent, child, list);
    CopyShows(mem0, at0, role0, bytes0, m.mem, m.at, m.role, m.bytes, parent, child, sz, list);
    r := 0;
  }

  /** Every byte of root below sz is there, with the bytes and the flags that parent had. */
  ghost predicate Copied(mem: Tables, at: map<Node, nat>, bytes: map<nat, seq<Byte>>, root: nat,
                         mem0: Tables, at0: map<Node, nat>, bytes0: map<nat, seq<Byte>>, parent: nat, sz: nat) {
    forall a: nat {:trigger Load(mem, at, bytes, root, a)} :: a < sz ==>
      && Load(mem, at, bytes, root, a).Some? && Load(mem, at, bytes, root, a) == Load(mem0, at0, bytes0, parent, a)
      && Lookup(mem, at, root, a / PGSIZE).Some? && Lookup(mem0, at0, parent, a / PGSIZE).Some?
      && Lookup(mem, at, root, a / PGSIZE).value.flags == Lookup(mem0, at0, parent, a / PGSIZE).value.flags
  }

  lemma CopyShows(mem0: Tables, at0: map<Node, nat>, role0: map<nat, Role>, bytes0: map<nat, seq<Byte>>,
                  mem: Tables, at: map<Node, nat>, role: map<nat, Role>, bytes: map<nat, seq<Byte>>,
                  parent: nat, child: nat, sz: nat, list: seq<Page>)
    requires |list| * PGSIZE >= sz && BytesOk(bytes0, role0)
    requires forall t: nat :: t < |list| ==> Shows(mem0, at0, role0, bytes0, parent, t, list[t])
    requires ShowsAll(mem, at, role, bytes, child, 0, list)
    ensures Copied(mem, at, bytes, child, mem0, at0, bytes0, parent, sz)
  {
    forall a: nat | a < sz
      ensures a / PGSIZE < |list| && Shows(mem, at, role, bytes, child, a / PGSIZE, list[a / PGSIZE])
      ensures Shows(mem0, at0, role0, bytes0, parent, a / PGSIZE, list[a / PGSIZE])
    {
      Memory.ShownAt(mem, at, role, bytes, child, 0, list, a / PGSIZE);
    }
  }

  /** No physical page is mapped by both below page n. */
  ghost predicate Apart(mem: Tables, at: map<Node, nat>, parent: nat, child: nat, n: nat) {
    forall t: nat, u: nat :: t < n && u < n && Lookup(mem, at, child, t).Some? && Lookup(mem, at, parent, u).Some? ==>
      Lookup(mem, at, child, t).value.ppn != Lookup(mem, at, parent, u).value.ppn
  }

  lemma CopyApart(mem0: Tables, at0: map<Node, nat>, role0: map<nat, Role>, bytes0: map<nat, seq<Byte>>,
                  mem: Tables, at: map<Node, nat>, role: map<nat, Role>, bytes: map<nat, seq<Byte>>, parent: nat,
                  child: nat, list: seq<Page>)
    requires parent != child && TookPages(role0, role, bytes0, bytes, child, 0, |list|)
    requires forall t: nat :: t < |list| ==> Shows(mem0, at0, role0, bytes0, parent, t, list[t])
    requires ShowsAll(mem, at, role, bytes, child, 0, list)
    requires forall v: nat :: Lookup(mem, at, parent, v) == Lookup(mem0, at0, parent, v)
    ensures Apart(mem, at, parent, child, |list|)
  {
    assert Open(ROLES) && Open(SHOWN);
    forall t: nat, u: nat | t < |list| && u < |list| && Lookup(mem, at, child, t).Some?
      && Lookup(mem, at, parent, u).Some?
      ensures Lookup(mem, at, child, t).value.ppn != Lookup(mem, at, parent, u).value.ppn
    {
      assert Shows(mem, at, role, bytes, child, 0 + t, list[t]) && Shows(mem0, at0, role0, bytes0, parent, u, list[u]);
    }
  }

  /** One turn of uvmcopy. */
  method CopyPage(m: Memory, parent: nat, child: nat, i: nat, ghost list: seq<Page>,
                  ghost mem0: Tables, ghost at0: map<Node, nat>, ghost role0: map<nat, Role>,
                  ghost bytes0: map<nat, seq<Byte>>)
    returns (ok: bool, ghost list': seq<Page>)
    requires m.Added(child, 0, list, mem0, at0, role0, bytes0) && m.IsRoot(parent) && parent != child
             && i == |list| < MAXVPN
    requires Lookup(mem0, at0, child, i).None? && LeafPage(mem0, at0, role0, parent, i) && BytesOk(bytes0, role0)
    modifies m
    ensures m.Added(child, 0, list', mem0, at0, role0, bytes0)
    ensures !ok ==> list' == list && |m.freelist| <= 1
    ensures m.dry == old(m.dry) + if ok then 0 else 1
    ensures ok ==> |list'| == i + 1 && list'[..i] == list && list'[i].flags != ONLY_V
                   && Shows(mem0, at0, role0, bytes0, parent, i, list'[i])
  {
    var t := m.Walk(parent, i, false);
    assert m.Map(parent, i) == Lookup(mem0, at0, parent, i);
    Memory.TableShape(m.mem, m.freelist, m.role, m.at, OnPath(parent, 0, i));
    var pte := m.mem[t.value][i % ENTRIES];
    assert pte.ppn in m.bytes && pte.ppn in bytes0 && m.bytes[pte.ppn] == bytes0[pte.ppn] by { assert Open(ROLES); }
    var data := m.bytes[pte.ppn];
    ok, list' := m.AddPage(child, i, pte.flags, data, 0, list, mem0, at0, role0, bytes0);
  }

  /** vpn is mapped to a leaf page, and its role says so. */
  ghost predicate LeafPage(mem: Tables, at: map<Node, nat>, role: map<nat, Role>, root: nat, vpn: nat) {
    var e := Lookup(mem, at, root, vpn);
    e.Some? && e.value.flags != ONLY_V && e.value.ppn in role && role[e.value.ppn] == Leaf(root, vpn)
  }

  lemma MappedRole(mem: Tables, freelist: seq<nat>, role: map<nat, Role>, at: map<Node, nat>, root: nat, vpn: nat)
    requires Wf(mem, freelist, role, at) && Lookup(mem, at, root, vpn).Some?
    ensures var p := Lookup(mem, at, root, vpn).value.ppn; p in role ==> role[p] == Leaf(root, vpn)
  {
    Memory.OneLeaf(mem, freelist, role, at, root, vpn, Held);
  }

  // ---- user bytes ------------------------------------------------------------------------

  /** Byte a of address space root. */
  ghost function Load(mem: Tables, at: map<Node, nat>, bytes: map<nat, seq<Byte>>, root: nat, a: nat): Option<Byte> {
    var e := Lookup(mem, at, root, a / PGSIZE);
    if e.Some? && e.value.ppn in bytes && |bytes[e.value.ppn]| == PGSIZE then Some(bytes[e.value.ppn][a % PGSIZE])
      else None
  }

  /** The kernel may copy from or to byte a of root on behalf of the user. */
  ghost predicate Access(mem: Tables, at: map<Node, nat>, root: nat, a: nat) {
    var e := Lookup(mem, at, root, a / PGSIZE);
    a / PGSIZE < MAXVPN && e.Some? && e.value.flags.u && e.value.ppn != 0
  }

  /** What user code can reach lies on managed pages (the trampoline is mapped without the flag). */
  ghost predicate UserPagesManaged(mem: Tables, at: map<Node, nat>, role: map<nat, Role>, root: nat) {
    forall v: nat ::
      var e := Lookup(mem, at, root, v);
      e.Some? && e.value.flags.u && e.value.ppn != 0 ==> e.value.ppn in role
  }

  /** dst are the bytes of root from a on, all of them accessible. */
  ghost predicate Fetched(mem: Tables, at: map<Node, nat>, bytes: map<nat, seq<Byte>>, root: nat, a: nat,
                          dst: seq<Byte>) {
    forall b: nat :: a <= b < a + |dst| ==>
      Access(mem, at, root, b) && Load(mem, at, bytes, root, b) == Some(dst[b - a])
  }

  /** src has been stored from byte a of root on, all of it accessible, and no other byte of any
      address space has changed. */
  ghost predicate Stored(mem: Tables, at: map<Node, nat>, bytes: map<nat, seq<Byte>>, bytes': map<nat, seq<Byte>>,
                         root: nat, a: nat, src: seq<Byte>) {
    && (forall b: nat :: a <= b < a + |src| ==> Access(mem, at, root, b))
    && (forall r: nat, b: nat ::
        Load(mem, at, bytes', r, b) == if r == root && a <= b < a + |src| then Some(src[b - a])
          else Load(mem, at, bytes, r, b))
  }

  /** What copyout has stored is what copyin fetches. */
  lemma CopyRoundTrip(mem: Tables, at: map<Node, nat>, bytes: map<nat, seq<Byte>>, bytes': map<nat, seq<Byte>>,
                      root: nat, a: nat, src: seq<Byte>, dst: seq<Byte>)
    requires Stored(mem, at, bytes, bytes', root, a, src) && Fetched(mem, at, bytes', root, a, dst)
    requires |dst| == |src| || (|dst| < |src| && !Access(mem, at, root, a + |dst|))
    ensures dst == src
  {
    forall i: nat | i < |dst| ensures dst[i] == src[i] {
      assert Load(mem, at, bytes', root, a + i) == Some(dst[i]);
    }
  }

  /** copyin: dst is all len bytes, or, with -1, everything before the first inaccessible one. */
  method Copyin(m: Memory, root: nat, srcva: nat, len: nat) returns (r: int, dst: seq<Byte>)
    requires m.Valid() && m.IsRoot(root) && UserPagesManaged(m.mem, m.at, m.role, root)
    modifies m
    ensures m.Valid() && m.mem == old(m.mem) && m.bytes == old(m.bytes) && m.freelist == old(m.freelist)
            && m.role == old(m.role) && m.at == old(m.at)
    ensures Fetched(m.mem, m.at, m.bytes, root, srcva, dst) && |dst| <= len
    ensures if r == 0 then |dst| == len else r == -1 && |dst| < len && !Access(m.mem, m.at, root, srcva + |dst|)
  {
    assert BytesOk(m.bytes, m.role) && m.role.Keys <= m.bytes.Keys by { assert Open(0); }
    var at_, left := srcva, len;
    dst := [];
    while left > 0
      invariant at_ == srcva + |dst| || left == 0
      invariant left >= 0 && |dst| + left == len
      invariant m.Valid() && m.mem == old(m.mem) && m.bytes == old(m.bytes) && m.freelist == old(m.freelist)
                && m.role == old(m.role) && m.at == old(m.at)
      invariant Fetched(m.mem, m.at, m.bytes, root, srcva, dst)
    {
      var v := at_ / PGSIZE;
      var p := m.Walkaddr(root, v);
      if p == 0 { return -1, dst; }
      var n := PGSIZE - (at_ - v * PGSIZE);
      if n > left { n := left; }
      var off := at_ - v * PGSIZE;
      dst := FetchMore(m, root, srcva, dst, p, off, n);
      left := left - n;
      at_ := v * PGSIZE + PGSIZE;
    }
    r := 0;
  }

  /** memmove out of one page. */
  method FetchMore(m: Memory, root: nat, ghost srcva: nat, dst: seq<Byte>, p: nat, off: nat, n: nat)
    returns (dst': seq<Byte>)
    requires Fetched(m.mem, m.at, m.bytes, root, srcva, dst) && Access(m.mem, m.at, root, srcva + |dst|)
    requires p == Lookup(m.mem, m.at, root, (srcva + |dst|) / PGSIZE).value.ppn && p in m.bytes
             && |m.bytes[p]| == PGSIZE
    requires off == (srcva + |dst|) % PGSIZE && off + n <= PGSIZE
    ensures dst' == dst + m.bytes[p][off..off + n] && Fetched(m.mem, m.at, m.bytes, root, srcva, dst')
  {
    dst' := dst + m.bytes[p][off..off + n];
    forall b: nat | srcva <= b < srcva + |dst'|
      ensures Access(m.mem, m.at, root, b) && Load(m.mem, m.at, m.bytes, root, b) == Some(dst'[b - srcva]) {
      if b >= srcva + |dst| {
        SamePage(srcva + |dst|, b - srcva - |dst|, n);
      }
    }
  }

  lemma SamePage(a: nat, k: nat, n: nat)
    requires a % PGSIZE + n <= PGSIZE && k < n
    ensures (a + k) / PGSIZE == a / PGSIZE && (a + k) % PGSIZE == a % PGSIZE + k
  {
  }

  /** The pages that are not leaves of root keep their bytes. */
  ghost predicate KeepsOthers(role: map<nat, Role>, root: nat, bytes: map<nat, seq<Byte>>,
                              bytes': map<nat, seq<Byte>>) {
    forall q :: q in role && !(role[q].Leaf? && role[q].root == root) ==>
      q in bytes && q in bytes' && bytes'[q] == bytes[q]
  }

  lemma StoredMore(mem: Tables, at: map<Node, nat>, b0: map<nat, seq<Byte>>, b1: map<nat, seq<Byte>>,
                   b2: map<nat, seq<Byte>>,
                   root: nat, a: nat, s1: seq<Byte>, s2: seq<Byte>)
    requires Stored(mem, at, b0, b1, root, a, s1) && Stored(mem, at, b1, b2, root, a + |s1|, s2)
    ensures Stored(mem, at, b0, b2, root, a, s1 + s2)
  {
  }

  /** memmove into one page. */
  method StoreMore(m: Memory, root: nat, a: nat, p: nat, chunk: seq<Byte>)
    requires m.Valid() && UserPagesManaged(m.mem, m.at, m.role, root) && Access(m.mem, m.at, root, a)
    requires p == Lookup(m.mem, m.at, root, a / PGSIZE).value.ppn && a % PGSIZE + |chunk| <= PGSIZE
    modifies m`bytes
    ensures m.Valid() && Stored(m.mem, m.at, old(m.bytes), m.bytes, root, a, chunk)
            && KeepsOthers(m.role, root, old(m.bytes), m.bytes)
  {
    assert p in m.role && BytesOk(m.bytes, m.role) && m.role.Keys <= m.bytes.Keys by { assert Open(0); }
    MappedRole(m.mem, m.freelist, m.role, m.at, root, a / PGSIZE);
    PatchStored(m.mem, m.freelist, m.role, m.at, m.bytes, root, a, p, chunk);
    m.bytes := m.bytes[p := Patch(m.bytes[p], a % PGSIZE, chunk)];
  }

  /** The same, seen from the start of copyout, which has stored done bytes of src so far. */
  method StoreNext(m: Memory, root: nat, a: nat, p: nat, chunk: seq<Byte>,
                   ghost bytes0: map<nat, seq<Byte>>, ghost dstva: nat, ghost src: seq<Byte>, ghost done: nat)
    requires m.Valid() && UserPagesManaged(m.mem, m.at, m.role, root) && Access(m.mem, m.at, root, a)
    requires p == Lookup(m.mem, m.at, root, a / PGSIZE).value.ppn && a % PGSIZE + |chunk| <= PGSIZE
    requires a == dstva + done && done + |chunk| <= |src| && chunk == src[done..done + |chunk|]
    requires Stored(m.mem, m.at, bytes0, m.bytes, root, dstva, src[..done])
             && KeepsOthers(m.role, root, bytes0, m.bytes)
    modifies m`bytes
    ensures m.Valid() && Stored(m.mem, m.at, bytes0, m.bytes, root, dstva, src[..done + |chunk|])
            && KeepsOthers(m.role, root, bytes0, m.bytes)
  {
    ghost var bytes1 := m.bytes;
    StoreMore(m, root, a, p, chunk);
    StoredMore(m.mem, m.at, bytes0, bytes1, m.bytes, root, dstva, src[..done], chunk);
    assert src[..done] + chunk == src[..done + |chunk|];
  }

  /** Since p is mapped nowhere else, only the bytes of this page of root change. */
  lemma PatchStored(mem: Tables, freelist: seq<nat>, role: map<nat, Role>, at: map<Node, nat>,
                    bytes: map<nat, seq<Byte>>,
                    root: nat, a: nat, p: nat, chunk: seq<Byte>)
    requires Wf(mem, freelist, role, at) && Access(mem, at, root, a) && p == Lookup(mem, at, root, a / PGSIZE).value.ppn
    requires p in role && p in bytes && |bytes[p]| == PGSIZE && a % PGSIZE + |chunk| <= PGSIZE
    ensures Stored(mem, at, bytes, bytes[p := Patch(bytes[p], a % PGSIZE, chunk)], root, a, chunk)
  {
    var bytes' := bytes[p := Patch(bytes[p], a % PGSIZE, chunk)];
    forall b: nat | a <= b < a + |chunk| ensures Access(mem, at, root, b) {
      SamePage(a, b - a, |chunk|);
    }
    forall r: nat, b: nat
      ensures Load(mem, at, bytes', r, b) == if r == root && a <= b < a + |chunk| then Some(chunk[b - a])
              else Load(mem, at, bytes, r, b) {
      var e := Lookup(mem, at, r, b / PGSIZE);
      if e.Some? && e.value.ppn == p {
        MappedRole(mem, freelist, role, at, r, b / PGSIZE);
        MappedRole(mem, freelist, role, at, root, a / PGSIZE);
        assert r == root && b / PGSIZE == a / PGSIZE;
      } else if r == root && a <= b < a + |chunk| {
        SamePage(a, b - a, |chunk|);
      }
    }
  }

  /** copyout: src, or with -1 the part of it before the first inaccessible byte, is stored, and
      no other byte of any address space changes. */
  method Copyout(m: Memory, root: nat, dstva: nat, src: seq<Byte>) returns (r: int, ghost done: nat)
    requires m.Valid() && m.IsRoot(root) && UserPagesManaged(m.mem, m.at, m.role, root)
    modifies m
    ensures m.Valid() && m.mem == old(m.mem) && m.freelist == old(m.freelist) && m.role == old(m.role)
            && m.at == old(m.at)
    ensures done <= |src| && Stored(m.mem, m.at, old(m.bytes), m.bytes, root, dstva, src[..done])
            && KeepsOthers(m.role, root, old(m.bytes), m.bytes)
    ensures if r == 0 then done == |src| else r == -1 && done < |src| && !Access(m.mem, m.at, root, dstva + done)
  {
    assert m.role.Keys <= m.bytes.Keys by { assert Open(0); }
    var at_, left := dstva, src;
    done := 0;
    while |left| > 0
      invariant done <= |src| && left == src[done..] && (at_ == dstva + done || left == [])
      invariant m.Valid() && m.mem == old(m.mem) && m.freelist == old(m.freelist) && m.role == old(m.role)
                && m.at == old(m.at)
      invariant Stored(m.mem, m.at, old(m.bytes), m.bytes, root, dstva, src[..done])
                && KeepsOthers(m.role, root, old(m.bytes), m.bytes)
      decreases |left|
    {
      var v := at_ / PGSIZE;
      var p := m.Walkaddr(root, v);
      if p == 0 { return -1, done; }
      var n := PGSIZE - (at_ - v * PGSIZE);
      if n > |left| { n := |left|; }
      StoreNext(m, root, at_, p, left[..n], old(m.bytes), dstva, src, done);
      left := left[n..];
      at_ := v * PGSIZE + PGSIZE;
      done := done + n;
    }
    r := 0;
  }

  /** copyinstr: the bytes up to and including the first zero, if it comes within max accessible
      bytes; otherwise -1, with max bytes or everything before the first inaccessible one. */
  method Copyinstr(m: Memory, root: nat, srcva: nat, max: nat) returns (r: int, dst: seq<Byte>)
    requires m.Valid() && m.IsRoot(root) && UserPagesManaged(m.mem, m.at, m.role, root)
    modifies m
    ensures m.Valid() && m.mem == old(m.mem) && m.bytes == old(m.bytes) && m.freelist == old(m.freelist)
            && m.role == old(m.role) && m.at == old(m.at)
    ensures Fetched(m.mem, m.at, m.bytes, root, srcva, dst) && |dst| <= max
    ensures if r == 0 then |dst| > 0 && dst[|dst| - 1] == 0 && 0 !in dst[..|dst| - 1]
            else r == -1 && 0 !in dst && (|dst| == max || !Access(m.mem, m.at, root, srcva + |dst|))
  {
    assert BytesOk(m.bytes, m.role) && m.role.Keys <= m.bytes.Keys by { assert Open(0); }
    var at_, left, gotNull := srcva, max, false;
    dst := [];
    while !gotNull && left > 0
      invariant left >= 0 && (gotNull || left == 0 || at_ == srcva + |dst|)
      invariant if gotNull then |dst| + left == max + 1 && |dst| > 0 && left > 0 && dst[|dst| - 1] == 0
                && 0 !in dst[..|dst| - 1]
                else |dst| + left == max && 0 !in dst
      invariant m.Valid() && m.mem == old(m.mem) && m.bytes == old(m.bytes) && m.freelist == old(m.freelist)
                && m.role == old(m.role) && m.at == old(m.at)
      invariant Fetched(m.mem, m.at, m.bytes, root, srcva, dst)
      decreases !gotNull, left
    {
      var v := at_ / PGSIZE;
      var p := m.Walkaddr(root, v);
      if p == 0 { return -1, dst; }
      var n := PGSIZE - (at_ - v * PGSIZE);
      if n > left { n := left; }
      var chunk, found := UntilNull(m.bytes[p], at_ - v * PGSIZE, n);
      dst := FetchMore(m, root, srcva, dst, p, at_ - v * PGSIZE, |chunk|);
      gotNull := found;
      left := if found then left - |chunk| + 1 else left - |chunk|;
      at_ := v * PGSIZE + PGSIZE;
    }
    r := if gotNull then 0 else -1;
  }

  /** The inner loop of copyinstr: up to n bytes of one page, stopping after a zero. */
  method UntilNull(page: seq<Byte>, off: nat, n: nat) returns (chunk: seq<Byte>, found: bool)
    requires off + n <= |page|
    ensures |chunk| <= n && chunk == page[off..off + |chunk|]
    ensures if found then |chunk| > 0 && chunk[|chunk| - 1] == 0 && 0 !in chunk[..|chunk| - 1]
            else |chunk| == n && 0 !in chunk
  {
    chunk, found := [], false;
    while |chunk| < n
      invariant |chunk| <= n && chunk == page[off..off + |chunk|] && 0 !in chunk
    {
      chunk := chunk + [page[off + |chunk|]];
      if chunk[|chunk| - 1] == 0 {
        return chunk, true;
      }
    }
  }
}
