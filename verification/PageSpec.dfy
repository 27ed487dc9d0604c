/** Sv39 page tables (RISC-V Privileged Architecture v1.12, section 4.4) in physical pages, and who
    uses which page: a three-level tree per address space, seen as a map from virtual page to entry. */
module PageSpec {
  import opened Blocks
  import opened Common

  const PGSIZE := 4096
  const ENTRIES := 512
  const MAXVPN := 0x400_0000     // MAXVA / PGSIZE

  // ---- page-table entries ----------------------------------------------------------------

  type FiveBits = x: nat | x < 32

  /** PTE_V, PTE_R, PTE_W, PTE_X, PTE_U, and the five flag bits above them. */
  datatype Flags = Flags(v: bool, r: bool, w: bool, x: bool, u: bool, rest: FiveBits)
  datatype Pte = Pte(ppn: nat, flags: Flags)

  const ONLY_V := Flags(true, false, false, false, false, 0)
  const NO_PTE := Pte(0, Flags(false, false, false, false, false, 0))
  const ZeroTable: seq<Pte> := seq(ENTRIES, i => NO_PTE)

  function Bit(b: bool): nat { if b then 1 else 0 }

  /** The entry as the 64-bit word in memory: flag bits 0 to 9, page number from bit 10 on. */
  function Encode(e: Pte): nat {
    var f := e.flags;
    Bit(f.v) + 2 * (Bit(f.r) + 2 * (Bit(f.w) + 2 * (Bit(f.x) + 2 * (Bit(f.u) + 2 * (f.rest + 32 * e.ppn)))))
  }

  function Decode(w: nat): Pte {
    var a := w / 2;
    var b := a / 2;
    var c := b / 2;
    var d := c / 2;
    var t := d / 2;
    Pte(t / 32, Flags(w % 2 == 1, a % 2 == 1, b % 2 == 1, c % 2 == 1, d % 2 == 1, t % 32))
  }

  lemma Halve(b: bool, n: nat)
    ensures (Bit(b) + 2 * n) / 2 == n && ((Bit(b) + 2 * n) % 2 == 1 <==> b)
  {
  }

  /** PA2PTE with flags, read back by PTE2PA and PTE_FLAGS: nothing is lost. */
  lemma PteRoundTrip(e: Pte)
    ensures Decode(Encode(e)) == e && Encode(NO_PTE) == 0
  {
    var f := e.flags;
    var t := f.rest + 32 * e.ppn;
    var d := Bit(f.u) + 2 * t;
    var c := Bit(f.x) + 2 * d;
    var b := Bit(f.w) + 2 * c;
    var a := Bit(f.r) + 2 * b;
    Halve(f.v, a);
    Halve(f.r, b);
    Halve(f.w, c);
    Halve(f.x, d);
    Halve(f.u, t);
    Quotients(e, Encode(e), a, b, c, d, t);
  }

  lemma Quotients(e: Pte, w: nat, a: nat, b: nat, c: nat, d: nat, t: nat)
    requires w / 2 == a && a / 2 == b && b / 2 == c && c / 2 == d && d / 2 == t && t / 32 == e.ppn
             && t % 32 == e.flags.rest
    requires (w % 2 == 1) == e.flags.v && (a % 2 == 1) == e.flags.r && (b % 2 == 1) == e.flags.w
    requires (c % 2 == 1) == e.flags.x && (d % 2 == 1) == e.flags.u
    ensures Decode(w) == e
  {
  }

  /** And the other way round: every word is the encoding of an entry. */
  lemma WordRoundTrip(w: nat)
    ensures Encode(Decode(w)) == w
  {
    var a := w / 2;
    var b := a / 2;
    var c := b / 2;
    var d := c / 2;
    var t := d / 2;
    assert Bit(w % 2 == 1) + 2 * a == w && Bit(a % 2 == 1) + 2 * b == a && Bit(b % 2 == 1) + 2 * c == b;
    assert Bit(c % 2 == 1) + 2 * d == c && Bit(d % 2 == 1) + 2 * t == d && t % 32 + 32 * (t / 32) == t;
  }

  /** The bits of the word: PTE_V, R, W, X and U are bits 0 to 4, ten flag bits (PTE_FLAGS), and the
      physical page number above them (PTE2PA). */
  lemma PteBits(e: Pte)
    ensures var w, f := Encode(e), e.flags;
            && (w % 2 == 1 <==> f.v) && (w / 2 % 2 == 1 <==> f.r) && (w / 4 % 2 == 1 <==> f.w)
            && (w / 8 % 2 == 1 <==> f.x) && (w / 16 % 2 == 1 <==> f.u) && w / 32 % 32 == f.rest
            && w / 1024 == e.ppn
  {
    var w := Encode(e);
    PteRoundTrip(e);
    assert w / 2 / 2 == w / 4 && w / 4 / 2 == w / 8 && w / 8 / 2 == w / 16 && w / 16 / 2 == w / 32;
    assert w / 32 / 32 == w / 1024;
  }

  /** A table as the 64-bit words in memory. */
  function TableWords(t: seq<Pte>): (w: seq<nat>)
    ensures |w| == |t| && forall i :: 0 <= i < |t| ==> w[i] == Encode(t[i])
  {
    if t == [] then [] else TableWords(t[..|t| - 1]) + [Encode(t[|t| - 1])]
  }

  // ---- the tree --------------------------------------------------------------------------

  /** A table page: which address space (named by its root page), level 2 to 0, and the high part
      of the virtual page numbers that it translates. */
  datatype Node = Node(root: nat, level: nat, prefix: nat) {
    function Child(idx: nat): Node
      requires level > 0
    {
      Node(root, level - 1, prefix * ENTRIES + idx)
    }
    function Parent(): Node { Node(root, level + 1, prefix / ENTRIES) }
    function Slot(): nat { prefix % ENTRIES }
  }

  /** PX(level, va). */
  function Px(level: nat, vpn: nat): (i: nat)
    ensures i < ENTRIES
  {
    if level == 0 then vpn % ENTRIES else if level == 1 then vpn / ENTRIES % ENTRIES
      else vpn / (ENTRIES * ENTRIES) % ENTRIES
  }

  /** The three indices are the digits of the virtual page number to base 512, level 2 first. */
  lemma PxDigits(vpn: nat)
    requires vpn < MAXVPN
    ensures vpn == 262144 * Px(2, vpn) + 512 * Px(1, vpn) + Px(0, vpn)
    ensures Px(2, vpn) < 256 && Px(1, vpn) < 512 && Px(0, vpn) < 512
  {
    var hi := vpn / 512;
    assert vpn / 262144 == hi / 512;
  }

  /** The table of each level on the way to vpn. */
  function OnPath(root: nat, level: nat, vpn: nat): Node {
    Node(root, level, if level == 0 then vpn / ENTRIES else if level == 1 then vpn / (ENTRIES * ENTRIES) else 0)
  }

  lemma PathStep(root: nat, level: nat, vpn: nat)
    requires 1 <= level <= 2 && vpn < MAXVPN
    ensures OnPath(root, level, vpn).Child(Px(level, vpn)) == OnPath(root, level - 1, vpn)
    ensures OnPath(root, level - 1, vpn).Parent() == OnPath(root, level, vpn)
    ensures OnPath(root, level - 1, vpn).Slot() == Px(level, vpn)
  {
  }

  /** What a physical page is used for. */
  datatype Role = Free | Held | Table(node: Node) | Leaf(root: nat, vpn: nat)

  type Tables = map<nat, seq<Pte>>

  /** The tables of all address spaces: at finds them, role agrees, and the entries of each point
      exactly to its children or, on level 0, to leaf pages of the right address. */
  ghost predicate Trees(mem: Tables, role: map<nat, Role>, at: map<Node, nat>) {
    TablesOk(mem, role, at) && RolesOk(role, at) && EntriesOk(mem, role, at) && ParentsOk(mem, at)
      && LeavesOk(mem, role, at)
  }

  ghost predicate TablesOk(mem: Tables, role: map<nat, Role>, at: map<Node, nat>) {
    forall nd {:trigger at[nd]} {:trigger nd in at} :: nd in at ==> TableAt(mem, role, at, nd)
  }

  ghost predicate RolesOk(role: map<nat, Role>, at: map<Node, nat>) {
    forall p {:trigger role[p].node} :: p in role && role[p].Table? ==> role[p].node in at && at[role[p].node] == p
  }

  ghost predicate EntriesOk(mem: Tables, role: map<nat, Role>, at: map<Node, nat>)
    requires TablesOk(mem, role, at)
  {
    forall nd, idx {:trigger mem[at[nd]][idx]} :: nd in at && 0 <= idx < ENTRIES && mem[at[nd]][idx].flags.v ==>
      EntryOk(mem[at[nd]][idx], role, at, nd, idx)
  }

  ghost predicate ParentsOk(mem: Tables, at: map<Node, nat>) {
    forall nd {:trigger nd.Parent()} :: nd in at && nd.level < 2 ==>
      && nd.Parent() in at && at[nd.Parent()] in mem && |mem[at[nd.Parent()]]| == ENTRIES
      && mem[at[nd.Parent()]][nd.Slot()].flags.v
  }

  ghost predicate LeavesOk(mem: Tables, role: map<nat, Role>, at: map<Node, nat>) {
    forall p {:trigger role[p].vpn} :: p in role && role[p].Leaf? ==> Mapped(mem, at, role[p].root, role[p].vpn, p)
  }

  ghost predicate TableAt(mem: Tables, role: map<nat, Role>, at: map<Node, nat>, nd: Node)
    requires nd in at
  {
    && nd.level <= 2 && (nd.level == 2 ==> nd.prefix == 0 && at[nd] == nd.root)
    && at[nd] in role && role[at[nd]] == Table(nd)
    && at[nd] in mem && |mem[at[nd]]| == ENTRIES
  }

  /** What a valid entry of table nd means. */
  ghost predicate EntryOk(e: Pte, role: map<nat, Role>, at: map<Node, nat>, nd: Node, idx: nat) {
    if nd.level > 0 then nd.Child(idx) in at && e == Pte(at[nd.Child(idx)], ONLY_V)
    else e.ppn in role ==> role[e.ppn] == Leaf(nd.root, nd.prefix * ENTRIES + idx)
  }

  ghost predicate Mapped(mem: Tables, at: map<Node, nat>, root: nat, vpn: nat, p: nat) {
    var nd := OnPath(root, 0, vpn);
    nd in at && at[nd] in mem && |mem[at[nd]]| == ENTRIES && mem[at[nd]][vpn % ENTRIES].flags.v
      && mem[at[nd]][vpn % ENTRIES].ppn == p
  }

  /** The free list holds exactly the free pages, once each. Page 0 is the null pointer. */
  ghost predicate FreeOk(freelist: seq<nat>, role: map<nat, Role>) {
    && (forall i, j :: 0 <= i < j < |freelist| ==> freelist[i] != freelist[j])
    && (forall p :: p in freelist <==> p in role && role[p].Free?)
    && 0 !in role
  }

  /** Every managed page has one role; free list, tables and leaf entries agree with it. */
  ghost predicate Wf(mem: Tables, freelist: seq<nat>, role: map<nat, Role>, at: map<Node, nat>) {
    forall n {:trigger Open(n)} :: Open(n) && n == 0 ==> Trees(mem, role, at) && FreeOk(freelist, role)
  }

  // ---- the map that a tree stands for ----------------------------------------------------

  ghost function Lookup(mem: Tables, at: map<Node, nat>, root: nat, vpn: nat): Option<Pte> {
    var nd := OnPath(root, 0, vpn);
    if nd in at && at[nd] in mem && |mem[at[nd]]| == ENTRIES && mem[at[nd]][vpn % ENTRIES].flags.v
    then Some(mem[at[nd]][vpn % ENTRIES]) else None
  }

  /** No address space has changed. */
  ghost predicate SameMaps(mem: Tables, at: map<Node, nat>, mem': Tables, at': map<Node, nat>) {
    forall r, v :: Lookup(mem', at', r, v) == Lookup(mem, at, r, v)
  }

  // ---- primitive changes -----------------------------------------------------------------

  /** kalloc: the head of the free list becomes the caller's. */
  lemma Alloc(mem: Tables, freelist: seq<nat>, role: map<nat, Role>, at: map<Node, nat>, words: seq<Pte>)
    requires Wf(mem, freelist, role, at) && freelist != []
    ensures freelist[0] in role && role[freelist[0]] == Free && freelist[0] != 0
    ensures Wf(mem[freelist[0] := words], freelist[1..], role[freelist[0] := Held], at)
    ensures SameMaps(mem, at, mem[freelist[0] := words], at)
  {
    assert Open(0);
    var p := freelist[0];
    assert p in freelist;
    var role' := role[p := Held];
    forall q ensures q in freelist[1..] <==> q in role' && role'[q].Free? {
      assert q in freelist <==> q == p || q in freelist[1..];
    }
    assert forall nd :: nd in at ==> at[nd] != p;
  }

  /** kfree of a page that the caller holds. */
  lemma Release(mem: Tables, freelist: seq<nat>, role: map<nat, Role>, at: map<Node, nat>, p: nat, words: seq<Pte>)
    requires Wf(mem, freelist, role, at) && p in role && role[p] == Held
    ensures Wf(mem[p := words], [p] + freelist, role[p := Free], at)
    ensures SameMaps(mem, at, mem[p := words], at)
  {
    assert Open(0);
    assert forall nd :: nd in at ==> at[nd] != p;
    assert p !in freelist;
  }

  /** walk links a zeroed page below table nd. */
  lemma Link(mem: Tables, freelist: seq<nat>, role: map<nat, Role>, at: map<Node, nat>, nd: Node, idx: nat, p: nat)
    requires Wf(mem, freelist, role, at) && nd in at && nd.level > 0 && idx < ENTRIES
    requires p in role && role[p] == Held && p in mem && mem[p] == ZeroTable
    requires at[nd] in mem && |mem[at[nd]]| == ENTRIES && !mem[at[nd]][idx].flags.v
    ensures var mem' := mem[at[nd] := mem[at[nd]][idx := Pte(p, ONLY_V)]];
            && Wf(mem', freelist, role[p := Table(nd.Child(idx))], at[nd.Child(idx) := p])
            && SameMaps(mem, at, mem', at[nd.Child(idx) := p])
  {
    assert Open(0);
    var c := nd.Child(idx);
    assert c.Parent() == nd && c.Slot() == idx;
    var mem', role', at' := mem[at[nd] := mem[at[nd]][idx := Pte(p, ONLY_V)]], role[p := Table(c)], at[c := p];
    assert c !in at;
    assert forall d :: d in at ==> at[d] != p;
    assert forall d :: d in at && d != nd ==> at[d] != at[nd];
    LinkTrees(mem, role, at, nd, idx, p);
    assert FreeOk(freelist, role');
    forall r, v ensures Lookup(mem', at', r, v) == Lookup(mem, at, r, v) {}
  }

  lemma LinkTrees(mem: Tables, role: map<nat, Role>, at: map<Node, nat>, nd: Node, idx: nat, p: nat)
    requires Trees(mem, role, at) && nd in at && nd.level > 0 && idx < ENTRIES
    requires p in role && role[p] == Held && p in mem && mem[p] == ZeroTable
    requires !mem[at[nd]][idx].flags.v && nd.Child(idx) !in at
    requires nd.Child(idx).Parent() == nd && nd.Child(idx).Slot() == idx
    ensures Trees(mem[at[nd] := mem[at[nd]][idx := Pte(p, ONLY_V)]], role[p := Table(nd.Child(idx))],
                  at[nd.Child(idx) := p])
  {
    var c := nd.Child(idx);
    var mem', role', at' := mem[at[nd] := mem[at[nd]][idx := Pte(p, ONLY_V)]], role[p := Table(c)], at[c := p];
    assert forall d :: d in at ==> at[d] != p;
    assert forall d :: d in at && d != nd ==> at[d] != at[nd];
  }

  /** Only the entry of (root, vpn) has changed, to o. */
  ghost predicate ChangedAt(mem: Tables, at: map<Node, nat>, mem': Tables, at': map<Node, nat>, root: nat, vpn: nat,
                            o: Option<Pte>) {
    forall r, v :: Lookup(mem', at', r, v) == if r == root && v == vpn then o else Lookup(mem, at, r, v)
  }

  function Claim(role: map<nat, Role>, p: nat, as_: Role): map<nat, Role> {
    if p in role then role[p := as_] else role
  }

  lemma VpnParts(v: nat, w: nat)
    ensures v == w <==> v / ENTRIES == w / ENTRIES && v % ENTRIES == w % ENTRIES
    ensures v / ENTRIES * ENTRIES + v % ENTRIES == v
  {
  }

  /** mappages writes a leaf entry for a page that the caller holds, or that nobody manages. */
  lemma SetLeaf(mem: Tables, freelist: seq<nat>, role: map<nat, Role>, at: map<Node, nat>, root: nat, vpn: nat, e: Pte)
    requires Wf(mem, freelist, role, at) && OnPath(root, 0, vpn) in at
    requires e.flags.v && (e.ppn in role ==> role[e.ppn] == Held)
    requires Lookup(mem, at, root, vpn).None?
    ensures var p := at[OnPath(root, 0, vpn)];
            && p in mem && |mem[p]| == ENTRIES
            && var mem' := mem[p := mem[p][vpn % ENTRIES := e]];
            && Wf(mem', freelist, Claim(role, e.ppn, Leaf(root, vpn)), at)
            && ChangedAt(mem, at, mem', at, root, vpn, Some(e))
  {
    assert Open(0);
    var nd := OnPath(root, 0, vpn);
    var p := at[nd];
    var mem', role' := mem[p := mem[p][vpn % ENTRIES := e]], Claim(role, e.ppn, Leaf(root, vpn));
    assert forall d :: d in at && d != nd ==> at[d] != p;
    VpnParts(vpn, vpn);
    assert Mapped(mem', at, root, vpn, e.ppn);
    forall q | q in role' && role'[q].Leaf? ensures Mapped(mem', at, role'[q].root, role'[q].vpn, q) {
      if q != e.ppn { VpnParts(role[q].vpn, vpn); }
    }
    assert Trees(mem', role', at);
    forall r, v ensures Lookup(mem', at, r, v) == if r == root && v == vpn then Some(e) else Lookup(mem, at, r, v) {
      VpnParts(v, vpn);
    }
  }

  /** uvmunmap clears a leaf entry; a managed page goes back to the caller. */
  lemma ClearLeaf(mem: Tables, freelist: seq<nat>, role: map<nat, Role>, at: map<Node, nat>, root: nat, vpn: nat)
    requires Wf(mem, freelist, role, at) && Lookup(mem, at, root, vpn).Some?
    ensures var p := at[OnPath(root, 0, vpn)];
            var ppn := Lookup(mem, at, root, vpn).value.ppn;
            var mem' := mem[p := mem[p][vpn % ENTRIES := NO_PTE]];
            && (ppn in role ==> role[ppn] == Leaf(root, vpn))
            && Wf(mem', freelist, Claim(role, ppn, Held), at)
            && ChangedAt(mem, at, mem', at, root, vpn, None)
  {
    assert Open(0);
    var nd := OnPath(root, 0, vpn);
    var p := at[nd];
    var ppn := mem[p][vpn % ENTRIES].ppn;
    VpnParts(vpn, vpn);
    var mem', role' := mem[p := mem[p][vpn % ENTRIES := NO_PTE]], Claim(role, ppn, Held);
    assert forall d :: d in at && d != nd ==> at[d] != p;
    forall q | q in role' && role'[q].Leaf? ensures Mapped(mem', at, role'[q].root, role'[q].vpn, q) {
      VpnParts(role[q].vpn, vpn);
    }
    assert Trees(mem', role', at);
    ClearedAt(mem, freelist, role, at, root, vpn);
  }

  lemma ClearedAt(mem: Tables, freelist: seq<nat>, role: map<nat, Role>, at: map<Node, nat>, root: nat, vpn: nat)
    requires Wf(mem, freelist, role, at) && Lookup(mem, at, root, vpn).Some?
    ensures var p := at[OnPath(root, 0, vpn)];
            ChangedAt(mem, at, mem[p := mem[p][vpn % ENTRIES := NO_PTE]], at, root, vpn, None)
  {
    assert Open(0);
    var p := at[OnPath(root, 0, vpn)];
    var mem' := mem[p := mem[p][vpn % ENTRIES := NO_PTE]];
    forall r, v ensures Lookup(mem', at, r, v) == if r == root && v == vpn then None else Lookup(mem, at, r, v) {
      VpnParts(v, vpn);
    }
  }

  // ---- whole address spaces --------------------------------------------------------------

  /** Every table hangs below the root of its address space. */
  lemma {:induction false} RootExists(mem: Tables, role: map<nat, Role>, at: map<Node, nat>, nd: Node)
    requires Trees(mem, role, at) && nd in at
    ensures Node(nd.root, 2, 0) in at && at[Node(nd.root, 2, 0)] == nd.root
    decreases 2 - nd.level
  {
    if nd.level < 2 {
      assert nd.Parent() in at;
      RootExists(mem, role, at, nd.Parent());
    }
  }

  /** uvmcreate: a zeroed page becomes the root of a new, empty address space. */
  lemma NewRoot(mem: Tables, freelist: seq<nat>, role: map<nat, Role>, at: map<Node, nat>, p: nat)
    requires Wf(mem, freelist, role, at) && p in role && role[p] == Held && p in mem && mem[p] == ZeroTable
    ensures Node(p, 2, 0) !in at
    ensures Wf(mem, freelist, role[p := Table(Node(p, 2, 0))], at[Node(p, 2, 0) := p])
    ensures SameMaps(mem, at, mem, at[Node(p, 2, 0) := p])
    ensures forall v :: Lookup(mem, at, p, v).None?
  {
    assert Open(0);
    var nd := Node(p, 2, 0);
    assert nd !in at;
    assert forall d :: d in at ==> at[d] != p;
    assert Trees(mem, role[p := Table(nd)], at[nd := p]);
    forall v ensures Lookup(mem, at, p, v).None? {
      if OnPath(p, 0, v) in at { RootExists(mem, role, at, OnPath(p, 0, v)); }
    }
  }

  /** d lies in the part of the tree that hangs below nd. */
  predicate Sub(nd: Node, d: Node)
    decreases nd.level - d.level
  {
    d == nd || (d.level < nd.level && Sub(nd, d.Parent()))
  }

  /** No table of the subtree of nd but nd itself is left once nd has no valid entry. */
  lemma {:induction false} NoDescendants(mem: Tables, role: map<nat, Role>, at: map<Node, nat>, nd: Node, d: Node)
    requires Trees(mem, role, at) && nd in at && d in at && Sub(nd, d)
    requires forall idx :: 0 <= idx < ENTRIES ==> !mem[at[nd]][idx].flags.v
    ensures d == nd
    decreases nd.level - d.level
  {
    if d != nd {
      assert d.Parent() in at && mem[at[d.Parent()]][d.Slot()].flags.v;
      NoDescendants(mem, role, at, nd, d.Parent());
    }
  }

  /** mem without the entry of the parent that points to nd. */
  function Cut(mem: Tables, at: map<Node, nat>, nd: Node): Tables
    requires nd.level < 2 ==> nd.Parent() in at && at[nd.Parent()] in mem && |mem[at[nd.Parent()]]| == ENTRIES
  {
    if nd.level < 2 then mem[at[nd.Parent()] := mem[at[nd.Parent()]][nd.Slot() := NO_PTE]] else mem
  }

  /** kfree of a table page without valid entries, its parent entry being cleared as well. */
  lemma Unlink(mem: Tables, freelist: seq<nat>, role: map<nat, Role>, at: map<Node, nat>, nd: Node, words: seq<Pte>)
    requires Wf(mem, freelist, role, at) && nd in at
    requires at[nd] in mem && |mem[at[nd]]| == ENTRIES && forall idx :: 0 <= idx < ENTRIES ==> !mem[at[nd]][idx].flags.v
    requires nd.level < 2 ==> nd.Parent() in at && at[nd.Parent()] in mem && |mem[at[nd.Parent()]]| == ENTRIES
    ensures at[nd] in role && role[at[nd]] == Table(nd)
    ensures var mem' := Cut(mem, at, nd)[at[nd] := words];
            && Wf(mem', [at[nd]] + freelist, role[at[nd] := Free], at - {nd})
            && SameMaps(mem, at, mem', at - {nd})
  {
    assert Open(0);
    var p := at[nd];
    assert forall d :: d in at && d != nd ==> at[d] != p;
    UnlinkTrees(mem, role, at, nd, words);
    assert p !in freelist;
    var mem', at' := Cut(mem, at, nd)[p := words], at - {nd};
    forall r, v ensures Lookup(mem', at', r, v) == Lookup(mem, at, r, v) {}
  }

  /** Entries of the other tables after the page of nd is gone. */
  lemma CutEntry(mem: Tables, role: map<nat, Role>, at: map<Node, nat>, nd: Node, words: seq<Pte>, d: Node, idx: nat)
    requires Trees(mem, role, at) && nd in at && (nd.level < 2 ==> nd.Parent() in at)
    requires d in at && d != nd && idx < ENTRIES
    ensures var mem' := Cut(mem, at, nd)[at[nd] := words];
            && at[d] != at[nd] && at[d] in mem' && |mem'[at[d]]| == ENTRIES
            && mem'[at[d]][idx] == if nd.level < 2 && d == nd.Parent() && idx == nd.Slot() then NO_PTE
               else mem[at[d]][idx]
  {
    assert at[d] in role && at[nd] in role;
    if nd.level < 2 { assert at[nd.Parent()] in role; }
  }

  lemma UnlinkUp(mem: Tables, role: map<nat, Role>, at: map<Node, nat>, nd: Node, words: seq<Pte>, d: Node)
    requires Trees(mem, role, at) && nd in at && (nd.level < 2 ==> nd.Parent() in at)
    requires forall idx :: 0 <= idx < ENTRIES ==> !mem[at[nd]][idx].flags.v
    requires d in at && d != nd && d.level < 2
    ensures var mem' := Cut(mem, at, nd)[at[nd] := words];
            d.Parent() in at - {nd} && at[d.Parent()] in mem' && |mem'[at[d.Parent()]]| == ENTRIES
              && mem'[at[d.Parent()]][d.Slot()].flags.v
  {
    assert mem[at[d.Parent()]][d.Slot()].flags.v;
    CutEntry(mem, role, at, nd, words, d.Parent(), d.Slot());
    assert nd.level < 2 && d.Parent() == nd.Parent() && d.Slot() == nd.Slot() ==> d.prefix == nd.prefix;
  }

  lemma UnlinkLeaf(mem: Tables, role: map<nat, Role>, at: map<Node, nat>, nd: Node, words: seq<Pte>, q: nat)
    requires Trees(mem, role, at) && nd in at && (nd.level < 2 ==> nd.Parent() in at)
    requires forall idx :: 0 <= idx < ENTRIES ==> !mem[at[nd]][idx].flags.v
    requires q in role && role[q].Leaf?
    ensures Mapped(Cut(mem, at, nd)[at[nd] := words], at - {nd}, role[q].root, role[q].vpn, q)
  {
    assert Mapped(mem, at, role[q].root, role[q].vpn, q);
    CutEntry(mem, role, at, nd, words, OnPath(role[q].root, 0, role[q].vpn), role[q].vpn % ENTRIES);
  }

  lemma UnlinkEntry(mem: Tables, role: map<nat, Role>, at: map<Node, nat>, nd: Node, words: seq<Pte>, d: Node, idx: nat)
    requires Trees(mem, role, at) && nd in at && (nd.level < 2 ==> nd.Parent() in at)
    requires d in at && d != nd && idx < ENTRIES
    ensures var mem': Tables := Cut(mem, at, nd)[at[nd] := words];
            && at[d] in mem' && |mem'[at[d]]| == ENTRIES
            && (mem'[at[d]][idx].flags.v ==> EntryOk(mem'[at[d]][idx], role[at[nd] := Free], at - {nd}, d, idx))
  {
    CutEntry(mem, role, at, nd, words, d, idx);
    assert d.level > 0 && d.Child(idx) == nd ==> d == nd.Parent() && idx == nd.Slot();
    var mem': Tables := Cut(mem, at, nd)[at[nd] := words];
    if mem'[at[d]][idx].flags.v {
      assert EntryOk(mem[at[d]][idx], role, at, d, idx);
    }
  }

  lemma UnlinkTables(mem: Tables, role: map<nat, Role>, at: map<Node, nat>, nd: Node, words: seq<Pte>)
    requires Trees(mem, role, at) && nd in at && (nd.level < 2 ==> nd.Parent() in at)
    ensures TablesOk(Cut(mem, at, nd)[at[nd] := words], role[at[nd] := Free], at - {nd})
    ensures RolesOk(role[at[nd] := Free], at - {nd})
  {
    var mem': Tables := Cut(mem, at, nd)[at[nd] := words];
    var role', at' := role[at[nd] := Free], at - {nd};
    forall d | d in at' ensures TableAt(mem', role', at', d) {
      CutEntry(mem, role, at, nd, words, d, 0);
    }
    forall p | p in role' && role'[p].Table? ensures role'[p].node in at' && at'[role'[p].node] == p {
      assert role[p].node in at && at[role[p].node] == p;
    }
  }

  lemma UnlinkEntries(mem: Tables, role: map<nat, Role>, at: map<Node, nat>, nd: Node, words: seq<Pte>)
    requires Trees(mem, role, at) && nd in at && (nd.level < 2 ==> nd.Parent() in at)
    requires TablesOk(Cut(mem, at, nd)[at[nd] := words], role[at[nd] := Free], at - {nd})
    ensures EntriesOk(Cut(mem, at, nd)[at[nd] := words], role[at[nd] := Free], at - {nd})
  {
    var mem': Tables := Cut(mem, at, nd)[at[nd] := words];
    var role', at' := role[at[nd] := Free], at - {nd};
    forall d, idx: nat | d in at' && idx < ENTRIES && mem'[at'[d]][idx].flags.v
      ensures EntryOk(mem'[at'[d]][idx], role', at', d, idx) {
      UnlinkEntry(mem, role, at, nd, words, d, idx);
    }
  }

  lemma UnlinkParents(mem: Tables, role: map<nat, Role>, at: map<Node, nat>, nd: Node, words: seq<Pte>)
    requires Trees(mem, role, at) && nd in at
    requires forall idx :: 0 <= idx < ENTRIES ==> !mem[at[nd]][idx].flags.v
    requires nd.level < 2 ==> nd.Parent() in at
    ensures ParentsOk(Cut(mem, at, nd)[at[nd] := words], at - {nd})
    ensures LeavesOk(Cut(mem, at, nd)[at[nd] := words], role[at[nd] := Free], at - {nd})
  {
    var mem': Tables := Cut(mem, at, nd)[at[nd] := words];
    var role', at' := role[at[nd] := Free], at - {nd};
    forall d | d in at' && d.level < 2
      ensures d.Parent() in at' && at'[d.Parent()] in mem' && |mem'[at'[d.Parent()]]| == ENTRIES
              && mem'[at'[d.Parent()]][d.Slot()].flags.v
    {
      UnlinkUp(mem, role, at, nd, words, d);
    }
    forall q | q in role' && role'[q].Leaf? ensures Mapped(mem', at', role'[q].root, role'[q].vpn, q) {
      UnlinkLeaf(mem, role, at, nd, words, q);
    }
  }

  lemma UnlinkTrees(mem: Tables, role: map<nat, Role>, at: map<Node, nat>, nd: Node, words: seq<Pte>)
    requires Trees(mem, role, at) && nd in at
    requires forall idx :: 0 <= idx < ENTRIES ==> !mem[at[nd]][idx].flags.v
    requires nd.level < 2 ==> nd.Parent() in at
    ensures Trees(Cut(mem, at, nd)[at[nd] := words], role[at[nd] := Free], at - {nd})
  {
    UnlinkTables(mem, role, at, nd, words);
    UnlinkEntries(mem, role, at, nd, words);
    UnlinkParents(mem, role, at, nd, words);
  }

  /** The caller's own page can be overwritten. */
  lemma Rewrite(mem: Tables, freelist: seq<nat>, role: map<nat, Role>, at: map<Node, nat>, p: nat, words: seq<Pte>)
    requires Wf(mem, freelist, role, at) && p in role && role[p] == Held
    ensures Wf(mem[p := words], freelist, role, at) && SameMaps(mem, at, mem[p := words], at)
  {
    assert Open(0);
    assert forall nd :: nd in at ==> at[nd] != p;
  }

  lemma {:induction false} SubOfChild(nd: Node, idx: nat, d: Node)
    requires 0 < nd.level && idx < ENTRIES && Sub(nd.Child(idx), d)
    ensures Sub(nd, d) && d != nd && d.level < nd.level
    decreases nd.level - d.level
  {
    var c := nd.Child(idx);
    assert c.Parent() == nd;
    if d == c {
      assert Sub(nd, d.Parent());
    } else {
      SubOfChild(nd, idx, d.Parent());
    }
  }

  /** The subtree of nd maps nothing. */
  ghost predicate NoLeafBelow(mem: Tables, at: map<Node, nat>, nd: Node) {
    forall d {:trigger at[d]} :: d in at && d.level == 0 && Sub(nd, d) && at[d] in mem && |mem[at[d]]| == ENTRIES ==>
      forall idx :: 0 <= idx < ENTRIES ==> !mem[at[d]][idx].flags.v
  }

  ghost function Prune(at: map<Node, nat>, nd: Node): map<Node, nat> {
    map d | d in at && !Sub(nd, d) :: at[d]
  }

  /** The pages of the tables of nd's subtree, freed. */
  ghost function FreeTables(role: map<nat, Role>, nd: Node): map<nat, Role> {
    map p | p in role :: if role[p].Table? && Sub(nd, role[p].node) then Free else role[p]
  }

  /** Part of the subtree below nd has been taken down: tables outside are untouched, pages of
      vanished tables are free, everything else is used as before. */
  ghost predicate TakingDown(mem0: Tables, role0: map<nat, Role>, at0: map<Node, nat>, mem: Tables,
                             role: map<nat, Role>, at: map<Node, nat>, nd: Node) {
    && nd in at0 && nd in at && at0[nd] in mem0 && at[nd] in mem
    && (forall d :: d in at0 ==> at0[d] in mem0)
    && (forall d :: d in at ==> d in at0 && at[d] == at0[d] && at[d] in mem)
    && (forall d :: d in at0 && (d == nd || !Sub(nd, d)) ==> d in at)
    && (forall d :: d in at && d != nd ==> mem[at[d]] == mem0[at[d]])
    && role.Keys == role0.Keys
    && (forall p :: p in role ==>
        role[p] == role0[p] || (role[p].Free? && role0[p].Table? && Sub(nd, role0[p].node) && role0[p].node !in at))
  }

  /** Once nd has no valid entry, its subtree holds no other table. */
  lemma LastOfSubtree(mem: Tables, freelist: seq<nat>, role: map<nat, Role>, at: map<Node, nat>, nd: Node)
    requires Wf(mem, freelist, role, at) && nd in at && at[nd] in mem
    requires |mem[at[nd]]| == ENTRIES && forall idx :: 0 <= idx < ENTRIES ==> !mem[at[nd]][idx].flags.v
    ensures forall d :: d in at && Sub(nd, d) ==> d == nd
  {
    assert Open(0);
    forall d | d in at && Sub(nd, d) ensures d == nd {
      NoDescendants(mem, role, at, nd, d);
    }
  }

  /** A table page is where its role says, and the other way round. */
  lemma TablePages(mem: Tables, freelist: seq<nat>, role: map<nat, Role>, at: map<Node, nat>)
    requires Wf(mem, freelist, role, at)
    ensures forall d :: d in at ==> at[d] in role && role[at[d]] == Table(d)
    ensures forall p :: p in role && role[p].Table? ==> role[p].node in at && at[role[p].node] == p
  {
    assert Open(0);
  }

  /** With nd gone as well, the subtree is gone exactly. */
  lemma TakenDown(mem0: Tables, freelist0: seq<nat>, role0: map<nat, Role>, at0: map<Node, nat>,
                  mem: Tables, freelist: seq<nat>, role: map<nat, Role>, at: map<Node, nat>, nd: Node)
    requires Wf(mem0, freelist0, role0, at0) && Wf(mem, freelist, role, at)
             && TakingDown(mem0, role0, at0, mem, role, at, nd)
    requires |mem[at[nd]]| == ENTRIES && forall idx :: 0 <= idx < ENTRIES ==> !mem[at[nd]][idx].flags.v
    ensures at[nd] in role && at - {nd} == Prune(at0, nd) && role[at[nd] := Free] == FreeTables(role0, nd)
  {
    LastOfSubtree(mem, freelist, role, at, nd);
    assert at - {nd} == Prune(at0, nd);
    TablePages(mem, freelist, role, at);
    TablePages(mem0, freelist0, role0, at0);
    var role' := role[at[nd] := Free];
    forall p | p in role' ensures role'[p] == FreeTables(role0, nd)[p] {
      if role0[p].Table? && Sub(nd, role0[p].node) && p != at[nd] && role[p] == role0[p] {
        assert role[p].node in at;
      }
    }
  }

  /** One more child taken down. */
  lemma DownOne(mem0: Tables, role0: map<nat, Role>, at0: map<Node, nat>, mem1: Tables, role1: map<nat, Role>,
                at1: map<Node, nat>,
                mem2: Tables, role2: map<nat, Role>, at2: map<Node, nat>, nd: Node, i: nat)
    requires TakingDown(mem0, role0, at0, mem1, role1, at1, nd) && 0 < nd.level && i < ENTRIES
    requires at2 == Prune(at1, nd.Child(i)) && role2 == FreeTables(role1, nd.Child(i))
    requires forall d :: d in at2 && d != nd ==> at2[d] in mem2 && mem2[at2[d]] == mem1[at2[d]]
    requires at1[nd] in mem2 && NoLeafBelow(mem1, at1, nd)
    ensures TakingDown(mem0, role0, at0, mem2, role2, at2, nd) && NoLeafBelow(mem2, at2, nd)
  {
    var c := nd.Child(i);
    forall d | Sub(c, d) ensures Sub(nd, d) && d != nd {
      SubOfChild(nd, i, d);
    }
    forall p | p in role2
      ensures role2[p] == role0[p]
              || (role2[p].Free? && role0[p].Table? && Sub(nd, role0[p].node) && role0[p].node !in at2) {}
  }
}
