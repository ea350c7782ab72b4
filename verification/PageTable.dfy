/**
 kernel/vm.c over kernel/kalloc.c: physical memory, its free list, and the
 operations on user page tables.  The ghost parameter of each operation is the
 space that the table at `root` stands for.
 */
module PageTable {
  import opened Common
  import opened PageSpec
  import opened Kalloc

  function Fill(b: Byte): (d: seq<Byte>)
    ensures |d| == PGSIZE && forall i :: 0 <= i < PGSIZE ==> d[i] == b
  {
    seq(PGSIZE, _ => b)
  }

  /** Physical memory and the pages handed out. */
  datatype Mem = Mem(ram: Ram, out: set<nat>)

  /** A page that is handed out but not the space's stays so, with its contents. */
  ghost predicate KeptAt(m: Mem, s: Space, m': Mem, s': Space, p: nat) {
    && (p in m.out && !s.Owns(p) <==> p in m'.out && !s'.Owns(p))
    && (p in m.out && !s.Owns(p) && p in m.ram ==> p in m'.ram && m'.ram[p] == m.ram[p])
  }

  /** The memory behind a virtual page stays, with its contents. */
  ghost predicate DataAt(m: Mem, s: Space, m': Mem, s': Space, v: nat) {
    User(v) in s.own && User(v) in s'.own ==>
      && s'.own[User(v)] == s.own[User(v)]
      && (s.own[User(v)] in m.ram ==> s.own[User(v)] in m'.ram && m'.ram[s.own[User(v)]] == m.ram[s.own[User(v)]])
  }

  /**
   Whatever a space gains or loses comes from or goes to the free list: no page
   is lost, none gets a second use, and only tables are written.
   */
  ghost predicate Conserves(m: Mem, s: Space, m': Mem, s': Space) {
    && (forall p :: KeptAt(m, s, m', s', p))
    && (forall v :: DataAt(m, s, m', s', v))
  }

  lemma ConservesTwice(m0: Mem, s0: Space, m1: Mem, s1: Space, m2: Mem, s2: Space)
    requires Conserves(m0, s0, m1, s1) && Conserves(m1, s1, m2, s2)
    requires forall v :: User(v) in s0.own && User(v) in s2.own ==> User(v) in s1.own
    ensures Conserves(m0, s0, m2, s2)
  {
    forall p ensures KeptAt(m0, s0, m2, s2, p) {
      assert KeptAt(m0, s0, m1, s1, p) && KeptAt(m1, s1, m2, s2, p);
    }
    forall v ensures DataAt(m0, s0, m2, s2, v) {
      assert DataAt(m0, s0, m1, s1, v) && DataAt(m1, s1, m2, s2, v);
    }
  }

  /** From m to m', only tables of the space and the page x were written. */
  ghost predicate WritesTables(m: Mem, s: Space, m': Mem, x: int) {
    forall q :: q in m.ram && q != x && !s.OwnsTable(q) ==> q in m'.ram && m'.ram[q] == m.ram[q]
  }

  lemma DataKept(m: Mem, s: Space, m': Mem, s': Space, x: int, v: nat)
    requires WritesTables(m, s, m', x) && forall a, b :: s.Apart(a, b)
    requires User(v) in s.own && User(v) in s'.own ==> s'.own[User(v)] == s.own[User(v)] != x
    ensures DataAt(m, s, m', s', v)
  {
    if User(v) in s.own && s.OwnsTable(s.own[User(v)]) {
      var l, x :| Node(l, x) in s.own && s.own[Node(l, x)] == s.own[User(v)];
      assert s.Apart(Node(l, x), User(v));
    }
  }

  /** A page taken into the space. */
  lemma GainConserves(m: Mem, s: Space, m': Mem, s': Space, a: Owner, p: nat)
    requires a !in s.own && s'.own == s.own[a := p] && p !in m.out && m'.out == m.out + {p}
    requires WritesTables(m, s, m', p) && (forall a, b :: s.Apart(a, b)) && !s.Owns(p)
    ensures Conserves(m, s, m', s')
  {
    forall q ensures KeptAt(m, s, m', s', q) {
      s.OwnsMore(a, p, s', q);
    }
    forall v ensures DataAt(m, s, m', s', v) {
      DataKept(m, s, m', s', p, v);
    }
  }

  /** A page given up by the space. */
  lemma LossConserves(m: Mem, s: Space, m': Mem, s': Space, a: Owner)
    requires a in s.own && s'.own == s.own - {a} && m'.out == m.out - {s.own[a]} && forall a, b :: s.Apart(a, b)
    requires WritesTables(m, s, m', s.own[a])
    ensures Conserves(m, s, m', s')
  {
    forall q ensures KeptAt(m, s, m', s', q) {
      s.OwnsLess(a, s', q);
    }
    forall v ensures DataAt(m, s, m', s', v) {
      assert s.Apart(a, User(v));
      DataKept(m, s, m', s', s.own[a], v);
    }
  }

  /** Writes to the space's tables only. */
  lemma WriteConserves(m: Mem, s: Space, m': Mem, s': Space)
    requires s'.own == s.own && m'.out == m.out && WritesTables(m, s, m', NIL) && forall a, b :: s.Apart(a, b)
    ensures Conserves(m, s, m', s')
  {
    forall q ensures KeptAt(m, s, m', s', q) {
      assert s.Owns(q) == s'.Owns(q);
    }
    forall v ensures DataAt(m, s, m', s', v) {
      DataKept(m, s, m', s', NIL, v);
    }
  }

  lemma AsideConserves(m: Mem, s: Space, m': Mem, s': Space, v: nat, p: nat)
    requires Conserves(m, s, m', s') && p in m.out && !s.Owns(p) && User(v) !in s.own && User(v) !in s'.own
    ensures Conserves(m, Aside(s, v, p), m', Aside(s', v, p))
  {
    var t, t' := Aside(s, v, p), Aside(s', v, p);
    forall q ensures KeptAt(m, t, m', t', q) {
      assert KeptAt(m, s, m', s', q);
      s.OwnsMore(User(v), p, t, q);
      s'.OwnsMore(User(v), p, t', q);
    }
    forall y ensures DataAt(m, t, m', t', y) {
      assert DataAt(m, s, m', s', y) && KeptAt(m, s, m', s', p);
    }
  }

  /** Only tables are added. */
  ghost predicate GrowsOwn(s: Space, s': Space) {
    && (forall a :: a in s.own ==> a in s'.own && s'.own[a] == s.own[a])
    && (forall a :: a in s'.own && a !in s.own ==> a.Node?)
  }

  ghost predicate Grows(s: Space, s': Space) {
    s'.leaf == s.leaf && GrowsOwn(s, s')
  }

  ghost predicate MapsAt(s: Space, s': Space, v: nat, k: nat, ppn: nat, perm: Pte, y: nat) {
    && (y in s'.leaf <==> y in s.leaf || v <= y < v + k)
    && (y in s.leaf ==> s'.leaf[y] == s.leaf[y])
    && (y in s'.leaf && y !in s.leaf ==> s'.leaf[y] == perm.(ppn := ppn + (y - v)))
  }

  /** The k pages from v are mapped to those from ppn; no other page changes. */
  ghost predicate Maps(s: Space, s': Space, v: nat, k: nat, ppn: nat, perm: Pte) {
    GrowsOwn(s, s') && forall y :: MapsAt(s, s', v, k, ppn, perm, y)
  }

  lemma MapsMore(s: Space, s1: Space, s2: Space, v: nat, k: nat, n: nat, ppn: nat, perm: Pte)
    requires Maps(s, s1, v, k, ppn, perm) && v + k !in s1.leaf && n == k + 1
    requires Grows(s1.WithLeaf(v + k, perm.(ppn := ppn + k)), s2)
    ensures Maps(s, s2, v, n, ppn, perm)
  {
    forall y ensures MapsAt(s, s2, v, n, ppn, perm, y) {
      assert MapsAt(s, s1, v, k, ppn, perm, y);
    }
  }

  lemma MapsStill(s: Space, s1: Space, s2: Space, v: nat, k: nat, ppn: nat, perm: Pte)
    requires Maps(s, s1, v, k, ppn, perm) && Grows(s1, s2)
    ensures Maps(s, s2, v, k, ppn, perm)
  {
    forall y ensures MapsAt(s, s2, v, k, ppn, perm, y) {
      assert MapsAt(s, s1, v, k, ppn, perm, y);
    }
  }

  /** The space without the pages v .. v + n, mapping and memory. */
  ghost function Dropped(s: Space, v: nat, n: nat): (s': Space) {
    Space(map a | a in s.own && !(a.User? && v <= a.vpn < v + n) :: s.own[a],
          map y | y in s.leaf && !(v <= y < v + n) :: s.leaf[y])
  }

  /** The space with the memory behind v .. v + n no longer its own, only mapped. */
  ghost function Lent(s: Space, v: nat, n: nat): (s': Space) {
    s.(own := map a | a in s.own && !(a.User? && v <= a.vpn < v + n) :: s.own[a])
  }

  /** What uvmunmap lets go of: with do_free the space's own pages, else pages that stay with whoever has them. */
  ghost function Unmapping(s: Space, v: nat, n: nat, doFree: bool): (s0: Space) {
    if doFree then s else Lent(s, v, n)
  }

  lemma LentValid(s: Space, v: nat, n: nat, ram: Ram)
    requires s.Valid(ram)
    ensures Lent(s, v, n).Valid(ram)
  {
    var t := Lent(s, v, n);
    forall a, b ensures t.Apart(a, b) {
      assert s.Apart(a, b);
    }
    forall y ensures t.LeafAt(y) {
      assert s.LeafAt(y);
    }
    forall l, x ensures t.NodeAt(ram, l, x) {
      assert s.NodeAt(ram, l, x);
      if Node(l, x) in t.own {
        forall i: nat ensures t.SlotAt(ram, l, x, i) {
          assert s.SlotAt(ram, l, x, i);
        }
      }
    }
  }

  lemma LentDropped(s: Space, v: nat, n: nat)
    ensures Dropped(Lent(s, v, n), v, n) == Dropped(s, v, n)
  {
    var a, b := Dropped(Lent(s, v, n), v, n), Dropped(s, v, n);
    assert a.own == b.own && a.leaf == b.leaf;
  }

  lemma DroppedMore(s: Space, v: nat, n: nat)
    ensures Dropped(s, v, n + 1) == Dropped(s, v, n).WithoutLeaf(v + n)
    ensures Dropped(s, v, 0) == s
  {
    var a, b := Dropped(s, v, n + 1), Dropped(s, v, n).WithoutLeaf(v + n);
    assert a.own == b.own && a.leaf == b.leaf;
    assert Dropped(s, v, 0).own == s.own && Dropped(s, v, 0).leaf == s.leaf;
  }

  function PageUp(bytes: nat): (v: nat)
    ensures v * PGSIZE >= bytes && (v > 0 ==> (v - 1) * PGSIZE < bytes)
  {
    (bytes + PGSIZE - 1) / PGSIZE
  }

  /** The permissions of user memory: W, X, R and U. */
  function UserPte(p: nat): (e: Pte) { Pte(true, true, true, true, true, p) }

  /** What a new page is to be: its permissions and its contents. */
  datatype Want = Want(perm: Pte, data: seq<Byte>)

  ghost predicate GrownAt(s: Space, s': Space, v: nat, k: nat, want: map<nat, Want>, ram: Ram, y: nat) {
    && (y in s'.leaf <==> y in s.leaf || v <= y < v + k)
    && (y in s.leaf ==> s'.leaf[y] == s.leaf[y])
    && (v <= y < v + k ==>
          && y in want && User(y) in s'.own && s'.leaf[y] == want[y].perm.(ppn := s'.own[User(y)])
          && s'.own[User(y)] in ram && ram[s'.own[User(y)]] == Bytes(want[y].data))
  }

  /** The k pages from v are mapped, as wanted, to memory of the space's own. */
  ghost predicate Grown(s: Space, s': Space, v: nat, k: nat, want: map<nat, Want>, ram: Ram) {
    && (forall y :: GrownAt(s, s', v, k, want, ram, y)) && OwnsAlso(s, s', v, k)
  }

  ghost predicate Between(lo: nat, y: nat, hi: nat) { lo <= y < hi }

  ghost function Blank(lo: nat, hi: nat): (want: map<nat, Want>)
    ensures forall y: nat :: lo <= y < hi ==> y in want && want[y] == Want(UserPte(0), Fill(0))
  {
    map y: nat | lo <= y < hi && Between(lo, y, hi) :: Want(UserPte(0), Fill(0))
  }

  /** Added are tables and memory behind the k pages from v. */
  ghost predicate OwnsAlso(s: Space, s': Space, v: nat, k: nat) {
    && (forall a :: a in s.own ==> a in s'.own && s'.own[a] == s.own[a])
    && (forall a :: a in s'.own && a !in s.own ==> a.Node? || v <= a.vpn < v + k)
  }

  class Memory {
    var ram: Ram
    var freelist: int
    ghost const all: set<nat>
    ghost var fl: seq<nat>
    ghost var out: set<nat>

    ghost function M(): (m: Mem)
      reads this
    {
      Mem(ram, out)
    }

    /** Each page is on the free list once or handed out. */
    ghost predicate Valid()
      reads this
    {
      && FreeList(ram, freelist, fl)
      && (forall p :: p in all <==> p in out || p in fl)
      && (forall p :: p in out ==> p !in fl && p in ram)
    }

    /** The space's pages are handed out. */
    ghost predicate Holds(s: Space)
      reads this
    {
      s.Valid(ram) && forall a :: a in s.own ==> s.own[a] in out
    }

    /** kinit: the pages lo .. hi, all of them free. */
    constructor (ram: Ram, lo: nat, hi: nat)
      requires lo <= hi && forall p: nat :: lo <= p < hi ==> p in ram
      ensures Valid() && out == {} && forall p :: p in all <==> lo <= p < hi
    {
      this.ram, freelist := ram, NIL;
      all := set p: nat | lo <= p < hi && p in ram;
      out, fl := (set p: nat | lo <= p < hi && p in ram), [];
      new;
      FreeRange(lo, hi);
      assert out == {};
    }

    /** freerange. */
    method FreeRange(lo: nat, hi: nat)
      requires Valid() && lo <= hi && forall p :: lo <= p < hi ==> p in out
      modifies `ram, `freelist, `fl, `out
      ensures Valid() && forall p :: p in out <==> p in old(out) && !(lo <= p < hi)
    {
      var p := lo;
      while p < hi
        invariant lo <= p <= hi && Valid() && forall q :: q in out <==> q in old(out) && !(lo <= q < p)
      {
        Kfree(p);
        p := p + 1;
      }
    }

    /** kalloc: a page off the free list, filled with junk. */
    method Kalloc() returns (p: int)
      requires Valid()
      modifies `ram, `freelist, `fl, `out
      ensures Valid()
      ensures if p == NIL then fl == old(fl) == [] && M() == old(M()) && freelist == old(freelist)
              else
                && p >= 0 && old(fl) != [] && p == old(fl)[0] && fl == old(fl)[1..] && p !in old(out)
                && M() == Mem(old(ram)[p := Bytes(Fill(5))], old(out) + {p})
    {
      p := freelist;
      if p != NIL {
        PopFree(ram, freelist, fl);
        freelist := ram[p].next;
        fl, out := fl[1..], out + {p};
        FreeListFrame(ram, ram[p := Bytes(Fill(5))], freelist, fl);
        ram := ram[p := Bytes(Fill(5))];
        assert old(fl) == [p] + fl;
      }
    }

    /** kfree of a page that is handed out. */
    method Kfree(p: nat)
      requires Valid() && p in out
      modifies `ram, `freelist, `fl, `out
      ensures Valid() && fl == [p] + old(fl) && M() == Mem(old(ram)[p := Run(old(freelist))], old(out) - {p})
    {
      PushFree(ram, freelist, fl, p);
      ram := ram[p := Run(freelist)];
      freelist := p;
      fl, out := [p] + fl, out - {p};
    }

    // ----------------------------------------------------------------
    // walk

    /** A store to a page that is handed out. */
    method Write(p: nat, page: Page)
      requires Valid() && p in out
      modifies `ram
      ensures Valid() && ram == old(ram)[p := page]
    {
      FreeListFrame(ram, ram[p := page], freelist, fl);
      ram := ram[p := page];
    }

    /** One level of walk: from the table at a level to the next, creating it if asked to. */
    method Descend(p: nat, vpn: nat, level: nat, alloc: bool, ghost s: Space) returns (child: int, ghost s': Space)
      requires Valid() && Holds(s) && 0 < level <= 2
      requires Node(level, Prefix(vpn, level)) in s.own && p == s.own[Node(level, Prefix(vpn, level))]
      modifies `ram, `freelist, `fl, `out
      ensures Valid() && Holds(s') && Grows(s, s') && Conserves(old(M()), s, M(), s')
      ensures child != NIL ==>
                var n := Node(level - 1, Prefix(vpn, level - 1)); n in s'.own && child == s'.own[n]
      ensures child == NIL ==> s' == s && Node(level - 1, Prefix(vpn, level - 1)) !in s.own && (alloc ==> fl == [])
      ensures !alloc ==> s' == s && M() == old(M()) && fl == old(fl)
    {
      EntryFound(s, ram, vpn, level);
      assert s.NodeAt(ram, level, Prefix(vpn, level)) && s.SlotAt(ram, level, Prefix(vpn, level), 0);
      var e := ram[p].slots[Index(vpn, level)];
      s' := s;
      if e.v {
        child := e.ppn;
      } else if !alloc {
        child := NIL;
      } else {
        child := Kalloc();
        if child != NIL {
          s' := NewTable(p, vpn, level, child, s, old(ram));
          assert s.OwnsTable(p);
          GainConserves(old(M()), s, M(), s', Node(level - 1, Prefix(vpn, level - 1)), child);
        }
      }
    }

    /** The new table is cleared and entered in its parent. */
    method NewTable(p: nat, vpn: nat, level: nat, child: nat, ghost s: Space, ghost ram0: Ram) returns (ghost s': Space)
      requires Valid() && s.Valid(ram0) && 0 < level <= 2 && (forall a :: a in s.own ==> s.own[a] in out)
      requires Node(level, Prefix(vpn, level)) in s.own && p == s.own[Node(level, Prefix(vpn, level))]
      requires Node(level - 1, Prefix(vpn, level - 1)) !in s.own && !s.Owns(child) && child in out
      requires ram == ram0[child := Bytes(Fill(5))]
      modifies `ram
      ensures Valid() && Holds(s') && s' == s.WithNode(level - 1, Prefix(vpn, level - 1), child)
      ensures p in ram0 && ram == ram0[child := Table(Zeros())][p := ram[p]]
    {
      s' := s.WithNode(level - 1, Prefix(vpn, level - 1), child);
      assert s.NodeAt(ram0, level, Prefix(vpn, level)) && s.SlotAt(ram0, level, Prefix(vpn, level), 0);
      ghost var slots := ram0[p].slots;
      Write(child, Table(Zeros()));
      Write(p, Table(ram[p].slots[Index(vpn, level) := Dir(child)]));
      s.WithNodeKeeps(ram0, level - 1, Prefix(vpn, level - 1), child, ram);
    }

    /**
     walk: the level-0 table page for vpn.  Without alloc nothing changes; with
     alloc it fails only if memory is exhausted, and may have added tables.
     */
    method Walk(root: nat, vpn: nat, alloc: bool, ghost s: Space) returns (p: int, ghost s': Space)
      requires Valid() && Holds(s) && root == s.own[Node(2, 0)] && vpn < MAXVPN
      modifies `ram, `freelist, `fl, `out
      ensures Valid() && Holds(s') && Grows(s, s') && Conserves(old(M()), s, M(), s')
      ensures p != NIL ==> Node(0, vpn / ENTRIES) in s'.own && p == s'.own[Node(0, vpn / ENTRIES)]
      ensures p == NIL ==> Node(0, vpn / ENTRIES) !in s.own && (alloc ==> fl == [])
      ensures !alloc ==> s' == s && M() == old(M()) && fl == old(fl)
    {
      TopPrefix(vpn);
      var level := 2;
      p := root;
      s' := s;
      while level > 0
        invariant 0 <= level <= 2 && Valid() && Holds(s') && Grows(s, s') && Conserves(old(M()), s, M(), s')
        invariant Node(level, Prefix(vpn, level)) in s'.own && p == s'.own[Node(level, Prefix(vpn, level))]
        invariant !alloc ==> s' == s && M() == old(M()) && fl == old(fl)
      {
        ghost var m1, s1 := M(), s';
        p, s' := Descend(p, vpn, level, alloc, s');
        ConservesTwice(old(M()), s, m1, s1, M(), s');
        if p == NIL {
          NoneBelow(s', vpn, level);
          return;
        }
        level := level - 1;
      }
    }

    lemma NoneBelow(s: Space, vpn: nat, level: nat)
      requires s.Valid(ram) && 0 < level <= 2 && Node(level - 1, Prefix(vpn, level - 1)) !in s.own
      ensures Node(0, vpn / ENTRIES) !in s.own
    {
      assert s.NodeAt(ram, 0, Prefix(vpn, 0));
    }

    // ----------------------------------------------------------------
    // Mapping and unmapping

    /** walkaddr: the user page behind vpn, or -1. */
    method WalkAddr(root: nat, vpn: nat, ghost s: Space) returns (ppn: int)
      requires Valid() && Holds(s) && root == s.own[Node(2, 0)]
      modifies `ram, `freelist, `fl, `out
      ensures M() == old(M()) && fl == old(fl) && Valid()
      ensures ppn == if vpn < MAXVPN && vpn in s.leaf && s.leaf[vpn].u then s.leaf[vpn].ppn else NIL
    {
      if vpn >= MAXVPN {
        return NIL;
      }
      var p;
      ghost var s1;
      p, s1 := Walk(root, vpn, false, s);
      assert s.LeafAt(vpn);
      if p == NIL {
        return NIL;
      }
      EntryFound(s, ram, vpn, 0);
      assert s.NodeAt(ram, 0, vpn / ENTRIES) && s.SlotAt(ram, 0, vpn / ENTRIES, 0);
      var e := ram[p].slots[Index(vpn, 0)];
      if !e.v || !e.u {
        return NIL;
      }
      ppn := e.ppn;
    }

    /** The store that mappages, uvmunmap and uvmclear make to the slot of v. */
    method StoreLeaf(p: nat, v: nat, e: Pte, ghost s: Space, ghost s': Space)
      requires Valid() && Holds(s) && Node(0, v / ENTRIES) in s.own && p == s.own[Node(0, v / ENTRIES)]
      requires s'.own == s.own && s'.LeafAt(v) && e == (if v in s'.leaf then s'.leaf[v] else NONE)
      requires forall y :: y != v ==> (y in s'.leaf <==> y in s.leaf) && (y in s.leaf ==> s'.leaf[y] == s.leaf[y])
      modifies `ram
      ensures Valid() && Holds(s') && Conserves(old(M()), s, M(), s')
    {
      s.StoredKeeps(ram, v, e, s');
      ghost var r := s.Stored(ram, v, e);
      assert s.NodeAt(ram, 0, v / ENTRIES) && s.SlotAt(ram, 0, v / ENTRIES, 0);
      Write(p, Table(ram[p].slots[v % ENTRIES := e]));
      assert ram == r;
      assert s.OwnsTable(p);
      WriteConserves(old(M()), s, M(), s');
    }

    /** One page of mappages. */
    method MapOne(root: nat, v: nat, ppn: nat, perm: Pte, ghost s: Space) returns (ok: bool, ghost s': Space)
      requires Valid() && Holds(s) && root == s.own[Node(2, 0)] && v < MAXVPN && v !in s.leaf && perm.Leaf()
      modifies `ram, `freelist, `fl, `out
      ensures Valid() && Holds(s') && Conserves(old(M()), s, M(), s')
      ensures Grows(if ok then s.WithLeaf(v, perm.(ppn := ppn)) else s, s')
      ensures !ok ==> fl == []
    {
      var p;
      ghost var s1;
      p, s1 := Walk(root, v, true, s);
      if p == NIL {
        return false, s1;
      }
      ghost var m1 := M();
      s' := s1.WithLeaf(v, perm.(ppn := ppn));
      assert s1.LeafAt(v) && s.LeafAt(v);
      StoreLeaf(p, v, perm.(ppn := ppn), s1, s');
      ConservesTwice(old(M()), s, m1, s1, M(), s');
      ok := true;
    }

    /** kalloc and fill: a page set aside for v, or none. */
    method GetPage(v: nat, data: seq<Byte>, ghost s: Space) returns (p: int)
      requires Valid() && Holds(s) && User(v) !in s.own
      modifies `ram, `freelist, `fl, `out
      ensures Valid() && Holds(s) && (p == NIL ==> M() == old(M()) && fl == [])
      ensures p != NIL ==>
                && p >= 0 && p in out && !s.Owns(p) && ram[p] == Bytes(data)
                && Conserves(old(M()), s, M(), Aside(s, v, p))
    {
      p := Kalloc();
      if p != NIL {
        Write(p, Bytes(data));
        s.Frame(old(ram), ram);
        GainConserves(old(M()), s, M(), Aside(s, v, p), User(v), p);
      }
    }

    /** kfree of a page set aside for v. */
    method GiveBack(p: nat, v: nat, ghost s: Space)
      requires Valid() && Holds(s) && User(v) !in s.own && p in out && !s.Owns(p)
      modifies `ram, `freelist, `fl, `out
      ensures Valid() && Holds(s) && Conserves(old(M()), Aside(s, v, p), M(), s) && |fl| == |old(fl)| + 1
    {
      Kfree(p);
      s.Frame(old(ram), ram);
      AsideApart(s, v, p);
      LossConserves(old(M()), Aside(s, v, p), M(), s, User(v));
    }

    /** kalloc, fill, map: one page of uvmalloc or uvmcopy; on failure nothing is kept but tables. */
    method AddPage(root: nat, v: nat, data: seq<Byte>, perm: Pte, ghost s: Space) returns (ok: bool, ghost s': Space)
      requires Valid() && Holds(s) && root == s.own[Node(2, 0)] && v < MAXVPN && v !in s.leaf && perm.Leaf()
      modifies `ram, `freelist, `fl, `out
      ensures Valid() && Holds(s') && Conserves(old(M()), s, M(), s')
      ensures ok ==>
                && User(v) in s'.own && s'.own[User(v)] in ram && ram[s'.own[User(v)]] == Bytes(data)
                && Grows(Plus(s, v, perm, s'.own[User(v)]), s')
      ensures !ok ==> Grows(s, s') && |fl| <= 1
    {
      assert s.LeafAt(v);
      ConservesSame(M(), s);
      var p := GetPage(v, data, s);
      if p == NIL {
        return false, s;
      }
      ghost var m1, s1 := M(), Aside(s, v, p);
      ok, s' := MapOne(root, v, p, perm, s);
      assert KeptAt(m1, s, M(), s', p);
      AsideConserves(m1, s, M(), s', v, p);
      hide Conserves;
      ghost var m2, s2 := M(), Aside(s', v, p);
      ConservesTwice(old(M()), s, m1, s1, m2, s2);
      if ok {
        s'.AdoptKeeps(ram, v, p);
        s' := s2;
      } else {
        GiveBack(p, v, s');
        ConservesTwice(old(M()), s, m2, s2, M(), s');
      }
    }

    /** mappages: all pages, or those before the first whose table could not be made. */
    method MapPages(root: nat, va: nat, size: nat, pa: nat, perm: Pte, ghost s: Space)
        returns (ok: bool, ghost k: nat, ghost s': Space)
      requires Valid() && Holds(s) && root == s.own[Node(2, 0)] && perm.Leaf() && size > 0
      requires (va + size - 1) / PGSIZE < MAXVPN
      requires forall y :: va / PGSIZE <= y <= (va + size - 1) / PGSIZE ==> y !in s.leaf
      modifies `ram, `freelist, `fl, `out
      ensures Valid() && Holds(s') && Conserves(old(M()), s, M(), s')
      ensures Maps(s, s', va / PGSIZE, k, pa, perm)
      ensures var last := (va + size - 1) / PGSIZE - va / PGSIZE;
              if ok then k == last + 1 else k <= last && fl == []
    {
      var a, last, ppn := va / PGSIZE, (va + size - 1) / PGSIZE, pa;
      k, s' := 0, s;
      ConservesSame(M(), s);
      while true
        invariant Valid() && Holds(s') && Conserves(old(M()), s, M(), s') && Maps(s, s', va / PGSIZE, k, pa, perm)
        invariant a == va / PGSIZE + k <= last && ppn == pa + k
        decreases last - a
      {
        ghost var m1, s1 := M(), s';
        assert MapsAt(s, s', va / PGSIZE, k, pa, perm, a);
        ok, s' := MapOne(root, a, ppn, perm, s');
        ConservesTwice(old(M()), s, m1, s1, M(), s');
        if !ok {
          MapsStill(s, s1, s', va / PGSIZE, k, pa, perm);
          return;
        }
        MapsMore(s, s1, s', va / PGSIZE, k, k + 1, pa, perm);
        k := k + 1;
        if a == last {
          break;
        }
        a, ppn := a + 1, ppn + 1;
      }
    }

    /** One page of uvmunmap. */
    method UnmapOne(root: nat, v: nat, doFree: bool, ghost s: Space) returns (ghost s': Space)
      requires Valid() && Holds(s) && root == s.own[Node(2, 0)] && v < MAXVPN && v in s.leaf
      requires doFree == (User(v) in s.own)
      modifies `ram, `freelist, `fl, `out
      ensures Valid() && Holds(s') && Conserves(old(M()), s, M(), s') && s' == s.WithoutLeaf(v)
      ensures |fl| == |old(fl)| + if doFree then 1 else 0
    {
      var p;
      ghost var t;
      p, t := Walk(root, v, false, s);
      assert s.LeafAt(v);
      EntryFound(s, ram, v, 0);
      assert s.NodeAt(ram, 0, v / ENTRIES) && s.SlotAt(ram, 0, v / ENTRIES, 0);
      var e := ram[p].slots[Index(v, 0)];
      assert e == s.leaf[v];
      t := s.(own := s.own - {User(v)});
      if doFree {
        FreeLeaf(e.ppn, v, s, t);
      } else {
        assert t == s;
      }
      ghost var m1 := M();
      s' := s.WithoutLeaf(v);
      StoreLeaf(p, v, NONE, t, s');
      ConservesTwice(old(M()), s, m1, t, M(), s');
    }

    /** The memory behind a mapped page is freed. */
    method FreeLeaf(p: nat, v: nat, ghost s: Space, ghost t: Space)
      requires Valid() && Holds(s) && User(v) in s.own && p == s.own[User(v)] && t == s.(own := s.own - {User(v)})
      modifies `ram, `freelist, `fl, `out
      ensures Valid() && Holds(t) && Conserves(old(M()), s, M(), t) && |fl| == |old(fl)| + 1
    {
      Kfree(p);
      LossConserves(old(M()), s, M(), t, User(v));
      t.LentFrame(s, v, old(ram), ram);
      forall a | a in t.own ensures t.own[a] in out {
        assert s.Apart(a, User(v));
      }
    }

    /** uvmunmap: exactly the n pages from v go; without do_free their memory stays as it is. */
    method UvmUnmap(root: nat, v: nat, n: nat, doFree: bool, ghost s: Space) returns (ghost s': Space)
      requires Valid() && Holds(s) && root == s.own[Node(2, 0)] && v + n <= MAXVPN
      requires forall y :: v <= y < v + n ==> y in s.leaf && (doFree ==> User(y) in s.own)
      modifies `ram, `freelist, `fl, `out
      ensures Valid() && Holds(s') && s' == Dropped(s, v, n)
      ensures Conserves(old(M()), Unmapping(s, v, n, doFree), M(), s')
      ensures |fl| == |old(fl)| + if doFree then n else 0
    {
      ghost var s0 := Unmapping(s, v, n, doFree);
      LentValid(s, v, n, ram);
      LentDropped(s, v, n);
      s' := UnmapRange(root, v, n, doFree, s0);
    }

    /** The loop of uvmunmap. */
    method UnmapRange(root: nat, v: nat, n: nat, doFree: bool, ghost s: Space) returns (ghost s': Space)
      requires Valid() && Holds(s) && root == s.own[Node(2, 0)] && v + n <= MAXVPN
      requires forall y :: v <= y < v + n ==> y in s.leaf && doFree == (User(y) in s.own)
      modifies `ram, `freelist, `fl, `out
      ensures Valid() && Holds(s') && Conserves(old(M()), s, M(), s') && s' == Dropped(s, v, n)
      ensures |fl| == |old(fl)| + if doFree then n else 0
    {
      hide Conserves, Space.Valid, Memory.Valid;
      s.Unmapped(ram, v, v);
      var j := 0;
      s' := s;
      ConservesSame(M(), s);
      DroppedMore(s, v, 0);
      while j < n
        invariant 0 <= j <= n && Valid() && Holds(s') && Conserves(old(M()), s, M(), s') && s' == Dropped(s, v, j)
        invariant |fl| == |old(fl)| + if doFree then j else 0
      {
        ghost var m1, s1 := M(), s';
        s' := UnmapOne(root, v + j, doFree, s');
        ConservesTwice(old(M()), s, m1, s1, M(), s');
        DroppedMore(s, v, j);
        j := j + 1;
      }
    }

    /** uvmdealloc: the whole pages between the two sizes go. */
    method UvmDealloc(root: nat, oldsz: nat, newsz: nat, ghost s: Space) returns (r: nat, ghost s': Space)
      requires Valid() && Holds(s) && root == s.own[Node(2, 0)] && PageUp(oldsz) <= MAXVPN
      requires forall y :: PageUp(newsz) <= y < PageUp(oldsz) ==> y in s.leaf && User(y) in s.own
      modifies `ram, `freelist, `fl, `out
      ensures Valid() && Holds(s') && Conserves(old(M()), s, M(), s')
      ensures r == if newsz < oldsz then newsz else oldsz
      ensures var lo, hi := PageUp(newsz), PageUp(oldsz);
              s' == if lo < hi then Dropped(s, lo, hi - lo) else s
      ensures |fl| == |old(fl)| + if PageUp(newsz) < PageUp(oldsz) then PageUp(oldsz) - PageUp(newsz) else 0
    {
      s' := s;
      ConservesSame(M(), s);
      if newsz >= oldsz {
        PageUpOrdered(oldsz, newsz);
        return oldsz, s;
      }
      if PageUp(newsz) < PageUp(oldsz) {
        s' := UvmUnmap(root, PageUp(newsz), PageUp(oldsz) - PageUp(newsz), true, s);
      }
      r := newsz;
    }

    /** uvmalloc gives up: the pages it added so far go. */
    method Retreat(root: nat, first: nat, a: nat, ghost want: map<nat, Want>, ghost s: Space, ghost s1: Space)
        returns (ghost s': Space)
      requires Valid() && Holds(s1) && root == s1.own[Node(2, 0)] && first <= a <= MAXVPN
      requires Grown(s, s1, first, a - first, want, ram)
      requires forall y :: first <= y < a ==> y !in s.leaf && User(y) !in s.own
      modifies `ram, `freelist, `fl, `out
      ensures Valid() && Holds(s') && Grows(s, s') && Conserves(old(M()), s1, M(), s')
      ensures |fl| == |old(fl)| + (a - first)
    {
      hide Conserves, Grown, Dropped, Grows, PageUp, Space.Valid;
      PageUpExact(a);
      PageUpExact(first);
      GrownDropped(s, s1, first, a - first, want, ram);
      forall y | first <= y < a ensures y in s1.leaf && User(y) in s1.own {
        GrownNow(s, s1, first, a, want, ram, y);
      }
      var back;
      back, s' := UvmDealloc(root, a * PGSIZE, first * PGSIZE, s1);
    }

    /** One more page, as wanted, or no more than tables. */
    method GrowOne(root: nat, first: nat, a: nat, data: seq<Byte>, perm: Pte, ghost want: map<nat, Want>,
                   ghost s: Space, ghost s1: Space) returns (ok: bool, ghost s': Space)
      requires Valid() && Holds(s1) && root == s1.own[Node(2, 0)] && first <= a < MAXVPN && perm.Leaf()
      requires Grown(s, s1, first, a - first, want, ram) && a !in s.leaf && User(a) !in s.own
      requires a in want && want[a] == Want(perm, data)
      modifies `ram, `freelist, `fl, `out
      ensures Valid() && Holds(s') && Conserves(old(M()), s1, M(), s')
      ensures Node(2, 0) in s'.own && s'.own[Node(2, 0)] == root
      ensures Grown(s, s', first, if ok then a + 1 - first else a - first, want, ram) && (!ok ==> |fl| <= 1)
      ensures forall v :: User(v) in s1.own ==> User(v) in s'.own
    {
      GrownNotYet(s, s1, first, a, want, ram);
      hide Conserves, Grown;
      ok, s' := AddPage(root, a, data, perm, s1);
      if ok {
        GrownMore(s, s1, s', first, a - first, a + 1 - first, want, old(M()), M());
      } else {
        GrownStill(s, s1, s', first, a - first, want, old(M()), M());
      }
    }

    /**
     uvmalloc: all pages up to the new size, zeroed and the space's own, or
     the user mapping as it was; or walk's panic, for a size above MAXVA that
     memory would have sufficed for.
     */
    method UvmAlloc(root: nat, oldsz: nat, newsz: nat, ghost s: Space)
        returns (r: nat, panicked: bool, ghost ok: bool, ghost s': Space)
      requires Valid() && Holds(s) && root == s.own[Node(2, 0)]
      requires forall y :: PageUp(oldsz) <= y < PageUp(newsz) ==> y !in s.leaf
      modifies `ram, `freelist, `fl, `out
      ensures panicked ==> PageUp(newsz) > MAXVPN && newsz >= oldsz
      ensures !panicked ==> Valid() && Holds(s') && Conserves(old(M()), s, M(), s')
      ensures newsz < oldsz ==> r == oldsz && ok && s' == s
      ensures !panicked && newsz >= oldsz && ok ==>
                r == newsz && (PageUp(oldsz) < PageUp(newsz) ==> PageUp(newsz) <= MAXVPN)
      ensures !panicked && newsz >= oldsz && ok ==>
                Grown(s, s', PageUp(oldsz), PageUp(newsz) - PageUp(oldsz), Blank(PageUp(oldsz), PageUp(newsz)), ram)
      ensures !panicked && !ok ==> r == 0 && Grows(s, s') && |fl| <= PageUp(newsz) - PageUp(oldsz)
    {
      hide Conserves, Grown, Blank, PageUp, Grows, OwnsAlso, Space.Valid, Memory.Valid;
      ConservesSame(M(), s);
      if newsz < oldsz {
        return oldsz, false, true, s;
      }
      PageUpOrdered(oldsz, newsz);
      s.Unmapped(ram, PageUp(oldsz), PageUp(newsz));
      var first, a := PageUp(oldsz), PageUp(oldsz);
      s' := s;
      ghost var want := Blank(first, PageUp(newsz));
      GrownNone(s, first, want, ram);
      while a * PGSIZE < newsz
        invariant first <= a <= PageUp(newsz) && (first < a ==> a <= MAXVPN)
        invariant Valid() && Holds(s') && Conserves(old(M()), s, M(), s')
        invariant Grown(s, s', first, a - first, want, ram) && Node(2, 0) in s'.own && s'.own[Node(2, 0)] == root
        invariant forall v :: User(v) in s.own ==> User(v) in s'.own
        decreases PageUp(newsz) - a
      {
        ghost var m1, s1 := M(), s';
        PageUpGuard(newsz, a);
        var done := false;
        if a >= MAXVPN {
          var p := Kalloc();
          if p != NIL {
            return 0, true, false, s';
          }
        } else {
          done, s' := GrowOne(root, first, a, Fill(0), UserPte(0), want, s, s');
          ConservesTwice(old(M()), s, m1, s1, M(), s');
        }
        if !done {
          ghost var m2, s2 := M(), s';
          s' := GiveUp(root, first, a, want, s, s');
          ConservesTwice(old(M()), s, m2, s2, M(), s');
          return 0, false, false, s';
        }
        a := a + 1;
      }
      PageUpGuard(newsz, a);
      r, panicked, ok := newsz, false, true;
    }

    /** uvmalloc gives up: the pages it added so far go, if any. */
    method GiveUp(root: nat, first: nat, a: nat, ghost want: map<nat, Want>, ghost s: Space, ghost s1: Space)
        returns (ghost s': Space)
      requires Valid() && Holds(s1) && root == s1.own[Node(2, 0)] && first <= a && (first < a ==> a <= MAXVPN)
      requires Grown(s, s1, first, a - first, want, ram)
      requires forall y :: first <= y < a ==> y !in s.leaf && User(y) !in s.own
      modifies `ram, `freelist, `fl, `out
      ensures Valid() && Holds(s') && Grows(s, s') && Conserves(old(M()), s1, M(), s')
      ensures |fl| == |old(fl)| + (a - first)
    {
      hide Conserves, Grown, Dropped, Grows, PageUp, Space.Valid;
      if first < a {
        s' := Retreat(root, first, a, want, s, s1);
      } else {
        s' := s1;
        ConservesSame(M(), s1);
        GrownDropped(s, s1, first, 0, want, ram);
      }
    }

    /** The entry of a page that is mapped. */
    method Lookup(root: nat, v: nat, ghost s: Space) returns (e: Pte)
      requires Valid() && Holds(s) && root == s.own[Node(2, 0)] && v < MAXVPN && v in s.leaf
      modifies `ram, `freelist, `fl, `out
      ensures Valid() && M() == old(M()) && fl == old(fl) && e == s.leaf[v]
    {
      var p;
      ghost var t;
      p, t := Walk(root, v, false, s);
      assert s.LeafAt(v);
      EntryFound(s, ram, v, 0);
      assert s.NodeAt(ram, 0, v / ENTRIES) && s.SlotAt(ram, 0, v / ENTRIES, 0);
      e := ram[p].slots[Index(v, 0)];
    }

    /**
     uvmcopy: the child gets its own copy of every page, with the parent's
     permissions, or is left without any of them.  The parent is unchanged.
     */
    method UvmCopy(old_: nat, new_: nat, sz: nat, ghost so: Space, ghost s: Space) returns (ok: bool, ghost s': Space)
      requires Valid() && Holds(so) && Holds(s) && old_ == so.own[Node(2, 0)] && new_ == s.own[Node(2, 0)]
      requires Apart(so, s) && PageUp(sz) <= MAXVPN
      requires forall y :: 0 <= y < PageUp(sz) ==> Present(so, ram, y) && y !in s.leaf
      modifies `ram, `freelist, `fl, `out
      ensures Valid() && Holds(so) && Holds(s') && Apart(so, s') && Conserves(old(M()), s, M(), s')
      ensures ok ==> Grown(s, s', 0, PageUp(sz), Images(so, old(ram), PageUp(sz)), ram)
      ensures !ok ==> Grows(s, s') && |fl| <= PageUp(sz)
    {
      hide Conserves, Grown, Stays, Apart, PageUp, Grows, Memory.Valid, Present, Images;
      ghost var want, m0 := Images(so, ram, PageUp(sz)), M();
      forall y | 0 <= y < PageUp(sz) ensures User(y) !in s.own {
        s.NotOwned(ram, y);
      }
      ConservesSame(M(), s);
      GrownNone(s, 0, want, ram);
      StaysNow(so, ram, PageUp(sz));
      var i := 0;
      s' := s;
      while i * PGSIZE < sz
        invariant 0 <= i <= PageUp(sz) && Valid() && Holds(so) && Holds(s') && Apart(so, s')
        invariant Conserves(m0, s, M(), s') && Grown(s, s', 0, i, want, ram) && Stays(so, m0.ram, ram, PageUp(sz))
        invariant Node(2, 0) in s'.own && s'.own[Node(2, 0)] == new_
        invariant forall v :: User(v) in s.own ==> User(v) in s'.own
        decreases PageUp(sz) - i
      {
        ghost var m1, s1 := M(), s';
        PageUpGuard(sz, i);
        ok, s' := CopyOne(old_, new_, i, PageUp(sz), m0.ram, want, so, s, s');
        ConservesTwice(m0, s, m1, s1, M(), s');
        if !ok {
          ghost var m2, s2 := M(), s';
          s' := Retreat(new_, 0, i, want, s, s');
          ConservesTwice(m0, s, m2, s2, M(), s');
          OtherKeeps(m2, s2, M(), s', so);
          return;
        }
        i := i + 1;
      }
      PageUpGuard(sz, i);
      ok := true;
    }

    /** One page of uvmcopy. */
    method CopyOne(old_: nat, new_: nat, i: nat, ghost n: nat, ghost ram0: Ram, ghost want: map<nat, Want>,
                   ghost so: Space, ghost s: Space, ghost s1: Space) returns (ok: bool, ghost s': Space)
      requires Valid() && Holds(so) && Holds(s1) && old_ == so.own[Node(2, 0)] && new_ == s1.own[Node(2, 0)]
      requires i < n <= MAXVPN && Apart(so, s1) && Stays(so, ram0, ram, n) && Wants(so, ram0, n, want)
      requires Grown(s, s1, 0, i, want, ram) && i !in s.leaf && User(i) !in s.own
      modifies `ram, `freelist, `fl, `out
      ensures Valid() && Holds(so) && Holds(s') && Apart(so, s') && Stays(so, ram0, ram, n)
      ensures Conserves(old(M()), s1, M(), s') && Grown(s, s', 0, if ok then i + 1 else i, want, ram)
      ensures !ok ==> |fl| <= 1
      ensures s'.own[Node(2, 0)] == new_ && forall v :: User(v) in s1.own ==> User(v) in s'.own
    {
      ghost var m1 := M();
      assert Present(so, ram, i) && SamePage(so, ram0, ram, i) && Present(so, ram0, i);
      var e := Lookup(old_, i, so);
      var data := ram[e.ppn].data;
      assert want[i] == Want(e, data);
      hide Conserves, Grown;
      ok, s' := GrowOne(new_, 0, i, data, e, want, s, s1);
      OtherKeeps(m1, s1, M(), s', so);
      forall y | 0 <= y < n ensures Present(so, ram, y) && SamePage(so, ram0, ram, y) {
        OtherPage(m1, s1, M(), s', so, y);
      }
    }

    /** uvmclear: user access to one page goes, and nothing else changes. */
    method UvmClear(root: nat, v: nat, ghost s: Space) returns (ghost s': Space)
      requires Valid() && Holds(s) && root == s.own[Node(2, 0)] && v < MAXVPN && v in s.leaf
      modifies `ram, `freelist, `fl, `out
      ensures Valid() && Holds(s') && Conserves(old(M()), s, M(), s')
      ensures s' == s.WithLeaf(v, s.leaf[v].(u := false))
    {
      var p;
      ghost var t;
      p, t := Walk(root, v, false, s);
      assert s.LeafAt(v);
      EntryFound(s, ram, v, 0);
      assert s.NodeAt(ram, 0, v / ENTRIES) && s.SlotAt(ram, 0, v / ENTRIES, 0);
      var e := ram[p].slots[Index(v, 0)];
      s' := s.WithLeaf(v, e.(u := false));
      StoreLeaf(p, v, e.(u := false), s, s');
    }

    /** uvmcreate: an empty space, or none if memory is exhausted. */
    method UvmCreate() returns (root: int, ghost s: Space)
      requires Valid()
      modifies `ram, `freelist, `fl, `out
      ensures Valid() && (root == NIL ==> M() == old(M()) && fl == [])
      ensures root != NIL ==>
                && root >= 0 && s == Space(map[Node(2, 0) := root], map[]) && Holds(s)
                && Conserves(old(M()), Space(map[], map[]), M(), s)
    {
      s := Space(map[], map[]);
      root := Kalloc();
      if root != NIL {
        ghost var t := s;
        Write(root, Table(Zeros()));
        s := Space(map[Node(2, 0) := root], map[]);
        forall l, x ensures s.NodeAt(ram, l, x) {
          if Node(l, x) in s.own {
            forall i: nat ensures s.SlotAt(ram, l, x, i) {
              assert Node(1, i) !in s.own;
            }
          }
        }
        GainConserves(old(M()), t, M(), s, Node(2, 0), root);
      }
    }

    /** kfree of the table page (l, x), below which nothing is left. */
    method FreeTable(p: nat, ghost l: nat, ghost x: nat, ghost s: Space) returns (ghost s': Space)
      requires Valid() && Node(l, x) in s.own && p == s.own[Node(l, x)] && p in out
      requires forall a, b :: s.Apart(a, b)
      modifies `ram, `freelist, `fl, `out
      ensures Valid() && s' == s.(own := s.own - {Node(l, x)}) && Conserves(old(M()), s, M(), s')
      ensures out == old(out) - {p} && forall q :: q in old(ram) && q != p ==> q in ram && ram[q] == old(ram)[q]
    {
      Kfree(p);
      s' := s.(own := s.own - {Node(l, x)});
      LossConserves(old(M()), s, M(), s', Node(l, x));
    }

    /** The pages of the space are handed out, and its tables in the given part of the tree are in order. */
    ghost predicate Subtree(s: Space, l: nat, x: nat)
      reads this
    {
      Tree(s, ram, l, x) && forall a :: a in s.own ==> s.own[a] in out
    }

    /**
     freewalk: every table of the subtree goes back to the free list, and no
     other page changes.
     */
    method FreeWalk(p: nat, l: nat, ghost x: nat, ghost s: Space) returns (ghost s': Space)
      requires Valid() && l <= 2 && Node(l, x) in s.own && p == s.own[Node(l, x)] && Subtree(s, l, x)
      modifies `ram, `freelist, `fl, `out
      ensures Valid() && s' == Cleared(s, l, x, x + 1) && Conserves(old(M()), s, M(), s')
      ensures forall a :: a in s'.own ==> s'.own[a] in out && SameAt(old(ram), ram, s'.own[a])
      decreases l, 2
    {
      s' := FreeChildren(p, l, x, s);
      ghost var m1, s1 := M(), s';
      s' := FreeTable(p, l, x, s');
      ConservesTwice(old(M()), s, m1, s1, M(), s');
      ClearedStep(s, l, x);
      forall a | a in s'.own ensures s'.own[a] in out && SameAt(old(ram), ram, s'.own[a]) {
        assert s.Apart(a, Node(l, x)) && SameAt(old(ram), m1.ram, s1.own[a]);
      }
    }

    /** The loop of freewalk over the entries. */
    method FreeChildren(p: nat, l: nat, ghost x: nat, ghost s: Space) returns (ghost s': Space)
      requires Valid() && l <= 2 && Node(l, x) in s.own && p == s.own[Node(l, x)] && Subtree(s, l, x)
      modifies `ram, `freelist, `fl, `out
      ensures Valid() && s' == Childless(s, l, x, ENTRIES) && Conserves(old(M()), s, M(), s') && Subtree(s', l, x)
      ensures Node(l, x) in s'.own && s'.own[Node(l, x)] == p && Spared(s, s') && Others(old(ram), ram, s', Node(l, x))
      decreases l, 1
    {
      hide Memory.Subtree, Conserves, Childless, Cleared;
      var i := 0;
      s' := s;
      ConservesSame(M(), s);
      ChildlessMore(s, l, x, 0);
      while i < ENTRIES
        invariant 0 <= i <= ENTRIES && Valid() && s' == Childless(s, l, x, i) && Conserves(old(M()), s, M(), s')
        invariant Node(l, x) in s'.own && s'.own[Node(l, x)] == p && Subtree(s', l, x) && Spared(s, s')
        invariant Others(old(ram), ram, s', Node(l, x))
      {
        ghost var m1, s1 := M(), s';
        s' := FreeChild(p, l, x, i, s');
        ConservesTwice(old(M()), s, m1, s1, M(), s');
        ChildlessMore(s, l, x, i);
        i := i + 1;
      }
    }

    /** One entry of freewalk's loop. */
    method FreeChild(p: nat, l: nat, ghost x: nat, i: nat, ghost s: Space) returns (ghost s': Space)
      requires Valid() && l <= 2 && Node(l, x) in s.own && p == s.own[Node(l, x)] && Subtree(s, l, x) && i < ENTRIES
      modifies `ram, `freelist, `fl, `out
      ensures Valid() && Conserves(old(M()), s, M(), s') && Subtree(s', l, x)
      ensures s' == if l == 0 then s else Cleared(s, l - 1, x * ENTRIES + i, x * ENTRIES + i + 1)
      ensures Node(l, x) in s'.own && s'.own[Node(l, x)] == p && Spared(s, s') && Others(old(ram), ram, s', Node(l, x))
      decreases l, 0
    {
      hide Tree, Conserves, Cleared;
      ConservesSame(M(), s);
      TreeEntry(s, ram, l, x, i);
      ghost var c := x * ENTRIES + i;
      var e := ram[p].slots[i];
      s' := s;
      if e.v && !e.Leaf() {
        TreeOfChild(s, ram, l, c);
        s' := FreeWalk(e.ppn, l - 1, c, s);
        ClearSlot(p, l, x, i, s, s', old(M()));
      } else {
        assert !e.v;
        if l > 0 {
          TreeRooted(s, ram, l, x);
          ClearedNone(s, l - 1, c);
        }
      }
    }

    /** The entry of a freed child is cleared. */
    method ClearSlot(p: nat, l: nat, ghost x: nat, i: nat, ghost s: Space, ghost t: Space, ghost m0: Mem)
      requires Valid() && 0 < l <= 2 && i < ENTRIES && Node(l, x) in s.own && p == s.own[Node(l, x)]
      requires t == Cleared(s, l - 1, x * ENTRIES + i, x * ENTRIES + i + 1) && Conserves(m0, s, M(), t)
      requires Tree(s, m0.ram, l, x) && forall a :: a in t.own ==> t.own[a] in out && SameAt(m0.ram, ram, t.own[a])
      requires p in m0.ram && m0.ram[p].Table? && |m0.ram[p].slots| == ENTRIES
      modifies `ram
      ensures Valid() && Subtree(t, l, x) && Conserves(m0, s, M(), t)
      ensures Node(l, x) in t.own && t.own[Node(l, x)] == p && Spared(s, t) && Others(m0.ram, ram, t, Node(l, x))
    {
      ghost var m1 := M();
      assert Node(l, x) in t.own && SameAt(m0.ram, ram, t.own[Node(l, x)]);
      forall a, b ensures t.Apart(a, b) {
        assert s.Apart(a, b);
      }
      Write(p, Table(ram[p].slots[i := NONE]));
      assert t.OwnsTable(p);
      WriteConserves(m1, t, M(), t);
      ConservesTwice(m0, s, m1, t, M(), t);
      forall a | a in t.own && a != Node(l, x) ensures SameAt(m0.ram, ram, t.own[a]) {
        assert s.Apart(a, Node(l, x)) && SameAt(m0.ram, m1.ram, t.own[a]);
      }
      TreeCleared(s, m0.ram, ram, l, x, i);
    }

    /** uvmfree: every page the space owned is free again, and no other. */
    method UvmFree(root: nat, sz: nat, ghost s: Space)
      requires Valid() && Holds(s) && root == s.own[Node(2, 0)] && PageUp(sz) <= MAXVPN
      requires forall v :: v in s.leaf <==> 0 <= v < PageUp(sz)
      requires forall v :: v in s.leaf ==> User(v) in s.own
      modifies `ram, `freelist, `fl, `out
      ensures Valid() && Conserves(old(M()), s, M(), Space(map[], map[]))
    {
      ghost var t := s;
      ConservesSame(M(), s);
      DroppedMore(s, 0, 0);
      if sz > 0 {
        t := UvmUnmap(root, 0, PageUp(sz), true, s);
      }
      assert t.leaf == map[];
      ghost var m1 := M();
      forall l, x ensures t.RootedAt(l, x) && t.NodeAt(ram, l, x) {
        assert t.NodeAt(ram, l, x);
      }
      ghost var u := FreeWalk(root, 2, 0, t);
      forall a | a in u.own ensures false {
        assert a.User? ==> s.LeafAt(a.vpn);
        if a.Node? {
          t.AllBelow(a.level, a.x);
        }
      }
      assert u == Space(map[], map[]);
      ConservesTwice(old(M()), s, m1, t, M(), u);
    }
  }

  /** No page belongs to both spaces. */
  ghost predicate Apart(s: Space, t: Space) {
    forall a, b :: a in s.own && b in t.own ==> s.own[a] != t.own[b]
  }

  ghost predicate Present(s: Space, ram: Ram, y: nat) {
    && y in s.leaf && User(y) in s.own && s.leaf[y].ppn == s.own[User(y)] && s.leaf[y].Leaf()
    && s.own[User(y)] in ram && ram[s.own[User(y)]].Bytes?
  }

  ghost predicate SamePage(s: Space, ram: Ram, ram': Ram, y: nat) {
    User(y) in s.own && s.own[User(y)] in ram && s.own[User(y)] in ram' && ram'[s.own[User(y)]] == ram[s.own[User(y)]]
  }

  /** The pages below n are there, with the contents they had. */
  ghost predicate Stays(s: Space, ram0: Ram, ram: Ram, n: nat) {
    forall y :: 0 <= y < n ==> Present(s, ram, y) && SamePage(s, ram0, ram, y)
  }

  lemma StaysNow(s: Space, ram: Ram, n: nat)
    requires forall y :: 0 <= y < n ==> Present(s, ram, y)
    ensures Stays(s, ram, ram, n)
  {
    forall y | 0 <= y < n ensures Present(s, ram, y) && SamePage(s, ram, ram, y) {
    }
  }

  ghost predicate Wants(s: Space, ram: Ram, n: nat, want: map<nat, Want>) {
    forall y :: 0 <= y < n && Present(s, ram, y) ==> y in want && want[y] == Want(s.leaf[y], ram[s.own[User(y)]].data)
  }

  /** The pages below n of a space, as a copy of it wants them. */
  ghost function Images(s: Space, ram: Ram, n: nat): (want: map<nat, Want>)
    ensures Wants(s, ram, n, want)
  {
    map y: nat | 0 <= y < n && Present(s, ram, y) :: Want(s.leaf[y], ram[s.own[User(y)]].data)
  }

  /** What one space conserves, another space keeps. */
  lemma OtherKeeps(m: Mem, s: Space, m': Mem, s': Space, t: Space)
    requires Conserves(m, s, m', s') && Apart(t, s) && t.Valid(m.ram) && forall a :: a in t.own ==> t.own[a] in m.out
    ensures Apart(t, s') && t.Valid(m'.ram) && forall a :: a in t.own ==> t.own[a] in m'.out
  {
    forall a | a in t.own ensures KeptAt(m, s, m', s', t.own[a]) && !s.Owns(t.own[a]) {
    }
    t.Frame(m.ram, m'.ram);
  }

  lemma OtherPage(m: Mem, s: Space, m': Mem, s': Space, t: Space, y: nat)
    requires Conserves(m, s, m', s') && Apart(t, s) && (forall a :: a in t.own ==> t.own[a] in m.out)
    requires Present(t, m.ram, y)
    ensures Present(t, m'.ram, y) && SamePage(t, m.ram, m'.ram, y)
  {
    assert KeptAt(m, s, m', s', t.own[User(y)]);
  }

  /** The tables of one subtree are in order, and map nothing. */
  ghost predicate Tree(s: Space, ram: Ram, l: nat, x: nat) {
    && (forall a, b :: s.Apart(a, b))
    && s.Rooted() && (forall m, y :: Below(l, x, x + 1, Node(m, y)) ==> s.NodeAt(ram, m, y))
    && (forall v :: v in s.leaf ==> !Below(l, x, x + 1, Node(0, v / ENTRIES)))
  }

  lemma TreeOfChild(s: Space, ram: Ram, l: nat, c: nat)
    requires l > 0 && Tree(s, ram, l, c / ENTRIES)
    ensures Tree(s, ram, l - 1, c)
  {
    forall m, y | Below(l - 1, c, c + 1, Node(m, y)) ensures s.NodeAt(ram, m, y) {
      BelowParent(l, c, Node(m, y));
    }
    forall v | v in s.leaf ensures !Below(l - 1, c, c + 1, Node(0, v / ENTRIES)) {
      if Below(l - 1, c, c + 1, Node(0, v / ENTRIES)) {
        BelowParent(l, c, Node(0, v / ENTRIES));
      }
    }
  }

  lemma TreeRooted(s: Space, ram: Ram, l: nat, x: nat)
    requires Tree(s, ram, l, x)
    ensures s.Rooted()
  {
  }

  /** An entry of the table (l, x) names the child or is clear. */
  lemma TreeEntry(s: Space, ram: Ram, l: nat, x: nat, i: nat)
    requires l <= 2 && Node(l, x) in s.own && Tree(s, ram, l, x) && i < ENTRIES
    ensures var p := s.own[Node(l, x)];
            && p in ram && ram[p].Table? && |ram[p].slots| == ENTRIES
            && ram[p].slots[i] == if l > 0 && Node(l - 1, x * ENTRIES + i) in s.own
                                  then Dir(s.own[Node(l - 1, x * ENTRIES + i)]) else NONE
  {
    assert Below(l, x, x + 1, Node(l, x)) && s.NodeAt(ram, l, x) && s.SlotAt(ram, l, x, i);
    assert (x * ENTRIES + i) / ENTRIES == x;
  }

  lemma TreeCleared(s: Space, ram: Ram, ram': Ram, l: nat, x: nat, i: nat)
    requires 0 < l <= 2 && i < ENTRIES && Tree(s, ram, l, x) && Node(l, x) in s.own
    requires var p, c := s.own[Node(l, x)], x * ENTRIES + i;
             && Others(ram, ram', Cleared(s, l - 1, c, c + 1), Node(l, x))
             && p in ram && p in ram' && ram[p].Table? && |ram[p].slots| == ENTRIES
             && ram'[p] == Table(ram[p].slots[i := NONE])
    ensures Tree(Cleared(s, l - 1, x * ENTRIES + i, x * ENTRIES + i + 1), ram', l, x)
  {
    var t := Cleared(s, l - 1, x * ENTRIES + i, x * ENTRIES + i + 1);
    ClearedRooted(s, l - 1, x * ENTRIES + i, x * ENTRIES + i + 1);
    forall a, b ensures t.Apart(a, b) {
      assert s.Apart(a, b);
    }
    forall m, y | Below(l, x, x + 1, Node(m, y)) ensures t.NodeAt(ram', m, y) {
      ClearedNodeAt(s, ram, ram', l, x, i, m, y);
    }
  }

  /** What is left of a space has the pages it had. */
  ghost predicate Spared(s: Space, s': Space) {
    forall a :: a in s'.own ==> a in s.own && s'.own[a] == s.own[a]
  }

  /** All the space's pages but one have the contents they had. */
  ghost predicate Others(ram: Ram, ram': Ram, s: Space, but: Owner) {
    forall a :: a in s.own && a != but ==> SameAt(ram, ram', s.own[a])
  }

  ghost predicate SameAt(ram: Ram, ram': Ram, p: nat) {
    p in ram ==> p in ram' && ram'[p] == ram[p]
  }

  lemma PageUpOrdered(a: nat, b: nat)
    requires a <= b
    ensures PageUp(a) <= PageUp(b)
  {
  }

  /** A loop that steps through the pages below a size takes PageUp steps. */
  lemma PageUpGuard(bytes: nat, i: nat)
    ensures i * PGSIZE < bytes <==> i < PageUp(bytes)
  {
  }

  lemma PageUpExact(v: nat)
    ensures PageUp(v * PGSIZE) == v
  {
  }

  lemma GrownNone(s: Space, v: nat, want: map<nat, Want>, ram: Ram)
    ensures Grown(s, s, v, 0, want, ram)
  {
  }

  lemma GrownNow(s: Space, s1: Space, first: nat, a: nat, want: map<nat, Want>, ram: Ram, y: nat)
    requires first <= y < a && Grown(s, s1, first, a - first, want, ram)
    ensures y in s1.leaf && User(y) in s1.own
  {
    assert GrownAt(s, s1, first, a - first, want, ram, y);
  }

  lemma GrownNotYet(s: Space, s1: Space, first: nat, a: nat, want: map<nat, Want>, ram: Ram)
    requires first <= a && Grown(s, s1, first, a - first, want, ram) && a !in s.leaf && User(a) !in s.own
    ensures a !in s1.leaf && User(a) !in s1.own
  {
    assert GrownAt(s, s1, first, a - first, want, ram, a);
  }

  /** One more page. */
  lemma GrownMore(s: Space, s1: Space, s2: Space, v: nat, k: nat, n: nat, want: map<nat, Want>, m1: Mem, m2: Mem)
    requires Grown(s, s1, v, k, want, m1.ram) && Conserves(m1, s1, m2, s2) && v + k !in s1.leaf && n == k + 1
    requires User(v + k) !in s1.own && User(v + k) in s2.own
    requires v + k in want && s2.own[User(v + k)] in m2.ram && m2.ram[s2.own[User(v + k)]] == Bytes(want[v + k].data)
    requires Grows(Plus(s1, v + k, want[v + k].perm, s2.own[User(v + k)]), s2)
    ensures Grown(s, s2, v, n, want, m2.ram)
  {
    forall y ensures GrownAt(s, s2, v, n, want, m2.ram, y) {
      assert GrownAt(s, s1, v, k, want, m1.ram, y) && DataAt(m1, s1, m2, s2, y);
    }
  }

  /** More tables do not matter. */
  lemma GrownStill(s: Space, s1: Space, s2: Space, v: nat, k: nat, want: map<nat, Want>, m1: Mem, m2: Mem)
    requires Grown(s, s1, v, k, want, m1.ram) && Conserves(m1, s1, m2, s2) && Grows(s1, s2)
    ensures Grown(s, s2, v, k, want, m2.ram)
  {
    forall y ensures GrownAt(s, s2, v, k, want, m2.ram, y) {
      assert GrownAt(s, s1, v, k, want, m1.ram, y) && DataAt(m1, s1, m2, s2, y);
    }
  }

  /** Dropping the new pages again leaves at most more tables. */
  lemma GrownDropped(s: Space, s1: Space, v: nat, k: nat, want: map<nat, Want>, ram: Ram)
    requires Grown(s, s1, v, k, want, ram) && forall y :: v <= y < v + k ==> y !in s.leaf && User(y) !in s.own
    ensures Grows(s, Dropped(s1, v, k)) && Dropped(s1, v, 0) == s1
  {
    var t := Dropped(s1, v, k);
    forall y ensures (y in t.leaf <==> y in s.leaf) && (y in s.leaf ==> t.leaf[y] == s.leaf[y]) {
      assert GrownAt(s, s1, v, k, want, ram, y);
    }
    assert t.leaf == s.leaf;
    DroppedMore(s1, v, 0);
  }

  lemma ConservesSame(m: Mem, s: Space)
    ensures Conserves(m, s, m, s)
  {
  }

  /** A page set aside by the caller counts as the memory behind the page it is meant for. */
  ghost function Aside(s: Space, v: nat, p: nat): (s': Space) {
    s.(own := s.own[User(v) := p])
  }

  lemma AsideApart(s: Space, v: nat, p: nat)
    requires !s.Owns(p) && User(v) !in s.own && forall a, b :: s.Apart(a, b)
    ensures forall a, b :: Aside(s, v, p).Apart(a, b)
  {
    forall a, b ensures Aside(s, v, p).Apart(a, b) {
      assert s.Apart(a, b);
    }
  }

  /** The space with a page of memory behind v. */
  ghost function Plus(s: Space, v: nat, perm: Pte, p: nat): (s': Space) {
    Space(s.own[User(v) := p], s.leaf[v := perm.(ppn := p)])
  }
}
