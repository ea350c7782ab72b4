/**
 Sv39 page tables (section 4.4 of the RISC-V privileged architecture) as
 kernel/vm.c builds them, on values: a tree of table pages in physical memory,
 and the flat map from virtual page numbers to leaf entries it stands for.
 Addresses are page numbers.
 */
module PageSpec {
  import opened Common

  const ENTRIES: nat := 512

  /** A page-table entry: valid, readable, writable, executable, user, and the page it names. */
  datatype Pte = Pte(v: bool, r: bool, w: bool, x: bool, u: bool, ppn: nat) {
    predicate Leaf() { v && (r || w || x) }
  }

  const NONE := Pte(false, false, false, false, false, 0)

  function Dir(p: nat): (e: Pte) { Pte(true, false, false, false, false, p) }

  /** A page of physical memory: a table, data, or a free page linked to the next (-1: none). */
  datatype Page = Table(slots: seq<Pte>) | Bytes(data: seq<Byte>) | Run(next: int)

  type Ram = map<nat, Page>

  function Zeros(): (t: seq<Pte>)
    ensures |t| == ENTRIES && forall i :: 0 <= i < ENTRIES ==> t[i] == NONE
  {
    seq(ENTRIES, _ => NONE)
  }

  /** Why a page is in use: the table for prefix x at a level, or the memory behind a virtual page. */
  datatype Owner = Node(level: nat, x: nat) | User(vpn: nat)

  /** The prefix of a virtual page that selects the table at a level. */
  function Prefix(vpn: nat, level: nat): (x: nat)
  {
    if level == 0 then vpn / ENTRIES else Prefix(vpn, level - 1) / ENTRIES
  }

  /** PX: the index in that table. */
  function Index(vpn: nat, level: nat): (i: nat)
    ensures i < ENTRIES
  {
    if level == 0 then vpn % ENTRIES else Prefix(vpn, level - 1) % ENTRIES
  }

  /** MAXVA in pages; the tables could hold twice as many. */
  const MAXVPN: nat := 0x400_0000

  lemma TopPrefix(vpn: nat)
    requires vpn < 2 * MAXVPN
    ensures Prefix(vpn, 2) == 0
  {
    assert Prefix(vpn, 0) < 2 * MAXVPN / ENTRIES;
    assert Prefix(vpn, 1) == Prefix(vpn, 0) / ENTRIES;
    assert Prefix(vpn, 2) == Prefix(vpn, 1) / ENTRIES;
  }

  /** The three indices determine the page: different pages have different slots. */
  lemma IndicesDetermine(a: nat, b: nat)
    requires a < 2 * MAXVPN && b < 2 * MAXVPN
    requires forall level :: 0 <= level <= 2 ==> Index(a, level) == Index(b, level)
    ensures a == b
  {
    TopPrefix(a);
    TopPrefix(b);
    PrefixesAgree(a, b, 1);
    PrefixesAgree(a, b, 0);
    assert Index(a, 0) == Index(b, 0);
  }

  lemma PrefixesAgree(a: nat, b: nat, level: nat)
    requires Prefix(a, level + 1) == Prefix(b, level + 1) && Index(a, level + 1) == Index(b, level + 1)
    ensures Prefix(a, level) == Prefix(b, level)
  {
  }

  /** The prefix, at level l, above the table (m, y). */
  ghost function Above(m: nat, y: nat, l: nat): (x: nat)
    decreases l - m
  {
    if m >= l then y else Above(m + 1, y / ENTRIES, l)
  }

  lemma {:induction false} AboveMore(m: nat, y: nat, l: nat)
    requires m <= l
    ensures Above(m, y, l + 1) == Above(m, y, l) / ENTRIES
    decreases l - m
  {
    if m < l {
      AboveMore(m + 1, y / ENTRIES, l);
    } else {
      assert Above(m + 1, y / ENTRIES, l + 1) == y / ENTRIES;
    }
  }

  /** A table in one of the subtrees lo .. hi at level l. */
  ghost predicate Below(l: nat, lo: nat, hi: nat, a: Owner) {
    a.Node? && a.level <= l && lo <= Above(a.level, a.x, l) < hi
  }

  datatype Space = Space(own: map<Owner, nat>, leaf: map<nat, Pte>) {

    /** What slot i of the table (l, x) holds. */
    ghost function Entry(l: nat, x: nat, i: nat): (e: Pte) {
      var y := x * ENTRIES + i;
      if l == 0 then (if y in leaf then leaf[y] else NONE)
      else if Node(l - 1, y) in own then Dir(own[Node(l - 1, y)]) else NONE
    }

    ghost predicate SlotAt(ram: Ram, l: nat, x: nat, i: nat)
      requires Node(l, x) in own && own[Node(l, x)] in ram
    {
      var p := ram[own[Node(l, x)]];
      p.Table? && |p.slots| == ENTRIES && (i < ENTRIES ==> p.slots[i] == Entry(l, x, i))
    }

    /** A table hangs below its parent and holds exactly its children. */
    ghost predicate NodeAt(ram: Ram, l: nat, x: nat) {
      Node(l, x) in own ==>
        && l <= 2 && (l == 2 ==> x == 0) && (l < 2 ==> Node(l + 1, x / ENTRIES) in own)
        && own[Node(l, x)] in ram && forall i: nat :: SlotAt(ram, l, x, i)
    }

    ghost predicate LeafAt(v: nat) {
      && (v in leaf ==> leaf[v].Leaf() && Node(0, v / ENTRIES) in own)
      && (User(v) in own ==> v in leaf && leaf[v].ppn == own[User(v)])
    }

    /** Pages that are not mapped have no user page. */
    lemma Unmapped(ram: Ram, lo: nat, hi: nat)
      requires Valid(ram) && forall y :: lo <= y < hi ==> y !in leaf
      ensures Node(2, 0) in own && forall y :: lo <= y < hi ==> User(y) !in own
    {
      forall y | lo <= y < hi ensures User(y) !in own {
        assert LeafAt(y);
      }
    }

    ghost predicate Apart(a: Owner, b: Owner) {
      a in own && b in own && a != b ==> own[a] != own[b]
    }

    /** The tree in memory is the flat map; no page has two uses. */
    ghost predicate Valid(ram: Ram) {
      && Node(2, 0) in own
      && (forall l, x :: NodeAt(ram, l, x))
      && (forall v :: LeafAt(v))
      && (forall a, b :: Apart(a, b))
    }

    ghost predicate RootedAt(l: nat, x: nat) {
      Node(l, x) in own ==> l <= 2 && (l == 2 ==> x == 0) && (l < 2 ==> Node(l + 1, x / ENTRIES) in own)
    }

    /** Every table has its parent, up to the root. */
    ghost predicate Rooted() {
      forall l, x :: RootedAt(l, x)
    }

    /** No table has descendants without itself. */
    lemma {:induction false} NoneBelow(l: nat, x: nat, m: nat, y: nat)
      requires Rooted() && l <= 2 && Node(l, x) !in own && Node(m, y) in own
      ensures !Below(l, x, x + 1, Node(m, y))
      decreases l - m
    {
      if m < l {
        assert RootedAt(m, y);
        NoneBelow(l, x, m + 1, y / ENTRIES);
      }
    }

    /** All tables are below the root. */
    lemma {:induction false} AllBelow(m: nat, y: nat)
      requires Rooted() && Node(m, y) in own
      ensures Below(2, 0, 1, Node(m, y))
      decreases 2 - m
    {
      assert RootedAt(m, y);
      if m < 2 {
        AllBelow(m + 1, y / ENTRIES);
      }
    }

    ghost predicate Owns(p: nat) { exists a :: a in own && own[a] == p }

    /** A page that is not mapped has no memory of its own. */
    lemma NotOwned(ram: Ram, v: nat)
      requires Valid(ram) && v !in leaf
      ensures User(v) !in own
    {
      assert LeafAt(v);
    }

    lemma OwnsMore(a: Owner, p: nat, s: Space, q: nat)
      requires a !in own && s.own == own[a := p]
      ensures s.Owns(q) <==> Owns(q) || q == p
    {
      if Owns(q) {
        var b :| b in own && own[b] == q;
        assert s.own[b] == q;
      }
      assert s.own[a] == p;
    }

    lemma OwnsLess(a: Owner, s: Space, q: nat)
      requires a in own && s.own == own - {a} && forall a, b :: Apart(a, b)
      ensures s.Owns(q) <==> Owns(q) && q != own[a]
    {
      if b :| b in s.own && s.own[b] == q {
        assert own[b] == q && Apart(a, b);
      }
      if b :| b in own && own[b] == q && q != own[a] {
        assert s.own[b] == q;
      }
    }

    ghost predicate OwnsTable(p: nat) { exists l, x :: Node(l, x) in own && own[Node(l, x)] == p }

    /** Only the pages a space owns matter to it. */
    lemma Frame(ram: Ram, ram': Ram)
      requires Valid(ram) && forall a :: a in own && own[a] in ram ==> own[a] in ram' && ram'[own[a]] == ram[own[a]]
      ensures Valid(ram')
    {
      forall l, x ensures NodeAt(ram', l, x) {
        assert NodeAt(ram, l, x);
        if Node(l, x) in own {
          forall i: nat ensures SlotAt(ram', l, x, i) {
            assert SlotAt(ram, l, x, i);
          }
        }
      }
    }

    /** This space is s with the memory behind v lent rather than owned; that memory may change. */
    lemma LentFrame(s: Space, v: nat, ram: Ram, ram': Ram)
      requires s.Valid(ram) && User(v) in s.own && own == s.own - {User(v)} && leaf == s.leaf
      requires forall q :: q in ram && q != s.own[User(v)] ==> q in ram' && ram'[q] == ram[q]
      ensures Valid(ram')
    {
      forall a, b ensures Apart(a, b) {
        assert s.Apart(a, b);
      }
      forall y ensures LeafAt(y) {
        assert s.LeafAt(y);
      }
      forall l, x ensures NodeAt(ram', l, x) {
        assert s.NodeAt(ram, l, x) && s.Apart(Node(l, x), User(v));
        if Node(l, x) in own {
          forall i: nat ensures SlotAt(ram', l, x, i) {
            assert s.SlotAt(ram, l, x, i);
          }
        }
      }
    }

    // ----------------------------------------------------------------
    // walk with allocation: a new, empty table

    ghost function WithNode(l: nat, x: nat, p: nat): (s: Space) {
      this.(own := own[Node(l, x) := p])
    }

    lemma WithNodeKeeps(ram: Ram, l: nat, x: nat, p: nat, ram': Ram)
      requires Valid(ram) && l < 2 && Node(l, x) !in own && Node(l + 1, x / ENTRIES) in own && !Owns(p)
      requires var q := own[Node(l + 1, x / ENTRIES)];
               && q in ram && ram[q].Table? && |ram[q].slots| == ENTRIES
               && ram' == ram[p := Table(Zeros())][q := Table(ram[q].slots[x % ENTRIES := Dir(p)])]
      ensures WithNode(l, x, p).Valid(ram')
    {
      var s := WithNode(l, x, p);
      forall a, b ensures s.Apart(a, b) {
        assert Apart(a, b);
      }
      forall v ensures s.LeafAt(v) {
        assert LeafAt(v);
      }
      forall m, y ensures s.NodeAt(ram', m, y) {
        WithNodeAt(ram, l, x, p, ram', m, y);
      }
    }

    lemma WithNodeAt(ram: Ram, l: nat, x: nat, p: nat, ram': Ram, m: nat, y: nat)
      requires Valid(ram) && l < 2 && Node(l, x) !in own && Node(l + 1, x / ENTRIES) in own && !Owns(p)
      requires var q := own[Node(l + 1, x / ENTRIES)];
               && q in ram && ram[q].Table? && |ram[q].slots| == ENTRIES
               && ram' == ram[p := Table(Zeros())][q := Table(ram[q].slots[x % ENTRIES := Dir(p)])]
      ensures WithNode(l, x, p).NodeAt(ram', m, y)
    {
      var s := WithNode(l, x, p);
      assert NodeAt(ram, m, y);
      if Node(m, y) == Node(l, x) {
        forall i: nat ensures s.SlotAt(ram', m, y, i) {
          NoChildren(ram, l, x, i);
        }
      } else if Node(m, y) in own {
        assert Apart(Node(m, y), Node(l + 1, x / ENTRIES));
        forall i: nat ensures s.SlotAt(ram', m, y, i) {
          assert SlotAt(ram, m, y, i);
        }
      }
    }

    /** Below a table that is not there, there is nothing. */
    lemma NoChildren(ram: Ram, l: nat, x: nat, i: nat)
      requires Valid(ram) && Node(l, x) !in own && l <= 2
      ensures i < ENTRIES ==> Entry(l, x, i) == NONE
    {
      var y := x * ENTRIES + i;
      assert LeafAt(y);
      if l > 0 {
        assert NodeAt(ram, l - 1, y);
      }
    }

    // ----------------------------------------------------------------
    // leaf entries

    ghost function WithLeaf(v: nat, e: Pte): (s: Space) {
      this.(leaf := leaf[v := e])
    }

    ghost function WithoutLeaf(v: nat): (s: Space) {
      Space(own - {User(v)}, leaf - {v})
    }

    /** The slot of v in the level-0 table replaced. */
    ghost function Stored(ram: Ram, v: nat, e: Pte): (ram': Ram)
      requires Valid(ram) && Node(0, v / ENTRIES) in own
    {
      assert NodeAt(ram, 0, v / ENTRIES) && SlotAt(ram, 0, v / ENTRIES, 0);
      var p := own[Node(0, v / ENTRIES)];
      ram[p := Table(ram[p].slots[v % ENTRIES := e])]
    }

    /** If s differs from this space only in the leaf v, so does its tree. */
    lemma StoredKeeps(ram: Ram, v: nat, e: Pte, s: Space)
      requires Valid(ram) && Node(0, v / ENTRIES) in own
      requires forall a :: a != User(v) ==> (a in s.own <==> a in own) && (a in own ==> s.own[a] == own[a])
      requires User(v) in s.own ==> User(v) in own && s.own[User(v)] == own[User(v)]
      requires forall y :: y != v ==> (y in s.leaf <==> y in leaf) && (y in leaf ==> s.leaf[y] == leaf[y])
      requires s.LeafAt(v) && e == if v in s.leaf then s.leaf[v] else NONE
      ensures s.Valid(Stored(ram, v, e))
    {
      var ram' := Stored(ram, v, e);
      forall a, b ensures s.Apart(a, b) {
        assert Apart(a, b);
      }
      forall y ensures s.LeafAt(y) {
        assert LeafAt(y);
      }
      forall l, x ensures s.NodeAt(ram', l, x) {
        assert NodeAt(ram, l, x) && Apart(Node(l, x), Node(0, v / ENTRIES));
        if Node(l, x) in own {
          forall i: nat ensures s.SlotAt(ram', l, x, i) {
            assert SlotAt(ram, l, x, i);
          }
        }
      }
    }

    /** A mapped page becomes the space's own. */
    lemma AdoptKeeps(ram: Ram, v: nat, p: nat)
      requires Valid(ram) && v in leaf && leaf[v].ppn == p && !Owns(p)
      ensures this.(own := own[User(v) := p]).Valid(ram)
    {
      var s := this.(own := own[User(v) := p]);
      forall a, b ensures s.Apart(a, b) {
        assert Apart(a, b);
      }
      forall y ensures s.LeafAt(y) {
        assert LeafAt(y);
      }
      forall l, x ensures s.NodeAt(ram, l, x) {
        assert NodeAt(ram, l, x);
        if Node(l, x) in own {
          forall i: nat ensures s.SlotAt(ram, l, x, i) {
            assert SlotAt(ram, l, x, i);
          }
        }
      }
    }
  }

  // ------------------------------------------------------------------
  // freewalk

  /** The space without the tables of some subtrees. */
  ghost function Cleared(s: Space, l: nat, lo: nat, hi: nat): (s': Space) {
    s.(own := map a | a in s.own && !Below(l, lo, hi, a) :: s.own[a])
  }

  lemma ClearedNone(s: Space, l: nat, x: nat)
    requires s.Rooted() && l <= 2 && Node(l, x) !in s.own
    ensures Cleared(s, l, x, x + 1) == s
  {
    forall a | a in s.own ensures !Below(l, x, x + 1, a) {
      if a.Node? {
        s.NoneBelow(l, x, a.level, a.x);
      }
    }
    assert Cleared(s, l, x, x + 1).own == s.own;
  }

  lemma ClearedMore(s: Space, l: nat, lo: nat, hi: nat)
    requires lo <= hi
    ensures Cleared(Cleared(s, l, lo, hi), l, hi, hi + 1) == Cleared(s, l, lo, hi + 1)
    ensures Cleared(s, l, lo, lo) == s
  {
    assert Cleared(Cleared(s, l, lo, hi), l, hi, hi + 1).own == Cleared(s, l, lo, hi + 1).own;
    assert Cleared(s, l, lo, lo).own == s.own;
  }

  /** The tables below (l, x) other than itself. */
  ghost function Childless(s: Space, l: nat, x: nat, i: nat): (s': Space) {
    if l == 0 then s else Cleared(s, l - 1, x * ENTRIES, x * ENTRIES + i)
  }

  lemma ChildlessMore(s: Space, l: nat, x: nat, i: nat)
    ensures var t, c := Childless(s, l, x, i), x * ENTRIES + i;
            Childless(s, l, x, i + 1) == if l == 0 then t else Cleared(t, l - 1, c, c + 1)
    ensures Childless(s, l, x, 0) == s
  {
    if l > 0 {
      ClearedMore(s, l - 1, x * ENTRIES, x * ENTRIES);
      ClearedMore(s, l - 1, x * ENTRIES, x * ENTRIES + i);
    }
  }

  lemma ClearedStep(s: Space, l: nat, x: nat)
    ensures var t := Childless(s, l, x, ENTRIES);
            Cleared(s, l, x, x + 1) == t.(own := t.own - {Node(l, x)})
  {
    var t := Childless(s, l, x, ENTRIES);
    forall a | a in s.own ensures a in Cleared(s, l, x, x + 1).own <==> a in t.own && a != Node(l, x) {
      if a.Node? && a.level < l {
        AboveMore(a.level, a.x, l - 1);
      }
    }
    assert Cleared(s, l, x, x + 1).own == t.own - {Node(l, x)};
  }

  /** A child's subtree is part of its parent's. */
  lemma BelowParent(l: nat, c: nat, a: Owner)
    requires l > 0 && Below(l - 1, c, c + 1, a)
    ensures Below(l, c / ENTRIES, c / ENTRIES + 1, a)
  {
    AboveMore(a.level, a.x, l - 1);
  }

  lemma ClearedRooted(s: Space, l: nat, lo: nat, hi: nat)
    requires s.Rooted() && l <= 1
    ensures Cleared(s, l, lo, hi).Rooted()
  {
    var t := Cleared(s, l, lo, hi);
    forall m, y ensures t.RootedAt(m, y) {
      assert s.RootedAt(m, y);
    }
  }

  /** Freeing the child i of (l, x) and clearing its slot keeps the rest of the subtree in order. */
  lemma ClearedNodeAt(s: Space, ram: Ram, ram': Ram, l: nat, x: nat, i: nat, m: nat, y: nat)
    requires 0 < l <= 2 && i < ENTRIES && s.Rooted() && s.NodeAt(ram, m, y) && Node(l, x) in s.own
    requires Below(l, x, x + 1, Node(m, y)) && (forall a, b :: s.Apart(a, b))
    requires var p, t := s.own[Node(l, x)], Cleared(s, l - 1, x * ENTRIES + i, x * ENTRIES + i + 1);
             && (forall a :: a in t.own && a != Node(l, x) && t.own[a] in ram ==>
                   t.own[a] in ram' && ram'[t.own[a]] == ram[t.own[a]])
             && p in ram && p in ram' && ram[p].Table? && |ram[p].slots| == ENTRIES
             && ram'[p] == Table(ram[p].slots[i := NONE])
    ensures Cleared(s, l - 1, x * ENTRIES + i, x * ENTRIES + i + 1).NodeAt(ram', m, y)
  {
    var c := x * ENTRIES + i;
    var t := Cleared(s, l - 1, c, c + 1);
    if Node(m, y) in t.own {
      ClearedRooted(s, l - 1, c, c + 1);
      assert t.RootedAt(m, y);
      forall j: nat ensures t.SlotAt(ram', m, y, j) {
        assert s.SlotAt(ram, m, y, j);
        if j < ENTRIES {
          ClearedEntry(s, l, x, i, m, y, j);
        }
      }
    }
  }

  lemma ClearedEntry(s: Space, l: nat, x: nat, i: nat, m: nat, y: nat, j: nat)
    requires 0 < l <= 2 && i < ENTRIES && j < ENTRIES && m <= l && (m == l ==> y == x)
    requires var c := x * ENTRIES + i; !Below(l - 1, c, c + 1, Node(m, y))
    ensures var c := x * ENTRIES + i;
            Cleared(s, l - 1, c, c + 1).Entry(m, y, j) == if m == l && j == i then NONE else s.Entry(m, y, j)
  {
    if m > 0 {
      var child := y * ENTRIES + j;
      assert child / ENTRIES == y;
      assert m < l ==> Above(m - 1, child, l - 1) == Above(m, y, l - 1);
    }
  }

  // ------------------------------------------------------------------
  // Translation

  /** One step of a table walk in memory: the entry for vpn in a table page. */
  function EntryIn(ram: Ram, p: nat, vpn: nat, level: nat): (e: Pte) {
    if p in ram && ram[p].Table? && |ram[p].slots| == ENTRIES then ram[p].slots[Index(vpn, level)] else NONE
  }

  /** The hardware's walk from the root: the leaf entry for a page, or NONE. */
  function Translate(ram: Ram, root: nat, vpn: nat): (e: Pte) {
    var e2 := EntryIn(ram, root, vpn, 2);
    if !e2.v || e2.Leaf() then NONE else
    var e1 := EntryIn(ram, e2.ppn, vpn, 1);
    if !e1.v || e1.Leaf() then NONE else EntryIn(ram, e1.ppn, vpn, 0)
  }

  /** The entry found in memory is the one the space says. */
  lemma EntryFound(s: Space, ram: Ram, vpn: nat, l: nat)
    requires s.Valid(ram) && l <= 2 && Node(l, Prefix(vpn, l)) in s.own
    ensures EntryIn(ram, s.own[Node(l, Prefix(vpn, l))], vpn, l) == s.Entry(l, Prefix(vpn, l), Index(vpn, l))
    ensures Prefix(vpn, l) * ENTRIES + Index(vpn, l) == if l == 0 then vpn else Prefix(vpn, l - 1)
  {
    assert s.NodeAt(ram, l, Prefix(vpn, l)) && s.SlotAt(ram, l, Prefix(vpn, l), Index(vpn, l));
  }

  /** The three-level walk is the flat map. */
  lemma TranslateIsLeaf(s: Space, ram: Ram, vpn: nat)
    requires s.Valid(ram) && vpn < 2 * MAXVPN
    ensures Translate(ram, s.own[Node(2, 0)], vpn) == if vpn in s.leaf then s.leaf[vpn] else NONE
  {
    TopPrefix(vpn);
    EntryFound(s, ram, vpn, 2);
    assert s.LeafAt(vpn) && s.NodeAt(ram, 0, Prefix(vpn, 0));
    if Node(1, Prefix(vpn, 1)) in s.own {
      EntryFound(s, ram, vpn, 1);
      if Node(0, Prefix(vpn, 0)) in s.own {
        EntryFound(s, ram, vpn, 0);
      }
    }
  }
}
