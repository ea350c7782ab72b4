/**
 The heap of user/umalloc.c on values: the circular free list through the
 headers, and the tiling of the memory obtained from sbrk by free and
 allocated blocks.  Addresses count in units of sizeof(Header).  The static
 header `base` is at address BASE, below everything sbrk returns.
 */
module HeapSpec {
  import opened Common

  const BASE: int := 0

  datatype Header = Header(ptr: int, size: int)
  type Mem = map<int, Header>

  // ------------------------------------------------------------------
  // The free list

  function Succ(n: nat, i: nat): (j: nat)
    requires i < n
  {
    if i + 1 < n then i + 1 else 0
  }

  ghost predicate Sorted(fl: seq<int>) {
    |fl| > 0 && fl[0] == BASE && forall i, j :: 0 <= i < j < |fl| ==> fl[i] < fl[j]
  }

  ghost predicate LinkAt(mem: Mem, fl: seq<int>, i: nat)
    requires i < |fl|
  {
    fl[i] in mem && mem[fl[i]].ptr == fl[Succ(|fl|, i)]
  }

  /** Following ptr from the base visits fl in order and comes back. */
  ghost predicate Ring(mem: Mem, fl: seq<int>) {
    Sorted(fl) && (forall b :: b in fl ==> b in mem) && forall i: nat :: i < |fl| ==> LinkAt(mem, fl, i)
  }

  ghost function Insert(fl: seq<int>, k: nat, a: int): (r: seq<int>)
    requires k <= |fl|
    ensures |r| == |fl| + 1
    ensures forall i {:trigger r[i]} :: 0 <= i < |r| ==>
                r[i] == if i < k then fl[i] else if i == k then a else fl[i - 1]
  {
    fl[..k] + [a] + fl[k..]
  }

  /** The place of an address that is not in the list. */
  ghost predicate Gap(fl: seq<int>, k: nat, a: int) {
    0 < k <= |fl| && fl[k - 1] < a && (k < |fl| ==> a < fl[k])
  }

  /** Linking a header in behind position k - 1. */
  lemma InsertKeepsRing(mem: Mem, fl: seq<int>, k: nat, a: int, mem': Mem)
    requires Ring(mem, fl) && Gap(fl, k, a)
    requires forall b :: b in fl ==> b in mem' && (b != fl[k - 1] ==> mem'[b].ptr == mem[b].ptr)
    requires a in mem' && mem'[fl[k - 1]].ptr == a && mem'[a].ptr == mem[fl[k - 1]].ptr
    ensures Ring(mem', Insert(fl, k, a))
  {
    hide Insert;
    var r := Insert(fl, k, a);
    forall i: nat | i < |r| ensures LinkAt(mem', r, i) {
      var j := if i < k then i else i - 1;
      assert LinkAt(mem, fl, j);
      assert i != k ==> r[i] == fl[j] && fl[j] in fl;
      assert fl[k - 1] in fl;
    }
  }

  /** Unlinking the header at position k, from the one before it. */
  lemma WithoutStays(fl: seq<int>, k: nat)
    requires Sorted(fl) && k < |fl|
    ensures forall b :: b in Without(fl, k) ==> b in fl && b != fl[k]
  {
    hide Without;
    var r := Without(fl, k);
    forall b | b in r ensures b in fl && b != fl[k] {
      var i :| 0 <= i < |r| && r[i] == b;
      assert b == fl[if i < k then i else i + 1];
    }
  }

  lemma RemoveKeepsRing(mem: Mem, fl: seq<int>, k: nat, mem': Mem)
    requires Ring(mem, fl) && 0 < k < |fl|
    requires forall b :: b in fl && b != fl[k] ==> b in mem' && (b != fl[k - 1] ==> mem'[b].ptr == mem[b].ptr)
    requires mem'[fl[k - 1]].ptr == mem[fl[k]].ptr
    ensures Ring(mem', Without(fl, k))
  {
    hide Without;
    var r := Without(fl, k);
    assert forall b :: b in r ==> b in fl && b != fl[k] by {
      WithoutStays(fl, k);
    }
    forall i: nat | i < |r| ensures LinkAt(mem', r, i) {
      var j := if i < k then i else i + 1;
      assert LinkAt(mem, fl, j) && LinkAt(mem, fl, k);
      assert r[i] == fl[j] && fl[j] in fl;
    }
  }

  lemma RingFrame(mem: Mem, fl: seq<int>, mem': Mem)
    requires Ring(mem, fl) && forall b :: b in fl ==> b in mem' && mem'[b].ptr == mem[b].ptr
    ensures Ring(mem', fl)
  {
    forall i: nat | i < |fl| ensures LinkAt(mem', fl, i) {
      assert LinkAt(mem, fl, i) && fl[i] in fl;
    }
  }

  // ------------------------------------------------------------------
  // The tiling

  /** Unit u lies in the block that starts at a. */
  ghost predicate Holds(blocks: map<int, int>, a: int, u: int) {
    a in blocks && a <= u < a + blocks[a]
  }

  ghost predicate ApartAt(blocks: map<int, int>, a: int, b: int) {
    a in blocks && b in blocks && a < b ==> a + blocks[a] <= b
  }

  ghost predicate BlockAt(blocks: map<int, int>, brk: int, a: int)
    requires a in blocks
  {
    BASE < a && blocks[a] > 0 && a + blocks[a] <= brk
  }

  /** Exactly the units obtained from sbrk are in blocks, each in one. */
  ghost predicate Tiles(blocks: map<int, int>, core: set<int>, brk: int) {
    && (forall a :: a in blocks ==> BlockAt(blocks, brk, a))
    && (forall a, b :: ApartAt(blocks, a, b))
    && (forall u :: u in core <==> exists a :: Holds(blocks, a, u))
    && BASE < brk
  }

  ghost function Merged(blocks: map<int, int>, a: int, b: int): (r: map<int, int>)
    requires a in blocks && b in blocks && a != b
  {
    (blocks - {b})[a := blocks[a] + blocks[b]]
  }

  /** Two touching blocks become one. */
  lemma MergeKeepsTiles(blocks: map<int, int>, core: set<int>, brk: int, a: int, b: int)
    requires Tiles(blocks, core, brk) && a in blocks && b in blocks && a + blocks[a] == b
    ensures a != b && Tiles(Merged(blocks, a, b), core, brk)
  {
    assert BlockAt(blocks, brk, a) && BlockAt(blocks, brk, b);
    var r := Merged(blocks, a, b);
    forall c | c in r ensures BlockAt(r, brk, c) {
      assert BlockAt(blocks, brk, c);
    }
    forall c, d ensures ApartAt(r, c, d) {
      assert ApartAt(blocks, c, d) && ApartAt(blocks, b, d) && ApartAt(blocks, c, b);
    }
    forall u ensures u in core <==> exists c :: Holds(r, c, u) {
      if u in core {
        var c :| Holds(blocks, c, u);
        assert Holds(r, if c == b then a else c, u);
      }
      if c :| Holds(r, c, u) {
        assert Holds(blocks, if c == a && u >= b then b else c, u);
      }
    }
  }

  /** A block is cut in two, the second part of n units. */
  lemma SplitKeepsTiles(blocks: map<int, int>, core: set<int>, brk: int, a: int, n: int)
    requires Tiles(blocks, core, brk) && a in blocks && 0 < n < blocks[a]
    ensures var b := a + blocks[a] - n;
            b !in blocks && Tiles(blocks[a := blocks[a] - n][b := n], core, brk)
  {
    assert BlockAt(blocks, brk, a);
    var b := a + blocks[a] - n;
    assert ApartAt(blocks, a, b);
    var r := blocks[a := blocks[a] - n][b := n];
    forall c | c in r ensures BlockAt(r, brk, c) {
      assert c in blocks ==> BlockAt(blocks, brk, c);
    }
    forall c, d ensures ApartAt(r, c, d) {
      assert ApartAt(blocks, c, d) && ApartAt(blocks, a, d) && ApartAt(blocks, c, a) && ApartAt(blocks, a, c);
    }
    forall u ensures u in core <==> exists c :: Holds(r, c, u) {
      if u in core {
        var c :| Holds(blocks, c, u);
        assert Holds(r, if c == a && u >= b then b else c, u);
      }
      if c :| Holds(r, c, u) {
        assert Holds(blocks, if c == b then a else c, u);
      }
    }
  }

  ghost predicate Within(lo: int, u: int, hi: int) { lo <= u < hi }

  ghost function Units(lo: int, hi: int): (s: set<int>) {
    set u | lo <= u < hi && Within(lo, u, hi)
  }

  /** New memory from sbrk joins as one block. */
  lemma GrowKeepsTiles(blocks: map<int, int>, core: set<int>, brk: int, a: int, n: int)
    requires Tiles(blocks, core, brk) && brk <= a && 0 < n
    ensures a !in blocks && Tiles(blocks[a := n], core + Units(a, a + n), a + n)
  {
    assert a in blocks ==> BlockAt(blocks, brk, a);
    var r := blocks[a := n];
    forall c | c in r ensures BlockAt(r, a + n, c) {
      assert c in blocks ==> BlockAt(blocks, brk, c);
    }
    forall c, d ensures ApartAt(r, c, d) {
      assert ApartAt(blocks, c, d);
      assert c in blocks ==> BlockAt(blocks, brk, c);
      assert d in blocks ==> BlockAt(blocks, brk, d);
    }
    var core' := core + Units(a, a + n);
    forall u ensures u in core' <==> exists c :: Holds(r, c, u) {
      if u in core {
        var c :| Holds(blocks, c, u);
        assert Holds(r, c, u);
      } else if u in core' {
        assert Holds(r, a, u);
      }
      if c :| Holds(r, c, u) {
        assert c != a ==> Holds(blocks, c, u);
      }
    }
  }

  // ------------------------------------------------------------------
  // The heap

  /**
   mem holds the headers, fl the free list from the base, blocks all blocks
   with their sizes, core the units obtained from sbrk, all below brk.
   */
  datatype Heap = Heap(mem: Mem, fl: seq<int>, blocks: map<int, int>, core: set<int>, brk: int) {

    ghost predicate SizeAt(a: int)
      requires a in blocks
    {
      a in mem && mem[a].size == blocks[a]
    }

    /** A valid heap except that free blocks may touch. */
    ghost predicate Loose() {
      && Ring(mem, fl) && mem[BASE].size == 0 && Tiles(blocks, core, brk)
      && (forall a :: a in blocks ==> SizeAt(a))
      && (forall i :: 0 < i < |fl| ==> fl[i] in blocks)
    }

    /** The free block at position i does not touch the next one. */
    ghost predicate GapAt(i: int)
      requires 0 < i < |fl| && fl[i] in blocks
    {
      i + 1 < |fl| ==> fl[i] + blocks[fl[i]] != fl[i + 1]
    }

    ghost predicate Valid() {
      Loose() && forall i :: 0 < i < |fl| ==> GapAt(i)
    }

    /** The blocks that malloc has handed out. */
    ghost function Allocated(): (m: map<int, int>) {
      map a | a in blocks && a !in fl :: blocks[a]
    }

    /** An allocated block linked into the free list at position k. */
    ghost function Linked(k: nat, a: int): (h: Heap)
      requires Loose() && Gap(fl, k, a) && a in blocks
    {
      assert fl[k - 1] in fl;
      var p := fl[k - 1];
      this.(mem := mem[a := Header(mem[p].ptr, blocks[a])][p := Header(a, mem[p].size)], fl := Insert(fl, k, a))
    }

    lemma LinkedKeeps(k: nat, a: int)
      requires Loose() && Gap(fl, k, a) && a in blocks
      ensures Linked(k, a).Loose() && Linked(k, a).Allocated() == Allocated() - {a}
    {
      var h := Linked(k, a);
      assert fl[k - 1] in fl;
      InsertKeepsRing(mem, fl, k, a, h.mem);
      assert BlockAt(blocks, brk, a);
      forall b | b in blocks ensures h.SizeAt(b) {
        assert SizeAt(b);
      }
      LinkedAllocated(k, a);
    }

    lemma LinkedAllocated(k: nat, a: int)
      requires Loose() && Gap(fl, k, a) && a in blocks
      ensures Linked(k, a).Allocated() == Allocated() - {a}
    {
      hide Tiles, Ring, Insert;
      var h := Linked(k, a);
      forall b ensures b in h.fl <==> b == a || b in fl {
        InsertContains(fl, k, a, b);
      }
    }

    /** The free block at j takes over the touching one after it. */
    ghost function Joined(j: nat): (h: Heap)
      requires Loose() && 0 < j < |fl| - 1
    {
      assert fl[j] in fl && fl[j + 1] in fl && fl[j] != fl[j + 1];
      var a, b := fl[j], fl[j + 1];
      this.(mem := mem[a := Header(mem[b].ptr, mem[a].size + mem[b].size)],
            fl := Without(fl, j + 1), blocks := Merged(blocks, a, b))
    }

    lemma JoinedKeeps(j: nat)
      requires Loose() && 0 < j < |fl| - 1 && fl[j] + blocks[fl[j]] == fl[j + 1]
      ensures Joined(j).Loose() && Joined(j).Allocated() == Allocated()
    {
      var h, a, b := Joined(j), fl[j], fl[j + 1];
      assert a in fl && b in fl;
      RemoveKeepsRing(mem, fl, j + 1, h.mem);
      MergeKeepsTiles(blocks, core, brk, a, b);
      assert SizeAt(a) && SizeAt(b);
      forall c | c in h.blocks ensures h.SizeAt(c) {
        assert SizeAt(c);
      }
      forall c ensures c in h.fl <==> c != b && c in fl {
        RemoveContains(fl, j + 1, c);
      }
    }

    /** bp touches the free block after it. */
    ghost predicate TouchesNext(k: nat, a: int)
      requires a in blocks
    {
      k < |fl| && a + blocks[a] == fl[k]
    }

    /** The free block (or base) before it touches bp. */
    ghost predicate TouchedByPrev(k: nat, a: int)
      requires 0 < k <= |fl| && fl[k - 1] in mem
    {
      fl[k - 1] + mem[fl[k - 1]].size == a
    }

    /** free: link the block in, join it with the next, join the previous with it. */
    ghost function Freed(k: nat, a: int): (h: Heap)
      requires Loose() && Gap(fl, k, a) && a in blocks
    {
      LinkedKeeps(k, a);
      assert fl[k - 1] in fl && BlockAt(blocks, brk, a);
      var h1 := Linked(k, a);
      var h2 := if TouchesNext(k, a) then JoinNextKeeps(k, a); h1.Joined(k) else h1;
      if TouchedByPrev(k, a) then h2.Joined(k - 1) else h2
    }

    lemma JoinNextKeeps(k: nat, a: int)
      requires Loose() && Gap(fl, k, a) && a in blocks && TouchesNext(k, a)
      ensures Linked(k, a).Loose() && Linked(k, a).Joined(k).Loose()
      ensures Linked(k, a).Joined(k).Allocated() == Allocated() - {a}
    {
      LinkedKeeps(k, a);
      Linked(k, a).JoinedKeeps(k);
    }

    lemma FreedLoose(k: nat, a: int)
      requires Loose() && Gap(fl, k, a) && a in blocks
      ensures Freed(k, a).Loose() && Freed(k, a).Allocated() == Allocated() - {a}
      ensures fl[k - 1] in Freed(k, a).fl
    {
      LinkedKeeps(k, a);
      assert fl[k - 1] in fl && BlockAt(blocks, brk, a);
      var h1 := Linked(k, a);
      if TouchesNext(k, a) {
        JoinNextKeeps(k, a);
      }
      var h2 := if TouchesNext(k, a) then h1.Joined(k) else h1;
      assert h2.fl[k - 1] == fl[k - 1] && h2.fl[k] == a;
      if TouchedByPrev(k, a) {
        assert k - 1 > 0;
        assert SizeAt(fl[k - 1]);
        h2.JoinedKeeps(k - 1);
      }
      assert Freed(k, a).fl[k - 1] == fl[k - 1];
    }

    /** free keeps the heap valid, whatever it joins. */
    lemma FreedKeeps(k: nat, a: int)
      requires Valid() && Gap(fl, k, a) && a in blocks
      ensures Freed(k, a).Valid() && Freed(k, a).Allocated() == Allocated() - {a}
      ensures fl[k - 1] in Freed(k, a).fl
    {
      FreedLoose(k, a);
      var h := Freed(k, a);
      forall i | 0 < i < |h.fl| ensures h.GapAt(i) {
        FreedGap(k, a, i);
      }
    }

    /** Linking a block in leaves all gaps but those on its two sides. */
    lemma LinkedGap(k: nat, a: int, i: int)
      requires Valid() && Gap(fl, k, a) && a in blocks
      requires Linked(k, a).Loose() && 0 < i < |Linked(k, a).fl|
      ensures Linked(k, a).GapAt(i) <==>
              !(i == k && TouchesNext(k, a)) && !(i == k - 1 && fl[k - 1] + blocks[fl[k - 1]] == a)
    {
      assert i < k ==> GapAt(i);
      assert i > k ==> GapAt(i - 1);
    }

    /** Joining two blocks keeps the other gaps, and the one behind the second. */
    lemma JoinedGap(j: nat, i: int)
      requires Loose() && 0 < j < |fl| - 1 && fl[j] + blocks[fl[j]] == fl[j + 1]
      requires Joined(j).Loose() && 0 < i < |Joined(j).fl|
      ensures i < j && GapAt(i) ==> Joined(j).GapAt(i)
      ensures i >= j && GapAt(i + 1) ==> Joined(j).GapAt(i)
    {
    }

    /** After the first join, the only gap that may be missing is before the block. */
    lemma JoinedNextGap(k: nat, a: int, i: int)
      requires Valid() && Gap(fl, k, a) && a in blocks
      requires Linked(k, a).Loose() && (TouchesNext(k, a) ==> Linked(k, a).Joined(k).Loose())
      requires var h2 := if TouchesNext(k, a) then Linked(k, a).Joined(k) else Linked(k, a);
               0 < i < |h2.fl| && (i == k - 1 ==> fl[k - 1] + blocks[fl[k - 1]] != a)
      ensures var h2 := if TouchesNext(k, a) then Linked(k, a).Joined(k) else Linked(k, a);
              h2.GapAt(i)
    {
      hide Heap.GapAt, Tiles, Ring, Heap.SizeAt;
      LinkedGap(k, a, i);
      if TouchesNext(k, a) {
        Linked(k, a).JoinedGap(k, i);
        if i >= k {
          LinkedGap(k, a, i + 1);
        }
      }
    }

    /** What the heap says about the block a that goes behind position k - 1. */
    lemma LinkedPlaces(k: nat, a: int)
      requires Loose() && Gap(fl, k, a) && a in blocks
      ensures Linked(k, a).Loose() && fl[k - 1] in mem && (TouchesNext(k, a) ==> Linked(k, a).Joined(k).Loose())
      ensures var h2 := if TouchesNext(k, a) then Linked(k, a).Joined(k) else Linked(k, a);
              && k < |h2.fl| && h2.fl[k - 1] == fl[k - 1] && h2.fl[k] == a
              && (TouchedByPrev(k, a) ==> k > 1 && fl[k - 1] in blocks && fl[k - 1] in h2.blocks
                                          && h2.blocks[fl[k - 1]] == blocks[fl[k - 1]]
                                          && fl[k - 1] + blocks[fl[k - 1]] == a)
              && (k > 1 && fl[k - 1] in blocks && fl[k - 1] + blocks[fl[k - 1]] == a ==> TouchedByPrev(k, a))
    {
      LinkedKeeps(k, a);
      assert fl[k - 1] in fl && BlockAt(blocks, brk, a);
      if TouchesNext(k, a) {
        JoinNextKeeps(k, a);
      }
      assert k > 1 ==> SizeAt(fl[k - 1]);
    }

    lemma FreedGap(k: nat, a: int, i: int)
      requires Valid() && Gap(fl, k, a) && a in blocks
      requires Freed(k, a).Loose() && 0 < i < |Freed(k, a).fl|
      ensures Freed(k, a).GapAt(i)
    {
      hide Heap.GapAt, Tiles, Ring, Heap.SizeAt, Merged;
      var h1 := Linked(k, a);
      LinkedPlaces(k, a);
      if TouchesNext(k, a) {
        JoinNextKeeps(k, a);
      }
      var h2 := if TouchesNext(k, a) then h1.Joined(k) else h1;
      if TouchedByPrev(k, a) {
        h2.JoinedGap(k - 1, i);
        JoinedNextGap(k, a, if i < k - 1 then i else i + 1);
      } else {
        JoinedNextGap(k, a, i);
      }
    }

    /** The header of the block once it is linked in and joined with the next one. */
    ghost function BackHeader(k: nat, a: int): (hd: Header)
      requires Loose() && Gap(fl, k, a) && a in blocks
    {
      assert fl[k - 1] in fl && (k < |fl| ==> fl[k] in fl);
      if TouchesNext(k, a) then Header(mem[fl[k]].ptr, blocks[a] + mem[fl[k]].size)
      else Header(mem[fl[k - 1]].ptr, blocks[a])
    }

    lemma JoinedNextMem(k: nat, a: int)
      requires Loose() && Gap(fl, k, a) && a in blocks && TouchesNext(k, a)
      requires Linked(k, a).Loose() && fl[k - 1] in mem
      ensures Linked(k, a).Joined(k).mem == mem[a := BackHeader(k, a)][fl[k - 1] := Header(a, mem[fl[k - 1]].size)]
    {
      hide Tiles;
      var h := Linked(k, a);
      assert h.fl[k] == a && h.fl[k + 1] == fl[k];
      assert h.mem[fl[k]] == mem[fl[k]] by {
        assert fl[k - 1] < a < fl[k];
      }
    }

    /** The two headers that free writes. */
    lemma FreedMem(k: nat, a: int)
      requires Loose() && Gap(fl, k, a) && a in blocks && fl[k - 1] in mem
      ensures var p, hd := fl[k - 1], BackHeader(k, a);
              Freed(k, a).mem == mem[a := hd][p := if TouchedByPrev(k, a) then Header(hd.ptr, mem[p].size + hd.size)
                                                   else Header(a, mem[p].size)]
    {
      LinkedKeeps(k, a);
      if TouchesNext(k, a) {
        JoinNextKeeps(k, a);
        JoinedNextMem(k, a);
      }
      var h := if TouchesNext(k, a) then Linked(k, a).Joined(k) else Linked(k, a);
      assert h.mem == mem[a := BackHeader(k, a)][fl[k - 1] := Header(a, mem[fl[k - 1]].size)];
      assert h.fl[k - 1] == fl[k - 1] && h.fl[k] == a;
      hide Tiles, Ring, Heap.BackHeader;
    }

    lemma FreedUntouched(k: nat, a: int)
      requires Loose() && Gap(fl, k, a) && a in blocks
      ensures Untouched(this, Freed(k, a))
    {
      hide Heap.Freed, Heap.BackHeader;
      FreedLoose(k, a);
      assert fl[k - 1] in fl;
      FreedMem(k, a);
      UntouchedBy(this, Freed(k, a), a, fl[k - 1]);
    }

    /** Some free block then has room for what was freed. */
    lemma FreedRoom(k: nat, a: int) returns (i: nat)
      requires Loose() && Gap(fl, k, a) && a in blocks && Freed(k, a).Loose()
      ensures 0 < i < |Freed(k, a).fl| && Freed(k, a).blocks[Freed(k, a).fl[i]] >= blocks[a]
    {
      assert fl[k - 1] in fl && BlockAt(blocks, brk, a);
      assert k < |fl| ==> BlockAt(blocks, brk, fl[k]);
      assert k > 1 ==> SizeAt(fl[k - 1]) && BlockAt(blocks, brk, fl[k - 1]);
      LinkedKeeps(k, a);
      if TouchesNext(k, a) {
        JoinNextKeeps(k, a);
      }
      hide Tiles, Ring;
      i := if TouchedByPrev(k, a) then k - 1 else k;
    }

    // ----------------------------------------------------------------
    // malloc

    /** What the heap says about the free block at position k and the one before it. */
    lemma FreePlaces(k: nat)
      requires Loose() && 0 < k < |fl|
      ensures fl[k - 1] in fl && fl[k] in fl && fl[k - 1] in mem && fl[k] in mem && fl[k - 1] != fl[k]
      ensures fl[k] in blocks && mem[fl[k]].size == blocks[fl[k]] && BASE < fl[k]
      ensures (fl[k - 1] in blocks || fl[k - 1] == BASE) && BASE <= fl[k - 1]
      ensures k > 1 ==> fl[k - 1] in blocks && mem[fl[k - 1]].size == blocks[fl[k - 1]]
    {
      assert fl[k - 1] in fl && fl[k] in fl && SizeAt(fl[k]) && BlockAt(blocks, brk, fl[k]);
      assert k > 1 ==> SizeAt(fl[k - 1]) && BlockAt(blocks, brk, fl[k - 1]);
    }

    /** The free block at position k handed out whole. */
    ghost function Taken(k: nat): (h: Heap)
      requires Loose() && 0 < k < |fl|
    {
      assert fl[k] in fl && fl[k - 1] in fl;
      var p := fl[k - 1];
      this.(mem := mem[p := Header(mem[fl[k]].ptr, mem[p].size)], fl := Without(fl, k))
    }

    lemma TakenKeeps(k: nat)
      requires Valid() && 0 < k < |fl|
      ensures Taken(k).Valid() && Taken(k).Allocated() == Allocated()[fl[k] := blocks[fl[k]]]
      ensures fl[k - 1] in Taken(k).fl
    {
      var h := Taken(k);
      assert fl[k] in fl && fl[k - 1] in fl;
      RemoveKeepsRing(mem, fl, k, h.mem);
      assert BlockAt(blocks, brk, fl[k]);
      assert k > 1 ==> ApartAt(blocks, fl[k - 1], fl[k]);
      forall b | b in blocks ensures h.SizeAt(b) {
        assert SizeAt(b);
      }
      forall i | 0 < i < |h.fl| ensures h.GapAt(i) {
        assert GapAt(if i < k then i else i + 1);
      }
      TakenAllocated(k);
    }

    lemma TakenAllocated(k: nat)
      requires Loose() && 0 < k < |fl|
      ensures Taken(k).Allocated() == Allocated()[fl[k] := blocks[fl[k]]]
      ensures fl[k - 1] in Taken(k).fl
    {
      hide Tiles, Without;
      var h := Taken(k);
      forall b ensures b in h.fl <==> b != fl[k] && b in fl {
        RemoveContains(fl, k, b);
      }
      assert fl[k] in fl && fl[k - 1] in fl;
    }

    /** The last n units of the free block at position k handed out. */
    ghost function Cut(k: nat, n: int): (h: Heap)
      requires Loose() && 0 < k < |fl| && 0 < n < blocks[fl[k]]
    {
      assert fl[k] in fl;
      var p := fl[k];
      var b := p + blocks[p] - n;
      this.(mem := Sized(Sized(mem, p, mem[p].size - n), b, n), blocks := blocks[p := blocks[p] - n][b := n])
    }

    lemma CutKeeps(k: nat, n: int)
      requires Valid() && 0 < k < |fl| && 0 < n < blocks[fl[k]]
      ensures var b := fl[k] + blocks[fl[k]] - n;
              Cut(k, n).Valid() && b !in blocks && Cut(k, n).Allocated() == Allocated()[b := n]
    {
      var h, p := Cut(k, n), fl[k];
      var b := p + blocks[p] - n;
      assert p in fl;
      SplitKeepsTiles(blocks, core, brk, p, n);
      assert BlockAt(blocks, brk, p);
      assert b !in fl by {
        assert forall i :: 0 < i < |fl| ==> fl[i] in blocks;
      }
      RingFrame(mem, fl, h.mem);
      forall c | c in h.blocks ensures h.SizeAt(c) {
        assert c in blocks ==> SizeAt(c);
        assert SizeAt(p);
      }
      forall i | 0 < i < |fl| ensures h.GapAt(i) {
        assert GapAt(i);
        assert i + 1 < |fl| ==> ApartAt(blocks, fl[i], fl[i + 1]);
      }
    }

    /** sbrk: n new units at a, handed out as one block. */
    ghost function Grown(a: int, n: int): (h: Heap) {
      this.(mem := Sized(mem, a, n), blocks := blocks[a := n], core := core + Units(a, a + n), brk := a + n)
    }

    lemma GrownKeeps(a: int, n: int)
      requires Valid() && brk <= a && 0 < n
      ensures Grown(a, n).Valid() && a !in blocks && Grown(a, n).Allocated() == Allocated()[a := n]
    {
      var h := Grown(a, n);
      GrowKeepsTiles(blocks, core, brk, a, n);
      forall i | 0 <= i < |fl| ensures fl[i] != a {
        assert i > 0 ==> BlockAt(blocks, brk, fl[i]);
      }
      RingFrame(mem, fl, h.mem);
      forall c | c in h.blocks ensures h.SizeAt(c) {
        assert c in blocks ==> SizeAt(c);
      }
      forall i | 0 < i < |fl| ensures h.GapAt(i) {
        assert GapAt(i);
      }
    }

    /** An allocated block has a place in the free list. */
    lemma PlaceOf(a: int) returns (k: nat)
      requires Loose() && a in Allocated()
      ensures Gap(fl, k, a)
    {
      assert BlockAt(blocks, brk, a);
      k := 1;
      while k < |fl| && fl[k] < a
        invariant 0 < k <= |fl| && fl[k - 1] < a
      {
        k := k + 1;
      }
      assert k < |fl| ==> fl[k] in fl;
    }

    /** Writing inside a block, behind its header, disturbs nothing. */
    lemma StoreKeeps(a: int, u: int, v: Header)
      requires Valid() && a in blocks && a < u < a + blocks[a]
      ensures this.(mem := mem[u := v]).Valid()
    {
      var h := this.(mem := mem[u := v]);
      assert u !in blocks by {
        assert ApartAt(blocks, a, u);
      }
      assert BlockAt(blocks, brk, a);
      assert u !in fl by {
        if i :| 0 <= i < |fl| && fl[i] == u {
          assert i > 0 ==> fl[i] in blocks;
        }
      }
      RingFrame(mem, fl, h.mem);
      forall c | c in blocks ensures h.SizeAt(c) {
        assert SizeAt(c);
      }
      forall i | 0 < i < |fl| ensures h.GapAt(i) {
        assert GapAt(i);
      }
    }
  }

  /** Writing only the size field of a header. */
  function Sized(mem: Mem, a: int, n: int): (r: Mem) {
    mem[a := Header(if a in mem then mem[a].ptr else BASE, n)]
  }

  /** The memory of blocks allocated in both heaps, headers included, is the same. */
  ghost predicate Untouched(h: Heap, h': Heap) {
    forall a, u :: a in h.Allocated() && a in h'.Allocated() && Holds(h.blocks, a, u) ==> SameAt(h.mem, h'.mem, u)
  }

  ghost predicate SameAt(m: Mem, m': Mem, u: int) {
    (u in m <==> u in m') && (u in m ==> m[u] == m'[u])
  }

  /** No block holds the header of another block or the base. */
  lemma HeadersApart(h: Heap, a: int, x: int)
    requires Tiles(h.blocks, h.core, h.brk) && (x in h.blocks || x <= BASE || x >= h.brk) && a != x
    ensures !Holds(h.blocks, a, x)
  {
    assert a in h.blocks ==> BlockAt(h.blocks, h.brk, a);
    assert ApartAt(h.blocks, a, x);
  }

  /** Headers of blocks that are not allocated in both heaps may be written. */
  lemma UntouchedBy(h: Heap, h': Heap, x: int, y: int)
    requires Tiles(h.blocks, h.core, h.brk)
    requires x in h.blocks || x <= BASE || x >= h.brk
    requires y in h.blocks || y <= BASE || y >= h.brk
    requires x !in h.Allocated() || x !in h'.Allocated()
    requires y !in h.Allocated() || y !in h'.Allocated()
    requires forall u :: u != x && u != y ==> SameAt(h.mem, h'.mem, u)
    ensures Untouched(h, h')
  {
    forall a, u | a in h.Allocated() && a in h'.Allocated() && Holds(h.blocks, a, u) ensures SameAt(h.mem, h'.mem, u) {
      HeadersApart(h, a, x);
      HeadersApart(h, a, y);
    }
  }

  lemma CutUntouched(h: Heap, k: nat, n: int)
    requires h.Valid() && 0 < k < |h.fl| && 0 < n < h.blocks[h.fl[k]]
    ensures Untouched(h, h.Cut(k, n))
  {
    var p, h' := h.fl[k], h.Cut(k, n);
    var b := p + h.blocks[p] - n;
    assert p in h.fl;
    assert BlockAt(h.blocks, h.brk, p);
    forall a, u | a in h.Allocated() && a in h'.Allocated() && Holds(h.blocks, a, u) ensures SameAt(h.mem, h'.mem, u) {
      assert ApartAt(h.blocks, a, p) && ApartAt(h.blocks, p, a);
    }
  }

  lemma UntouchedSelf(h: Heap)
    ensures Untouched(h, h)
  {
    forall a, u | a in h.Allocated() && Holds(h.blocks, a, u) ensures SameAt(h.mem, h.mem, u) {
    }
  }

  lemma UntouchedTwice(h0: Heap, h1: Heap, h2: Heap)
    requires Untouched(h0, h1) && Untouched(h1, h2)
    requires forall a :: a in h0.Allocated() && a in h2.Allocated() ==>
               a in h1.Allocated() && h0.Allocated()[a] == h1.Allocated()[a]
    ensures Untouched(h0, h2)
  {
    forall a, u | a in h0.Allocated() && a in h2.Allocated() && Holds(h0.blocks, a, u)
      ensures SameAt(h0.mem, h2.mem, u)
    {
      assert Holds(h1.blocks, a, u);
      assert SameAt(h0.mem, h1.mem, u) && SameAt(h1.mem, h2.mem, u);
    }
  }

  lemma InsertContains(fl: seq<int>, k: nat, a: int, b: int)
    requires k <= |fl|
    ensures b in Insert(fl, k, a) <==> b == a || b in fl
  {
    var r := Insert(fl, k, a);
    assert r[k] == a;
    if b in fl {
      var i :| 0 <= i < |fl| && fl[i] == b;
      assert r[if i < k then i else i + 1] == b;
    }
  }

  lemma RemoveContains(fl: seq<int>, k: nat, b: int)
    requires k < |fl| && forall i, j :: 0 <= i < j < |fl| ==> fl[i] < fl[j]
    ensures b in Without(fl, k) <==> b != fl[k] && b in fl
  {
    var r := Without(fl, k);
    if b in fl && b != fl[k] {
      var i :| 0 <= i < |fl| && fl[i] == b;
      assert r[if i < k then i else i - 1] == b;
    }
  }
}
