/**
 user/umalloc.c: malloc and free over memory obtained from sbrk.
 */
module Umalloc {
  import opened HeapSpec

  const NULL: int := -1
  /** sizeof(Header), and the least number of headers asked of sbrk. */
  const UNIT: int := 16
  const MIN_UNITS: int := 4096

  /** What sbrk says: a failure, or the address (in units) of the new memory. */
  datatype Sbrk = Fails | Grants(at: int)

  /** What malloc does: a null pointer, the header of a block, or a request that sbrk's int cannot carry. */
  datatype Outcome = Null | Ptr(head: int) | Overrun

  /** Conversion to a 32-bit signed int. */
  function Int32(x: int): (r: int)
    ensures -0x8000_0000 <= r < 0x8000_0000 && (x - r) % 0x1_0000_0000 == 0
  {
    var w := x % 0x1_0000_0000;
    if w < 0x8000_0000 then w else w - 0x1_0000_0000
  }

  /** Headers that malloc needs for a request, its own included. */
  function UnitsFor(nbytes: nat): (n: int)
    ensures n >= 1 && (n - 1) * UNIT >= nbytes && (n > 1 ==> (n - 2) * UNIT < nbytes)
  {
    (nbytes + UNIT - 1) / UNIT + 1
  }

  function CoreUnits(nunits: int): (n: int) {
    if nunits < MIN_UNITS then MIN_UNITS else nunits
  }

  /** Exactly these requests reach sbrk unharmed by its int parameter. */
  lemma RequestReachesSbrk(nbytes: nat)
    requires nbytes < 0x1_0000_0000
    ensures var bytes := CoreUnits(UnitsFor(nbytes)) * UNIT;
            Int32(bytes) == bytes <==> nbytes <= 0x8000_0000 - 2 * UNIT
  {
    var n := UnitsFor(nbytes);
    assert n >= 0x800_0000 <==> nbytes > 0x8000_0000 - 2 * UNIT;
  }

  /** The positions strictly between f and k, going round. */
  ghost predicate Passed(f: nat, i: nat, k: nat) {
    if f < k then f < i < k else i > f || i < k
  }

  class Allocator {
    var mem: Mem
    var freep: int
    ghost var fl: seq<int>
    ghost var blocks: map<int, int>
    ghost var core: set<int>
    ghost var brk: int

    ghost function H(): (h: Heap)
      reads this
    {
      Heap(mem, fl, blocks, core, brk)
    }

    ghost predicate Valid()
      reads this
    {
      && BASE < brk
      && if freep == NULL then fl == [] && blocks == map[] && core == {} else H().Valid() && freep in fl
    }

    constructor (sz: int)
      requires BASE < sz
      ensures Valid() && freep == NULL && H().Allocated() == map[] && core == {} && brk == sz
    {
      mem, freep := map[], NULL;
      fl, blocks, core, brk := [], map[], {}, sz;
    }

    /** The search of free: the free block behind which bp belongs. */
    method FindPlace(bp: int) returns (p: int, ghost k: nat)
      requires Valid() && bp in H().Allocated()
      ensures Gap(fl, k, bp) && p == fl[k - 1]
    {
      k := H().PlaceOf(bp);
      assert BlockAt(blocks, brk, bp);
      hide Tiles;
      p := freep;
      ghost var j: nat :| j < |fl| && fl[j] == p;
      while true
        invariant j < |fl| && p == fl[j]
        decreases if j < k then k - j else k - j + |fl|
      {
        assert LinkAt(mem, fl, j) && fl[0] == BASE;
        assert |fl| > 1 ==> fl[0] < fl[|fl| - 1];
        if bp > p && bp < mem[p].ptr {
          assert j + 1 == k;
          break;
        }
        if p >= mem[p].ptr && (bp > p || bp < mem[p].ptr) {
          break;
        }
        p, j := mem[p].ptr, Succ(|fl|, j);
      }
    }

    /** free: the block goes back, joined with its free neighbours. */
    method Free(bp: int)
      requires Valid() && bp in H().Allocated()
      modifies this
      ensures Valid() && freep != NULL && core == old(core) && brk == old(brk)
      ensures H().Allocated() == old(H().Allocated()) - {bp}
      ensures Untouched(old(H()), H())
      ensures exists i :: 0 < i < |fl| && fl[i] in blocks && blocks[fl[i]] >= old(blocks[bp])
    {
      var p;
      ghost var k;
      p, k := FindPlace(bp);
      ghost var h := H();
      h.FreedKeeps(k, bp);
      h.FreedUntouched(k, bp);
      ghost var i := h.FreedRoom(k, bp);
      WriteBack(p, bp, k);
      freep := p;
    }

    /** The header updates of free once the place is known. */
    method WriteBack(p: int, bp: int, ghost k: nat)
      requires H().Valid() && Gap(fl, k, bp) && bp in blocks && p == fl[k - 1]
      modifies `mem, `fl, `blocks
      ensures H() == old(H().Freed(k, bp))
    {
      ghost var h := H();
      assert p in fl && LinkAt(mem, fl, k - 1) && h.SizeAt(bp) && BlockAt(blocks, brk, bp);
      assert k < |fl| ==> fl[k] in fl;
      h.FreedMem(k, bp);
      hide Tiles, Heap.Freed, Ring;
      var next := mem[p].ptr;
      assert (bp + mem[bp].size == next) == h.TouchesNext(k, bp);
      if bp + mem[bp].size == next {
        mem := mem[bp := Header(mem[next].ptr, mem[bp].size + mem[next].size)];
      } else {
        mem := mem[bp := mem[bp].(ptr := next)];
      }
      if p + mem[p].size == bp {
        mem := mem[p := Header(mem[bp].ptr, mem[p].size + mem[bp].size)];
      } else {
        mem := mem[p := mem[p].(ptr := bp)];
      }
      ghost var h' := h.Freed(k, bp);
      assert mem == h'.mem;
      fl, blocks := h'.fl, h'.blocks;
    }

    /** morecore: new memory joins the free list, or nothing happens. */
    method Morecore(nunits: int, reply: Sbrk) returns (ok: bool)
      requires Valid() && freep != NULL && nunits > 0
      requires reply.Grants? ==> brk <= reply.at
      modifies this
      ensures Valid() && freep != NULL && ok == reply.Grants?
      ensures H().Allocated() == old(H().Allocated()) && Untouched(old(H()), H())
      ensures !ok ==> H() == old(H())
      ensures ok ==> core == old(core) + Units(reply.at, reply.at + CoreUnits(nunits))
      ensures ok ==> HasRoom(nunits)
    {
      if reply.Fails? {
        return false;
      }
      var nu, hp := CoreUnits(nunits), reply.at;
      ghost var h := H();
      h.GrownKeeps(hp, nu);
      ghost var h1 := h.Grown(hp, nu);
      mem := Sized(mem, hp, nu);
      blocks, core, brk := h1.blocks, h1.core, h1.brk;
      assert H() == h1;
      UntouchedBy(h, h1, hp, hp);
      Free(hp);
      assert H().Allocated() == h.Allocated();
      UntouchedTwice(h, h1, H());
      ok := true;
    }

    /** The search of malloc: the first block behind freep with room, or none on the whole ring. */
    method Scan(nunits: int) returns (found: bool, prevp: int, p: int, ghost k: nat, ghost f: nat)
      requires Valid() && freep != NULL && nunits > 0
      ensures found ==> 0 < k < |fl| && prevp == fl[k - 1] && p == fl[k] && p in blocks && blocks[p] >= nunits
      ensures found <==> HasRoom(nunits)
      ensures f < |fl| && fl[f] == freep
      ensures forall i: nat :: found && i < |fl| && Passed(f, i, k) ==> fl[i] in mem && mem[fl[i]].size < nunits
    {
      f :| f < |fl| && fl[f] == freep;
      hide Tiles;
      prevp := freep;
      assert LinkAt(mem, fl, f);
      p := mem[prevp].ptr;
      ghost var j: nat := f;
      k := Succ(|fl|, f);
      while true
        invariant j < |fl| && k == Succ(|fl|, j) && prevp == fl[j] && p == fl[k]
        invariant forall i: nat :: i < |fl| && Passed(f, i, k) ==> mem[fl[i]].size < nunits
        decreases if k <= f then f - k else f - k + |fl|
      {
        assert p in fl && LinkAt(mem, fl, k);
        assert k > 0 ==> H().SizeAt(fl[k]);
        if mem[p].size >= nunits {
          found := true;
          return;
        }
        if p == freep {
          assert k == f;
          forall i | 0 < i < |fl| ensures blocks[fl[i]] < nunits {
            assert i == k || Passed(f, i, k);
            assert H().SizeAt(fl[i]);
          }
          found := false;
          return;
        }
        prevp, p := p, mem[p].ptr;
        j, k := k, Succ(|fl|, k);
      }
    }

    /** The block at p, or the tail of it, is handed out. */
    method Take(prevp: int, p: int, nunits: int, ghost k: nat) returns (head: int)
      requires Valid() && freep != NULL && nunits > 0
      requires 0 < k < |fl| && prevp == fl[k - 1] && p == fl[k] && blocks[p] >= nunits
      modifies this
      ensures Valid() && core == old(core) && brk == old(brk) && freep == prevp != NULL
      ensures head !in old(H().Allocated()) && H().Allocated() == old(H().Allocated())[head := nunits]
      ensures Untouched(old(H()), H())
    {
      hide Tiles, Ring;
      ghost var h := H();
      h.FreePlaces(k);
      if mem[p].size == nunits {
        h.TakenKeeps(k);
        mem := mem[prevp := mem[prevp].(ptr := mem[p].ptr)];
        fl := h.Taken(k).fl;
        assert H() == h.Taken(k);
        UntouchedBy(h, H(), prevp, prevp);
        head := p;
      } else {
        h.CutKeeps(k, nunits);
        mem := Sized(mem, p, mem[p].size - nunits);
        head := p + mem[p].size;
        mem := Sized(mem, head, nunits);
        blocks := h.Cut(k, nunits).blocks;
        assert H() == h.Cut(k, nunits);
        CutUntouched(h, k, nunits);
      }
      freep := prevp;
    }

    /**
     malloc: null exactly when no free block has room and sbrk fails, otherwise
     a block of the size asked for, distinct from all others.  sbrk is asked
     only when no free block has room, and at most once.
     */
    method Malloc(nbytes: nat, reply: Sbrk) returns (r: Outcome)
      requires Valid() && nbytes < 0x1_0000_0000
      requires reply.Grants? ==> brk <= reply.at
      modifies this
      ensures r.Overrun? <==> !old(HasRoom(UnitsFor(nbytes))) && nbytes > 0x8000_0000 - 2 * UNIT
      ensures r.Null? <==> !old(HasRoom(UnitsFor(nbytes))) && nbytes <= 0x8000_0000 - 2 * UNIT && reply.Fails?
      ensures Valid() && freep != NULL && Untouched(old(H()), H())
      ensures r.Ptr? ==>
                && r.head !in old(H().Allocated())
                && H().Allocated() == old(H().Allocated())[r.head := UnitsFor(nbytes)]
      ensures !r.Ptr? ==> H().Allocated() == old(H().Allocated())
      ensures !r.Ptr? || old(HasRoom(UnitsFor(nbytes))) ==> core == old(core)
      ensures r.Ptr? && !old(HasRoom(UnitsFor(nbytes))) ==>
                && reply.Grants?
                && core == old(core) + Units(reply.at, reply.at + CoreUnits(UnitsFor(nbytes)))
    {
      hide Allocator.Valid, Allocator.HasRoom, Untouched, Int32, UnitsFor;
      var nunits := UnitsFor(nbytes);
      ghost var h0 := H();
      UntouchedSelf(h0);
      if freep == NULL {
        Begin();
      }
      var found, prevp, p;
      ghost var k, f;
      found, prevp, p, k, f := Scan(nunits);
      RequestReachesSbrk(nbytes);
      if !found {
        if Int32(CoreUnits(nunits) * UNIT) != CoreUnits(nunits) * UNIT {
          return Overrun;
        }
        ghost var h1 := H();
        var ok := Morecore(nunits, reply);
        UntouchedTwice(h0, h1, H());
        if !ok {
          return Null;
        }
        found, prevp, p, k, f := Scan(nunits);
      }
      ghost var h2 := H();
      var head := Take(prevp, p, nunits, k);
      UntouchedTwice(h0, h2, H());
      r := Ptr(head);
    }

    /** A free block has room. */
    ghost predicate HasRoom(nunits: int)
      reads this
    {
      exists i :: 0 < i < |fl| && fl[i] in blocks && blocks[fl[i]] >= nunits
    }

    /** The first call makes the base a ring of its own. */
    method Begin()
      requires Valid() && freep == NULL
      modifies this
      ensures Valid() && freep != NULL && fl == [BASE]
      ensures core == old(core) && brk == old(brk) && H().Allocated() == old(H().Allocated()) == map[]
      ensures Untouched(old(H()), H()) && forall n :: HasRoom(n) <==> old(HasRoom(n))
    {
      mem := mem[BASE := Header(BASE, 0)];
      freep, fl := BASE, [BASE];
      assert LinkAt(mem, fl, 0);
      assert Tiles(blocks, core, brk);
    }

    /** The program writes to memory it was given. */
    method Store(a: int, u: int, v: Header)
      requires Valid() && a in H().Allocated() && a < u < a + blocks[a]
      modifies `mem
      ensures Valid() && mem == old(mem)[u := v]
    {
      H().StoreKeeps(a, u, v);
      mem := mem[u := v];
      assert H() == old(H()).(mem := mem);
    }
  }
}
