/**
 kernel/kalloc.c: the free list of physical pages, linked through the pages
 themselves.
 */
module Kalloc {
  import opened PageSpec

  const NIL: int := -1

  /** The free pages in order, each naming the next. */
  ghost predicate RunAt(ram: Ram, fl: seq<nat>, i: nat)
    requires i < |fl|
  {
    fl[i] in ram && ram[fl[i]] == Run(if i + 1 < |fl| then fl[i + 1] else NIL)
  }

  ghost predicate FreeList(ram: Ram, head: int, fl: seq<nat>) {
    && head == (if fl == [] then NIL else fl[0])
    && (forall i, j :: 0 <= i < j < |fl| ==> fl[i] != fl[j])
    && (forall i: nat :: i < |fl| ==> RunAt(ram, fl, i))
  }

  /** Writing elsewhere leaves the list alone. */
  lemma FreeListFrame(ram: Ram, ram': Ram, head: int, fl: seq<nat>)
    requires FreeList(ram, head, fl) && forall p :: p in fl && p in ram ==> p in ram' && ram'[p] == ram[p]
    ensures FreeList(ram', head, fl)
  {
    forall i: nat | i < |fl| ensures RunAt(ram', fl, i) {
      assert RunAt(ram, fl, i) && fl[i] in fl;
    }
  }

  lemma PushFree(ram: Ram, head: int, fl: seq<nat>, p: nat)
    requires FreeList(ram, head, fl) && p !in fl
    ensures FreeList(ram[p := Run(head)], p, [p] + fl)
  {
    var ram', fl' := ram[p := Run(head)], [p] + fl;
    forall i: nat | i < |fl'| ensures RunAt(ram', fl', i) {
      if i > 0 {
        assert RunAt(ram, fl, i - 1) && fl'[i] == fl[i - 1] && fl[i - 1] in fl;
      }
    }
  }

  lemma PopFree(ram: Ram, head: int, fl: seq<nat>)
    requires FreeList(ram, head, fl) && fl != []
    ensures RunAt(ram, fl, 0) && fl[0] !in fl[1..] && FreeList(ram, ram[fl[0]].next, fl[1..])
  {
    assert RunAt(ram, fl, 0);
    var t := fl[1..];
    forall i: nat | i < |t| ensures RunAt(ram, t, i) {
      assert RunAt(ram, fl, i + 1);
    }
  }
}
