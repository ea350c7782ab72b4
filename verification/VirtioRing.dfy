/**
 The two rings of a virtqueue (section 2.6 of the virtio specification,
 version 1.1): a writer appends head descriptors, a reader takes them in order,
 and both keep free-running 16-bit indices.
 */
module VirtioRing {
  import opened RingIndex

  const NUM: nat := 8
  const WRAP: nat := 0x1_0000

  /** slots is shared; idx is the writer's index and seen the reader's. */
  datatype Ring = Ring(slots: seq<nat>, idx: nat, seen: nat) {

    predicate Empty() { seen == idx }

    function Push(x: nat): (r: Ring)
      requires |slots| == NUM
    {
      Ring(slots[Slot(NUM, idx) := x], Counter(WRAP, idx + 1), seen)
    }

    function Front(): (x: nat)
      requires |slots| == NUM
    {
      slots[Slot(NUM, seen)]
    }

    function Pop(): (r: Ring) {
      this.(seen := Counter(WRAP, seen + 1))
    }

    /** The entry at position k of all ever written is still in its slot. */
    ghost predicate PendsAt(pending: seq<nat>, total: nat, k: nat)
      requires |slots| == NUM && |pending| <= total
    {
      total - |pending| <= k < total ==> pending[k - (total - |pending|)] == slots[Slot(NUM, k)]
    }

    /** The ring holds the entries pending, the last of the total ever written. */
    ghost predicate Carries(pending: seq<nat>, total: nat) {
      && |slots| == NUM && |pending| <= NUM && |pending| <= total
      && idx == Counter(WRAP, total) && seen == Counter(WRAP, total - |pending|)
      && forall k :: PendsAt(pending, total, k)
    }
  }

  /** An entry is only ever written to a slot whose entry has been taken. */
  lemma PushKeeps(r: Ring, pending: seq<nat>, total: nat, x: nat)
    requires r.Carries(pending, total) && |pending| < NUM
    ensures r.Push(x).Carries(pending + [x], total + 1)
  {
    hide Slot, Counter;
    SlotOf(NUM, 8192, WRAP, total);
    CounterAdd(WRAP, total, 1);
    var r', pending', n := r.Push(x), pending + [x], total + 1;
    forall k: nat ensures r'.PendsAt(pending', n, k) {
      assert r.PendsAt(pending, total, k);
      if total - |pending| <= k < total {
        SlotsDiffer(NUM, k, total - k);
      }
    }
  }

  /** A full ring loses its oldest entry: the bound is needed. */
  lemma PushOverwrites(r: Ring, pending: seq<nat>, total: nat, x: nat)
    requires r.Carries(pending, total) && |pending| == NUM && pending[0] != x
    ensures r.Push(x).Front() != pending[0]
  {
    hide Slot, Counter;
    SlotOf(NUM, 8192, WRAP, total);
    SlotOf(NUM, 8192, WRAP, total - NUM);
    SlotRound(NUM, total - NUM);
  }

  /** The reader gets the oldest pending entry. */
  lemma PopKeeps(r: Ring, pending: seq<nat>, total: nat)
    requires r.Carries(pending, total) && |pending| > 0
    ensures r.Front() == pending[0] && r.Pop().Carries(pending[1..], total)
  {
    hide Slot, Counter;
    SlotOf(NUM, 8192, WRAP, total - |pending|);
    CounterAdd(WRAP, total - |pending|, 1);
    assert r.PendsAt(pending, total, total - |pending|);
    var r', rest := r.Pop(), pending[1..];
    forall k: nat ensures r'.PendsAt(rest, total, k) {
      assert r.PendsAt(pending, total, k);
    }
  }

  /** Equal indices mean that nothing is pending, in spite of the wrap. */
  lemma EmptyIff(r: Ring, pending: seq<nat>, total: nat)
    requires r.Carries(pending, total)
    ensures r.Empty() <==> pending == []
  {
    CountersTell(WRAP, total - |pending|, |pending|, 0);
    CounterAdd(WRAP, total - |pending|, 0);
  }
}
