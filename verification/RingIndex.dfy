/**
 Free-running counters into a ring whose size divides their range, as in
 kernel/pipe.c and kernel/virtio_disk.c.
 */
module RingIndex {

  /** The place in a ring of the k-th entry. */
  function Slot(size: nat, k: nat): (i: nat)
    requires size > 0
    ensures i < size
  {
    k % size
  }

  /** A counter that wraps, after k steps. */
  function Counter(wrap: nat, k: nat): (c: nat)
    requires wrap > 0
    ensures c < wrap
  {
    k % wrap
  }

  // ------------------------------------------------------------------
  // Division

  lemma AtLeast(n: nat, k: nat)
    requires k > 0
    ensures n * k >= n
  {
  }

  lemma Apart(n: nat, a: int, b: int)
    ensures n * a - n * b == n * (a - b)
  {
  }

  /** Division has one quotient and one remainder. */
  lemma Unique(n: nat, a: int, r: nat, b: int, s: nat)
    requires r < n && s < n && n * a + r == n * b + s
    ensures a == b && r == s
  {
    Apart(n, a, b);
    Apart(n, b, a);
    if a > b {
      AtLeast(n, a - b);
    } else if a < b {
      AtLeast(n, b - a);
    }
  }

  lemma Remainder(n: nat, q: int, r: nat, x: int)
    requires r < n && x == n * q + r
    ensures x % n == r
  {
    Unique(n, q, r, x / n, x % n);
  }

  lemma Regroup(size: nat, times: nat, q: nat, p: nat)
    ensures (size * times) * q + size * p == size * (times * q + p)
  {
  }

  /** Adding one to the quotient adds n. */
  lemma OneMore(n: nat, q: int)
    ensures n * (q + 1) == n * q + n
  {
  }

  // ------------------------------------------------------------------
  // Rings

  /** A slot survives the wrap of the counter. */
  lemma SlotOf(size: nat, times: nat, wrap: nat, k: nat)
    requires size > 0 && wrap == size * times && wrap > 0
    ensures Slot(size, Counter(wrap, k)) == Slot(size, k)
  {
    var q, x := k / wrap, k % wrap;
    Regroup(size, times, q, x / size);
    Remainder(size, times * q + x / size, x % size, k);
  }

  /** Positions less than a round apart are different slots. */
  lemma SlotsDiffer(size: nat, a: nat, d: nat)
    requires 0 < d < size
    ensures Slot(size, a + d) != Slot(size, a)
  {
    var q, r := a / size, a % size;
    if r + d < size {
      Remainder(size, q, r + d, a + d);
    } else {
      OneMore(size, q);
      Remainder(size, q + 1, r + d - size, a + d);
    }
  }

  /** A round further on is the same slot. */
  lemma SlotRound(size: nat, a: nat)
    requires size > 0
    ensures Slot(size, a + size) == Slot(size, a)
  {
    OneMore(size, a / size);
    Remainder(size, a / size + 1, a % size, a + size);
  }

  /** Counting on from a wrapped counter. */
  lemma CounterAdd(wrap: nat, k: nat, m: nat)
    requires wrap > 0
    ensures Counter(wrap, Counter(wrap, k) + m) == Counter(wrap, k + m)
  {
    var x := k % wrap + m;
    Apart(wrap, k / wrap, -(x / wrap));
    Remainder(wrap, k / wrap + x / wrap, x % wrap, k + m);
  }

  /** Wrapped counters tell distances below their range apart. */
  lemma CountersTell(wrap: nat, k: nat, n: nat, m: nat)
    requires n < wrap && m < wrap
    ensures Counter(wrap, k + n) == Counter(wrap, Counter(wrap, k) + m) <==> n == m
  {
    CounterAdd(wrap, k, m);
    if n < m {
      SlotsDiffer(wrap, k + n, m - n);
    } else if m < n {
      SlotsDiffer(wrap, k + m, n - m);
    }
  }
}
