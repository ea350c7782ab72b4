/** Counting facts about finite sets and distinct sequences. */
module Sets {

  ghost predicate Below(x: int, n: int) { 0 <= x < n }

  /** The numbers 0..n. */
  ghost function UpTo(n: nat): (s: set<nat>) {
    set x: nat | x < n && Below(x, n)
  }

  lemma {:induction false} UpToSize(n: nat)
    ensures |UpTo(n)| == n
  {
    if n > 0 {
      UpToSize(n - 1);
      assert UpTo(n) == UpTo(n - 1) + {n - 1};
    }
  }

  lemma {:induction false} SubsetSize<T>(a: set<T>, b: set<T>)
    requires a <= b
    ensures |a| <= |b|
    decreases |a|
  {
    if a != {} {
      var x :| x in a;
      SubsetSize(a - {x}, b - {x});
    }
  }

  /** A distinct sequence has as many elements as positions. */
  lemma {:induction false} DistinctSize<T>(s: seq<T>)
    requires forall i, j :: 0 <= i < j < |s| ==> s[i] != s[j]
    ensures |set x | x in s| == |s|
    decreases |s|
  {
    if s != [] {
      var n := |s| - 1;
      DistinctSize(s[..n]);
      assert (set x | x in s) == (set x | x in s[..n]) + {s[n]};
    }
  }

  /** n distinct numbers below n are all the numbers below n. */
  lemma Covers(n: nat, s: seq<nat>, b: nat)
    requires |s| == n && b < n && forall i :: 0 <= i < |s| ==> s[i] < n
    requires forall i, j :: 0 <= i < j < |s| ==> s[i] != s[j]
    ensures b in s
  {
    var seen := set x | x in s;
    DistinctSize(s);
    UpToSize(n);
    if b !in s {
      SubsetSize(seen, UpTo(n) - {b});
    }
  }
}
