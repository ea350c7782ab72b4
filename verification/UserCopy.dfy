/**
 copyout, copyin and copyinstr of kernel/vm.c: page by page, against copying
 byte by byte.  `user` is what walkaddr answers: the physical page behind each
 user-accessible virtual page.
 */
module UserCopy {
  import opened Common

  type Data = map<nat, seq<Byte>>
  type View = map<nat, nat>

  /** Every page that translates has contents. */
  ghost predicate Backed(user: View, data: Data) {
    forall v :: v in user ==> user[v] in data && |data[user[v]]| == PGSIZE
  }

  /** Byte-by-byte translation succeeds for n bytes from va. */
  ghost predicate Reachable(user: View, va: nat, n: nat) {
    forall k: nat :: k < n ==> PageOf(va, k) in user
  }

  ghost function PageOf(va: nat, k: nat): (v: nat) { (va + k) / PGSIZE }

  function ByteAt(user: View, data: Data, va: nat): (b: Byte)
    requires Backed(user, data) && va / PGSIZE in user
  {
    data[user[va / PGSIZE]][va % PGSIZE]
  }

  /** n bytes fetched one at a time. */
  ghost function Fetched(user: View, data: Data, va: nat, n: nat): (s: seq<Byte>)
    requires Backed(user, data) && Reachable(user, va, n)
    ensures |s| == n
  {
    if n == 0 then []
    else
      assert PageOf(va, n - 1) in user;
      Fetched(user, data, va, n - 1) + [ByteAt(user, data, va + n - 1)]
  }

  /** One byte stored. */
  ghost function Put(user: View, data: Data, va: nat, b: Byte): (d: Data)
    requires Backed(user, data) && va / PGSIZE in user
    ensures Backed(user, d)
  {
    var p := user[va / PGSIZE];
    data[p := data[p][va % PGSIZE := b]]
  }

  /** Bytes stored one at a time, in order. */
  ghost function Stored(user: View, data: Data, va: nat, s: seq<Byte>, n: nat): (d: Data)
    requires Backed(user, data) && n <= |s| && Reachable(user, va, n)
    ensures Backed(user, d)
  {
    if n == 0 then data
    else
      assert PageOf(va, n - 1) in user;
      Put(user, Stored(user, data, va, s, n - 1), va + n - 1, s[n - 1])
  }

  // ------------------------------------------------------------------
  // Within one page

  /** How far a copy from va may go in its page. */
  function Room(va: nat, len: nat): (n: nat)
    ensures n <= len && (len > 0 ==> n > 0) && va % PGSIZE + n <= PGSIZE
    ensures n < len ==> (va + n) % PGSIZE == 0
  {
    var n := PGSIZE - va % PGSIZE;
    if n > len then len else n
  }

  lemma SamePage(va: nat, k: nat)
    requires va % PGSIZE + k < PGSIZE
    ensures PageOf(va, k) == va / PGSIZE && (va + k) % PGSIZE == va % PGSIZE + k
  {
    var q, r := va / PGSIZE, va % PGSIZE;
    assert va + k == q * PGSIZE + (r + k);
    DivUnique(q, r + k);
  }

  lemma DivUnique(q: nat, r: nat)
    requires r < PGSIZE
    ensures (q * PGSIZE + r) / PGSIZE == q && (q * PGSIZE + r) % PGSIZE == r
  {
  }

  lemma {:induction false} FetchPage(user: View, data: Data, va: nat, n: nat)
    requires Backed(user, data) && va / PGSIZE in user && va % PGSIZE + n <= PGSIZE
    ensures Reachable(user, va, n)
    ensures Fetched(user, data, va, n) == data[user[va / PGSIZE]][va % PGSIZE..va % PGSIZE + n]
  {
    forall k: nat | k < n ensures PageOf(va, k) in user {
      SamePage(va, k);
    }
    if n > 0 {
      FetchPage(user, data, va, n - 1);
      SamePage(va, n - 1);
    }
  }

  lemma {:induction false} StorePage(user: View, data: Data, va: nat, s: seq<Byte>, n: nat)
    requires Backed(user, data) && va / PGSIZE in user && va % PGSIZE + n <= PGSIZE && n <= |s|
    ensures Reachable(user, va, n)
    ensures var p := user[va / PGSIZE];
            Stored(user, data, va, s, n) == data[p := Spliced(data[p], va % PGSIZE, s[..n])]
  {
    forall k: nat | k < n ensures PageOf(va, k) in user {
      SamePage(va, k);
    }
    var p, off := user[va / PGSIZE], va % PGSIZE;
    if n == 0 {
      assert Spliced(data[p], off, s[..0]) == data[p];
    } else {
      StorePage(user, data, va, s, n - 1);
      SamePage(va, n - 1);
      assert Spliced(data[p], off, s[..n - 1])[off + n - 1 := s[n - 1]] == Spliced(data[p], off, s[..n]);
    }
  }

  // ------------------------------------------------------------------
  // One page after the other

  lemma ReachableMore(user: View, va: nat, a: nat, vb: nat, b: nat)
    requires Reachable(user, va, a) && vb == va + a
    ensures Reachable(user, va, a + b) <==> Reachable(user, vb, b)
  {
    if Reachable(user, vb, b) {
      forall k: nat | k < a + b ensures PageOf(va, k) in user {
        assert k >= a ==> PageOf(va, k) == PageOf(vb, k - a);
      }
    }
    if Reachable(user, va, a + b) {
      forall k: nat | k < b ensures PageOf(vb, k) in user {
        assert PageOf(va, a + k) in user;
      }
    }
  }

  lemma {:induction false} FetchMore(user: View, data: Data, va: nat, a: nat, b: nat)
    requires Backed(user, data) && Reachable(user, va, a + b)
    ensures Reachable(user, va, a) && Reachable(user, va + a, b)
    ensures Fetched(user, data, va, a + b) == Fetched(user, data, va, a) + Fetched(user, data, va + a, b)
    decreases b
  {
    ReachableMore(user, va, a, va + a, b);
    if b > 0 {
      FetchMore(user, data, va, a, b - 1);
    }
  }

  lemma {:induction false} StoreMore(user: View, data: Data, va: nat, s: seq<Byte>, a: nat, b: nat)
    requires Backed(user, data) && Reachable(user, va, a + b) && a + b <= |s|
    ensures Reachable(user, va, a) && Reachable(user, va + a, b)
    ensures Stored(user, data, va, s, a + b) == Stored(user, Stored(user, data, va, s, a), va + a, s[a..], b)
    decreases b
  {
    ReachableMore(user, va, a, va + a, b);
    if b > 0 {
      StoreMore(user, data, va, s, a, b - 1);
    }
  }

  /** A page that does not translate stops a byte-by-byte copy as well. */
  lemma Blocked(user: View, va: nat, a: nat, n: nat)
    requires a < n && PageOf(va, a) !in user
    ensures !Reachable(user, va, n)
  {
  }

  // ------------------------------------------------------------------
  // The round trip

  /** Two bytes of the range have the same memory. */
  ghost predicate Share(user: View, va: nat, j: nat, k: nat)
    requires PageOf(va, j) in user && PageOf(va, k) in user
  {
    user[PageOf(va, j)] == user[PageOf(va, k)] && (va + j) % PGSIZE == (va + k) % PGSIZE
  }

  ghost predicate Injective(user: View, va: nat, n: nat)
    requires Reachable(user, va, n)
  {
    forall j: nat, k: nat :: j < k < n ==> !Share(user, va, j, k)
  }

  lemma {:induction false} StoredByte(user: View, data: Data, va: nat, s: seq<Byte>, n: nat, k: nat)
    requires Backed(user, data) && Reachable(user, va, n) && Injective(user, va, n) && k < n <= |s|
    ensures PageOf(va, k) in user && ByteAt(user, Stored(user, data, va, s, n), va + k) == s[k]
    decreases n
  {
    assert PageOf(va, k) in user && PageOf(va, n - 1) in user;
    if k < n - 1 {
      StoredByte(user, data, va, s, n - 1, k);
      assert !Share(user, va, k, n - 1);
    }
  }

  /** What is copied out comes back in, if no two bytes of the range share memory. */
  lemma {:induction false} RoundTrip(user: View, data: Data, va: nat, s: seq<Byte>, n: nat)
    requires Backed(user, data) && Reachable(user, va, |s|) && Injective(user, va, |s|) && n <= |s|
    ensures Reachable(user, va, n) && Fetched(user, Stored(user, data, va, s, |s|), va, n) == s[..n]
    decreases n
  {
    if n > 0 {
      RoundTrip(user, data, va, s, n - 1);
      StoredByte(user, data, va, s, |s|, n - 1);
    }
  }

  /** Ones, but for a zero at j. */
  ghost function Marked(n: nat, j: nat): (s: seq<Byte>)
    ensures |s| == n && forall i :: 0 <= i < n ==> s[i] == if i == j then 0 else 1
  {
    seq(n, i => if i == j then 0 else 1)
  }

  lemma {:induction false} Overwritten(user: View, data: Data, va: nat, n: nat, m: nat, j: nat, k: nat)
    requires Backed(user, data) && Reachable(user, va, m) && j < k < n <= m
    requires PageOf(va, j) in user && PageOf(va, k) in user && Share(user, va, j, k)
    ensures ByteAt(user, Stored(user, data, va, Marked(m, j), n), va + j) == 1
    decreases n
  {
    assert PageOf(va, n - 1) in user;
    if k < n - 1 {
      Overwritten(user, data, va, n - 1, m, j, k);
    }
  }

  /** The condition is exact: otherwise some bytes do not come back. */
  lemma RoundTripNeeds(user: View, data: Data, va: nat, n: nat)
    requires Backed(user, data) && Reachable(user, va, n) && !Injective(user, va, n)
    ensures exists s: seq<Byte> :: |s| == n && Fetched(user, Stored(user, data, va, s, n), va, n) != s
  {
    var j: nat, k: nat :| j < k < n && PageOf(va, j) in user && PageOf(va, k) in user && Share(user, va, j, k);
    var s := Marked(n, j);
    Overwritten(user, data, va, n, n, j, k);
    FetchedAt(user, Stored(user, data, va, s, n), va, n, j);
    assert |s| == n && Fetched(user, Stored(user, data, va, s, n), va, n) != s;
  }

  lemma {:induction false} FetchedAt(user: View, data: Data, va: nat, n: nat, k: nat)
    requires Backed(user, data) && Reachable(user, va, n) && k < n
    ensures PageOf(va, k) in user && Fetched(user, data, va, n)[k] == ByteAt(user, data, va + k)
    decreases n
  {
    if k < n - 1 {
      FetchedAt(user, data, va, n - 1, k);
    }
    assert PageOf(va, k) in user;
  }

  // ------------------------------------------------------------------
  // The kernel's loops

  class UserMemory {
    const user: View
    var data: Data

    ghost predicate Valid()
      reads this
    {
      Backed(user, data)
    }

    constructor (user: View, data: Data)
      requires Backed(user, data)
      ensures Valid() && this.user == user && this.data == data
    {
      this.user, this.data := user, data;
    }

    /** copyin: succeeds exactly when byte-by-byte copying would, with the same bytes. */
    method CopyIn(srcva: nat, len: nat) returns (ok: bool, dst: seq<Byte>)
      requires Valid()
      ensures ok <==> Reachable(user, srcva, len)
      ensures |dst| <= len && Reachable(user, srcva, |dst|) && dst == Fetched(user, data, srcva, |dst|)
      ensures if ok then |dst| == len else |dst| < len && PageOf(srcva, |dst|) !in user
    {
      dst := [];
      var va := srcva;
      while |dst| < len
        invariant |dst| <= len && va == srcva + |dst|
        invariant Reachable(user, srcva, |dst|) && dst == Fetched(user, data, srcva, |dst|)
        decreases len - |dst|
      {
        if va / PGSIZE !in user {
          Blocked(user, srcva, |dst|, len);
          return false, dst;
        }
        var n := Room(va, len - |dst|);
        FetchPage(user, data, va, n);
        ReachableMore(user, srcva, |dst|, va, n);
        FetchMore(user, data, srcva, |dst|, n);
        dst := dst + data[user[va / PGSIZE]][va % PGSIZE..va % PGSIZE + n];
        va := va + n;
      }
      ok := true;
    }

    /** copyout: likewise; memory is as after storing the bytes one at a time. */
    method CopyOut(dstva: nat, src: seq<Byte>) returns (ok: bool, ghost n: nat)
      requires Valid()
      modifies this
      ensures Valid() && (ok <==> Reachable(user, dstva, |src|))
      ensures n <= |src| && Reachable(user, dstva, n) && data == Stored(user, old(data), dstva, src, n)
      ensures if ok then n == |src| else n < |src| && PageOf(dstva, n) !in user
    {
      n := 0;
      var done, va := 0, dstva;
      while done < |src|
        invariant n == done <= |src| && va == dstva + done && Valid()
        invariant Reachable(user, dstva, done) && data == Stored(user, old(data), dstva, src, done)
        decreases |src| - done
      {
        if va / PGSIZE !in user {
          Blocked(user, dstva, done, |src|);
          return false, n;
        }
        var k := Room(va, |src| - done);
        StorePage(user, data, va, src[done..], k);
        ReachableMore(user, dstva, done, va, k);
        StoreMore(user, old(data), dstva, src, done, k);
        var p := user[va / PGSIZE];
        assert src[done..][..k] == src[done..done + k];
        data := data[p := Spliced(data[p], va % PGSIZE, src[done..done + k])];
        done, va := done + k, va + k;
        n := done;
      }
      ok := true;
    }

    /** The byte k of the range is the first NUL, and everything up to it translates. */
    ghost predicate Ends(va: nat, k: nat)
      reads this
      requires Valid()
    {
      && Reachable(user, va, k + 1) && PageOf(va, k) in user && ByteAt(user, data, va + k) == 0
      && (forall j: nat :: j < k && PageOf(va, j) in user ==> ByteAt(user, data, va + j) != 0)
    }

    /** No NUL among the first n bytes, all of which translate. */
    ghost predicate Runs(va: nat, n: nat)
      reads this
      requires Valid()
    {
      Reachable(user, va, n) && forall j: nat :: j < n && PageOf(va, j) in user ==> ByteAt(user, data, va + j) != 0
    }

    /** The inner loop of copyinstr: up to n bytes of one page. */
    method CopyRun(va: nat, n: nat) returns (got: bool, out: seq<Byte>)
      requires Valid() && va / PGSIZE in user && va % PGSIZE + n <= PGSIZE
      ensures Reachable(user, va, |out|) && out == Fetched(user, data, va, |out|) && Runs(va, |out|)
      ensures if got then |out| < n && Ends(va, |out|) else |out| == n
    {
      out := [];
      FetchPage(user, data, va, 0);
      var p := user[va / PGSIZE];
      while |out| < n
        invariant |out| <= n && Reachable(user, va, |out|) && out == Fetched(user, data, va, |out|) && Runs(va, |out|)
      {
        FetchPage(user, data, va, |out| + 1);
        SamePage(va, |out|);
        if data[p][va % PGSIZE + |out|] == 0 {
          return true, out;
        }
        out := out + [data[p][va % PGSIZE + |out|]];
      }
      got := false;
    }

    lemma RunsMore(va: nat, a: nat, vb: nat, b: nat)
      requires Valid() && Runs(va, a) && vb == va + a
      ensures Runs(vb, b) ==> Runs(va, a + b)
      ensures Ends(vb, b) ==> Ends(va, a + b)
    {
      ReachableMore(user, va, a, vb, b);
      ReachableMore(user, va, a, vb, b + 1);
      assert PageOf(va, a + b) == PageOf(vb, b);
      forall j: nat | a <= j ensures PageOf(va, j) == PageOf(vb, j - a) {
      }
    }

    /** copyinstr: the string up to its first NUL, if that is among the first max bytes and can be reached. */
    method CopyInStr(srcva: nat, max: nat) returns (ok: bool, dst: seq<Byte>)
      requires Valid()
      ensures |dst| <= max && Reachable(user, srcva, |dst|) && dst == Fetched(user, data, srcva, |dst|)
      ensures if ok then |dst| < max && Ends(srcva, |dst|)
              else Runs(srcva, |dst|) && (|dst| < max ==> PageOf(srcva, |dst|) !in user)
    {
      dst := [];
      var va := srcva;
      ok := false;
      while !ok && |dst| < max
        invariant |dst| <= max && va == srcva + |dst|
        invariant Reachable(user, srcva, |dst|) && dst == Fetched(user, data, srcva, |dst|) && Runs(srcva, |dst|)
        invariant ok ==> |dst| < max && Ends(srcva, |dst|)
        decreases !ok, max - |dst|
      {
        if va / PGSIZE !in user {
          return false, dst;
        }
        var n := Room(va, max - |dst|);
        var run;
        ok, run := CopyRun(va, n);
        ReachableMore(user, srcva, |dst|, va, |run|);
        FetchMore(user, data, srcva, |dst|, |run|);
        RunsMore(srcva, |dst|, va, |run|);
        dst, va := dst + run, va + |run|;
      }
    }
  }

  /** copyinstr's answer is unique: a string that ends does not also run past its end. */
  lemma EndIsFirst(m: UserMemory, va: nat, k: nat, n: nat)
    requires m.Valid() && m.Ends(va, k) && m.Runs(va, n)
    ensures n <= k
  {
  }
}
