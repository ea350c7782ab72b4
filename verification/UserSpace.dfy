/**
 The mapping that copyin, copyout and copyinstr go through (UserCopy), taken
 from the page table of a process (PageSpec) as walkaddr reads it.
 */
module UserSpace {
  import opened Common
  import opened PageSpec
  import PageTable
  import UserCopy

  /** The physical page behind each page that the process may use. */
  ghost function ViewOf(s: Space): (user: UserCopy.View) {
    map v: nat | v in s.leaf && v < MAXVPN && s.leaf[v].u :: s.leaf[v].ppn
  }

  /** The pages of memory that hold data. */
  ghost function DataOf(ram: Ram): (data: UserCopy.Data) {
    map p: nat | p in ram && ram[p].Bytes? :: ram[p].data
  }

  ghost predicate OwnPage(s: Space, ram: Ram, v: nat) {
    && User(v) in s.own && s.own[User(v)] in ram && ram[s.own[User(v)]].Bytes?
    && |ram[s.own[User(v)]].data| == PGSIZE
  }

  /** The pages that the process may use are its own memory, as uvmalloc and uvmcopy map it. */
  ghost predicate UserPages(s: Space, ram: Ram) {
    forall v :: v in s.leaf && v < MAXVPN && s.leaf[v].u ==> OwnPage(s, ram, v)
  }

  /** A page is in the view exactly if the walk through the three levels passes the tests of walkaddr. */
  lemma ViewIsWalk(s: Space, ram: Ram, v: nat)
    requires s.Valid(ram) && v < MAXVPN
    ensures var e := Translate(ram, s.own[Node(2, 0)], v);
            (v in ViewOf(s) <==> e.v && e.u) && (v in ViewOf(s) ==> ViewOf(s)[v] == e.ppn)
  {
    hide Translate;
    TranslateIsLeaf(s, ram, v);
    assert s.LeafAt(v);
  }

  /** Every page of the view has contents, so that CopyIn, CopyOut and CopyInStr speak about it. */
  lemma ViewBacked(s: Space, ram: Ram)
    requires s.Valid(ram) && UserPages(s, ram)
    ensures UserCopy.Backed(ViewOf(s), DataOf(ram))
  {
    forall v | v in ViewOf(s) ensures ViewOf(s)[v] in DataOf(ram) && |DataOf(ram)[ViewOf(s)[v]]| == PGSIZE {
      assert s.LeafAt(v) && OwnPage(s, ram, v);
    }
  }

  /** Different pages of the process have different memory: the condition of the round trip. */
  lemma {:induction false} ViewInjective(s: Space, ram: Ram, va: nat, n: nat)
    requires s.Valid(ram) && UserPages(s, ram) && UserCopy.Reachable(ViewOf(s), va, n)
    ensures UserCopy.Injective(ViewOf(s), va, n)
  {
    forall j: nat, k: nat | j < k < n ensures !UserCopy.Share(ViewOf(s), va, j, k) {
      var a, b := UserCopy.PageOf(va, j), UserCopy.PageOf(va, k);
      assert a in ViewOf(s) && b in ViewOf(s);
      assert s.LeafAt(a) && s.LeafAt(b) && OwnPage(s, ram, a) && OwnPage(s, ram, b) && s.Apart(User(a), User(b));
      SameBytes(va + j, va + k);
    }
  }

  /** What a process is given by copyout, copyin takes back: its pages are its own. */
  lemma ProcessRoundTrip(s: Space, ram: Ram, va: nat, src: seq<Byte>)
    requires s.Valid(ram) && UserPages(s, ram) && UserCopy.Reachable(ViewOf(s), va, |src|)
    ensures UserCopy.Backed(ViewOf(s), DataOf(ram))
    ensures var data := UserCopy.Stored(ViewOf(s), DataOf(ram), va, src, |src|);
            UserCopy.Fetched(ViewOf(s), data, va, |src|) == src
  {
    hide UserCopy.Stored, UserCopy.Fetched, ViewOf, DataOf;
    ViewBacked(s, ram);
    ViewInjective(s, ram, va, |src|);
    UserCopy.RoundTrip(ViewOf(s), DataOf(ram), va, src, |src|);
    assert src[..|src|] == src;
  }

  lemma SameBytes(a: nat, b: nat)
    ensures a / PGSIZE == b / PGSIZE && a % PGSIZE == b % PGSIZE ==> a == b
  {
  }

  /** Memory with other contents in its pages of data. */
  ghost function WithData(ram: Ram, data: UserCopy.Data): (ram': Ram) {
    map p: nat | p in ram :: if ram[p].Bytes? && p in data then Bytes(data[p]) else ram[p]
  }

  lemma {:induction false} StoredKeys(user: UserCopy.View, data: UserCopy.Data, va: nat, src: seq<Byte>, n: nat)
    requires UserCopy.Backed(user, data) && n <= |src| && UserCopy.Reachable(user, va, n)
    ensures UserCopy.Stored(user, data, va, src, n).Keys == data.Keys
  {
    if n > 0 {
      StoredKeys(user, data, va, src, n - 1);
      assert UserCopy.PageOf(va, n - 1) in user;
    }
  }

  /** What copyout stores leaves the page table as it is, and is the memory that the process then has. */
  lemma CopyOutKeeps(s: Space, ram: Ram, va: nat, src: seq<Byte>, n: nat)
    requires s.Valid(ram) && UserPages(s, ram) && n <= |src| && UserCopy.Reachable(ViewOf(s), va, n)
    ensures UserCopy.Backed(ViewOf(s), DataOf(ram))
    ensures var data := UserCopy.Stored(ViewOf(s), DataOf(ram), va, src, n);
            var ram' := WithData(ram, data);
            s.Valid(ram') && UserPages(s, ram') && DataOf(ram') == data
  {
    hide UserCopy.Stored;
    ViewBacked(s, ram);
    StoredKeys(ViewOf(s), DataOf(ram), va, src, n);
    var data := UserCopy.Stored(ViewOf(s), DataOf(ram), va, src, n);
    var ram' := WithData(ram, data);
    forall l, x ensures s.NodeAt(ram', l, x) {
      TablesStay(s, ram, ram', l, x);
    }
    forall v | v in s.leaf && v < MAXVPN && s.leaf[v].u ensures OwnPage(s, ram', v) {
      assert OwnPage(s, ram, v) && s.LeafAt(v) && v in ViewOf(s);
    }
  }

  lemma TablesStay(s: Space, ram: Ram, ram': Ram, l: nat, x: nat)
    requires s.Valid(ram) && forall p :: p in ram && ram[p].Table? ==> p in ram' && ram'[p] == ram[p]
    ensures s.NodeAt(ram', l, x)
  {
    assert s.NodeAt(ram, l, x);
    if Node(l, x) in s.own {
      assert s.SlotAt(ram, l, x, 0);
      forall i: nat ensures s.SlotAt(ram', l, x, i) {
        assert s.SlotAt(ram, l, x, i);
      }
    }
  }

  // ------------------------------------------------------------------
  // What uvmalloc and uvmcopy give to a process

  /** The page is for the process to use, and has these bytes. */
  ghost predicate Usable(s: Space, ram: Ram, y: nat, bytes: seq<Byte>) {
    y in ViewOf(s) && ViewOf(s)[y] in DataOf(ram) && DataOf(ram)[ViewOf(s)[y]] == bytes
  }

  /** New pages are the process's own, if those it had were. */
  lemma GrownPages(s: Space, s': Space, v: nat, k: nat, want: map<nat, PageTable.Want>, ram: Ram)
    requires PageTable.Grown(s, s', v, k, want, ram) && UserPages(s, ram)
    requires forall y :: v <= y < v + k && y in want ==> |want[y].data| == PGSIZE
    ensures UserPages(s', ram)
  {
    forall y | y in s'.leaf && y < MAXVPN && s'.leaf[y].u ensures OwnPage(s', ram, y) {
      assert PageTable.GrownAt(s, s', v, k, want, ram, y);
      assert y in s.leaf && s.leaf[y].u ==> OwnPage(s, ram, y);
    }
  }

  /** The pages that uvmalloc adds can be used by the process, and are zero. */
  lemma NewPageIsZero(s: Space, s': Space, lo: nat, hi: nat, ram: Ram, y: nat)
    requires lo <= y < hi <= MAXVPN && PageTable.Grown(s, s', lo, hi - lo, PageTable.Blank(lo, hi), ram)
    ensures Usable(s', ram, y, PageTable.Fill(0)) && s'.leaf[y].r && s'.leaf[y].w && s'.leaf[y].x
  {
    hide PageTable.Blank, PageTable.Fill;
    assert PageTable.GrownAt(s, s', lo, hi - lo, PageTable.Blank(lo, hi), ram, y);
  }

  /** What a process reads of the memory that uvmalloc has added is zero. */
  lemma {:induction false} NewMemoryIsZero(s: Space, s': Space, lo: nat, hi: nat, ram: Ram, va: nat, n: nat, k: nat)
    requires lo <= hi <= MAXVPN && PageTable.Grown(s, s', lo, hi - lo, PageTable.Blank(lo, hi), ram)
    requires s'.Valid(ram) && UserPages(s, ram) && lo * PGSIZE <= va && va + n <= hi * PGSIZE && k < n
    ensures UserCopy.Backed(ViewOf(s'), DataOf(ram)) && UserCopy.Reachable(ViewOf(s'), va, n)
    ensures UserCopy.Fetched(ViewOf(s'), DataOf(ram), va, n)[k] == 0
  {
    hide PageTable.Grown, PageTable.Blank, Space.Valid, ViewOf, DataOf, UserPages, UserCopy.Fetched;
    GrownPages(s, s', lo, hi - lo, PageTable.Blank(lo, hi), ram);
    ViewBacked(s', ram);
    forall j: nat | j < n ensures UserCopy.PageOf(va, j) in ViewOf(s') {
      WithinPages(va + j, lo, hi);
      NewPageIsZero(s, s', lo, hi, ram, (va + j) / PGSIZE);
    }
    WithinPages(va + k, lo, hi);
    NewPageIsZero(s, s', lo, hi, ram, (va + k) / PGSIZE);
    UserCopy.FetchedAt(ViewOf(s'), DataOf(ram), va, n, k);
  }

  lemma WithinPages(a: nat, lo: nat, hi: nat)
    requires lo * PGSIZE <= a < hi * PGSIZE
    ensures lo <= a / PGSIZE < hi
  {
  }

  /** A child may use exactly the pages that its parent may, and they have the same bytes. */
  lemma CopiedPage(so: Space, ram0: Ram, s: Space, s': Space, n: nat, ram: Ram, y: nat)
    requires PageTable.Grown(s, s', 0, n, PageTable.Images(so, ram0, n), ram) && y < n <= MAXVPN
    requires PageTable.Present(so, ram0, y)
    ensures y in ViewOf(s') <==> y in ViewOf(so)
    ensures y in ViewOf(so) ==>
              ViewOf(so)[y] in DataOf(ram0) && Usable(s', ram, y, DataOf(ram0)[ViewOf(so)[y]])
  {
    var want := PageTable.Images(so, ram0, n);
    assert PageTable.GrownAt(s, s', 0, n, want, ram, y) && want[y].perm == so.leaf[y];
  }

  /** After fork the child reads in its memory what the parent had there. */
  lemma {:induction false} ForkReadsSame(so: Space, ram0: Ram, s: Space, s': Space, n: nat, ram: Ram, va: nat, len: nat)
    requires PageTable.Grown(s, s', 0, n, PageTable.Images(so, ram0, n), ram) && va + len <= n * PGSIZE && n <= MAXVPN
    requires forall y :: 0 <= y < n ==> PageTable.Present(so, ram0, y)
    requires UserCopy.Backed(ViewOf(so), DataOf(ram0)) && UserCopy.Backed(ViewOf(s'), DataOf(ram))
    ensures UserCopy.Reachable(ViewOf(s'), va, len) <==> UserCopy.Reachable(ViewOf(so), va, len)
    ensures UserCopy.Reachable(ViewOf(so), va, len) ==>
              UserCopy.Fetched(ViewOf(s'), DataOf(ram), va, len) == UserCopy.Fetched(ViewOf(so), DataOf(ram0), va, len)
  {
    hide PageTable.Grown, PageTable.Images, ViewOf, DataOf, UserCopy.Fetched, PageTable.Present;
    forall k: nat | k < len
      ensures UserCopy.PageOf(va, k) in ViewOf(s') <==> UserCopy.PageOf(va, k) in ViewOf(so)
    {
      WithinPages(va + k, 0, n);
      CopiedPage(so, ram0, s, s', n, ram, (va + k) / PGSIZE);
    }
    if UserCopy.Reachable(ViewOf(so), va, len) {
      forall k: nat | k < len
        ensures UserCopy.Fetched(ViewOf(s'), DataOf(ram), va, len)[k]
             == UserCopy.Fetched(ViewOf(so), DataOf(ram0), va, len)[k]
      {
        UserCopy.FetchedAt(ViewOf(so), DataOf(ram0), va, len, k);
        UserCopy.FetchedAt(ViewOf(s'), DataOf(ram), va, len, k);
        WithinPages(va + k, 0, n);
        CopiedPage(so, ram0, s, s', n, ram, (va + k) / PGSIZE);
      }
    }
  }
}
