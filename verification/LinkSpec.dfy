/**
 Directories and link counts of kernel/sysfile.c and kernel/fs.c on values.
 A directory is its sequence of entries; entry 0 is ".", entry 1 "..".
 */
module LinkSpec {
  import opened Common

  datatype Kind = Free | Dir | File | Device

  /** A name as it is kept on disk. */
  type Name = s: string | |s| <= DIRSIZ

  /** A name as namecmp and strncpy see it: cut to DIRSIZ characters. */
  function Cut(name: string): (n: Name) { name[..Least(|name|, DIRSIZ)] }

  lemma CutDots()
    ensures Cut(DOT) == DOT && Cut(DOTDOT) == DOTDOT && DOT != DOTDOT
  {
    assert |DOT| != |DOTDOT|;
  }

  /** An entry whose inum is 0 is free. */
  datatype Entry = Entry(inum: nat, name: Name)
  datatype Inode = Inode(kind: Kind, nlink: int, ents: seq<Entry>)

  /** pend counts the links that sys_link has added to nlink and not yet entered. */
  datatype Fs = Fs(inodes: seq<Inode>, pend: seq<nat>) {

    ghost predicate Linked(d: nat) {
      d < |inodes| && inodes[d].kind == Dir && inodes[d].nlink > 0
    }

    /** Entry k of the linked directory d names i; "." does not count. */
    ghost predicate NamedAt(d: nat, k: nat, i: nat) {
      Linked(d) && 0 < k < |inodes[d].ents| && inodes[d].ents[k].inum == i && i != 0
    }

    /** The entries, other than ".", that name i in linked directories. */
    ghost function Names(i: nat): (s: set<(nat, nat)>) {
      set d: nat, k: nat | d < |inodes| && k < |inodes[d].ents| && NamedAt(d, k, i) :: (d, k)
    }

    ghost predicate CountAt(i: nat)
      requires |pend| == |inodes|
    {
      i < |inodes| ==> inodes[i].nlink == |Names(i)| + pend[i]
    }

    /** The dots, and no other entry called so; no name twice. */
    ghost predicate DirAt(d: nat) {
      Linked(d) ==>
        var e := inodes[d].ents;
        && |e| >= 2 && e[0] == Entry(d, DOT) && e[1].name == DOTDOT && e[1].inum != 0
        && (forall k :: 2 <= k < |e| && e[k].inum != 0 ==> e[k].name != DOT && e[k].name != DOTDOT)
        && (forall j, k :: 0 <= j < k < |e| && e[j].inum != 0 && e[k].inum != 0 ==> e[j].name != e[k].name)
    }

    /** A linked directory is named in its parent. */
    ghost predicate ParentAt(d: nat) {
      Linked(d) && |inodes[d].ents| >= 2 ==>
        if d == ROOTINO then inodes[d].ents[1].inum == ROOTINO
        else exists k :: 2 <= k && NamedAt(inodes[d].ents[1].inum, k, d)
    }

    /** An entry names an inode in use, but never the root; a directory has one name. */
    ghost predicate NameAt(d: nat, k: nat, i: nat) {
      k >= 2 && NamedAt(d, k, i) ==> i < |inodes| && i != ROOTINO && inodes[i].kind != Free
    }

    ghost predicate OnceAt(d: nat, k: nat, d': nat, k': nat, i: nat) {
      k >= 2 && k' >= 2 && NamedAt(d, k, i) && NamedAt(d', k', i) && i < |inodes| && inodes[i].kind == Dir ==>
        d == d' && k == k'
    }

    /** The linked directories form a tree with dots. */
    ghost predicate Shape() {
      && (forall d :: DirAt(d))
      && (forall d :: ParentAt(d))
      && (forall d, k, i :: NameAt(d, k, i))
      && (forall d, k, d', k', i :: OnceAt(d, k, d', k', i))
    }

    ghost predicate PendAt(i: nat)
      requires |pend| == |inodes|
    {
      i < |inodes| && (inodes[i].kind == Dir || inodes[i].kind == Free) ==> pend[i] == 0
    }

    /** A directory that has been unlinked has its dots, and nothing behind them. */
    ghost predicate EmptiedAt(d: nat) {
      d < |inodes| && inodes[d].kind == Dir && !Linked(d) ==>
        var e := inodes[d].ents;
        && |e| >= 2 && e[0] == Entry(d, DOT) && e[1].name == DOTDOT && 0 < e[1].inum < |inodes|
        && forall k :: 2 <= k < |e| ==> e[k].inum == 0
    }

    /** nlink is the number of names, and of links on their way. */
    ghost predicate Valid() {
      && |pend| == |inodes| > ROOTINO && inodes[0].kind == Free && Linked(ROOTINO) && Shape()
      && (forall d :: EmptiedAt(d))
      && (forall i :: CountAt(i)) && (forall i :: PendAt(i))
    }

    /** An inode that a linked directory names has links. */
    lemma NamedHasLinks(d: nat, k: nat, i: nat)
      requires Valid() && NamedAt(d, k, i) && i < |inodes|
      ensures inodes[i].nlink > 0
    {
      assert (d, k) in Names(i) && CountAt(i);
    }

    /** A directory with nothing but dots has a single link: its name. */
    lemma EmptyHasOneLink(d: nat, k: nat, i: nat)
      requires Valid() && NamedAt(d, k, i) && k >= 2 && i < |inodes| && inodes[i].kind == Dir
      requires forall j :: 2 <= j < |inodes[i].ents| ==> inodes[i].ents[j].inum == 0
      ensures inodes[i].nlink == 1 && Names(i) == {(d, k)}
    {
      forall x | x in Names(i) ensures x == (d, k) {
        assert OnceAt(d, k, x.0, x.1, i) && NameAt(d, k, i) && ParentAt(x.0) && DirAt(x.0);
      }
      assert (d, k) in Names(i);
      assert Names(i) == {(d, k)} && CountAt(i) && PendAt(i);
    }

    // ----------------------------------------------------------------
    // How entries and names change together

    ghost predicate SameNamedAt(g: Fs, d: nat, k: nat, i: nat) {
      NamedAt(d, k, i) <==> g.NamedAt(d, k, i)
    }

    /** Every entry of a directory, the dots included, names an inode of the disk. */
    lemma EntryExists(d: nat, k: nat)
      requires Valid() && d < |inodes| && inodes[d].kind == Dir && k < |inodes[d].ents| && inodes[d].ents[k].inum != 0
      ensures inodes[d].ents[k].inum < |inodes|
    {
      assert DirAt(d) && EmptiedAt(d) && ParentAt(d) && NameAt(d, k, inodes[d].ents[k].inum);
    }

    /** The first free entry of a directory is behind its dots. */
    lemma FirstFree(d: nat, k: nat)
      requires Valid() && d < |inodes| && inodes[d].kind == Dir && k <= |inodes[d].ents|
      requires k < |inodes[d].ents| ==> inodes[d].ents[k].inum == 0
      ensures Vacant(d, k)
    {
      assert DirAt(d) && EmptiedAt(d);
    }

    lemma NamesSame(g: Fs, i: nat)
      requires forall d, k :: SameNamedAt(g, d, k, i)
      ensures g.Names(i) == Names(i)
    {
      forall x ensures x in g.Names(i) <==> x in Names(i) {
        assert SameNamedAt(g, x.0, x.1, i);
      }
    }

    /** g has one more name for i. */
    lemma NamesMore(g: Fs, i: nat, d: nat, k: nat)
      requires !NamedAt(d, k, i) && g.NamedAt(d, k, i)
      requires forall d': nat, k': nat :: (d', k') != (d, k) ==> SameNamedAt(g, d', k', i)
      ensures g.Names(i) == Names(i) + {(d, k)} && |g.Names(i)| == |Names(i)| + 1
    {
      forall x ensures x in g.Names(i) <==> x in Names(i) || x == (d, k) {
        assert x != (d, k) ==> SameNamedAt(g, x.0, x.1, i);
      }
      assert g.Names(i) == Names(i) + {(d, k)} && (d, k) !in Names(i);
    }

    // ----------------------------------------------------------------
    // sys_link

    /** nlink and pend of an inode that is not a directory. */
    ghost function Counted(i: nat, nlink: int, p: nat): (g: Fs)
      requires i < |inodes| && i < |pend|
    {
      Fs(inodes[i := inodes[i].(nlink := nlink)], pend[i := p])
    }

    /** The two halves of sys_link's count: a link promised, or taken back. */
    lemma CountedKeeps(i: nat, nlink: int, p: nat)
      requires Valid() && i < |inodes| && inodes[i].kind != Dir && inodes[i].kind != Free
      requires nlink - p == inodes[i].nlink - pend[i]
      ensures Counted(i, nlink, p).Valid()
    {
      var g := Counted(i, nlink, p);
      forall d: nat, k: nat, j: nat ensures SameNamedAt(g, d, k, j) {
      }
      forall j: nat ensures g.CountAt(j) && g.PendAt(j) && g.EmptiedAt(j) {
        NamesSame(g, j);
        assert CountAt(j) && PendAt(j) && EmptiedAt(j);
      }
      SameShape(g);
    }

    /** g has the same names in the same places. */
    lemma SameShape(g: Fs)
      requires Shape() && |g.inodes| == |inodes| && forall d, k, i :: SameNamedAt(g, d, k, i)
      requires forall i :: 0 <= i < |inodes| ==> (inodes[i].kind == Dir <==> g.inodes[i].kind == Dir)
      requires forall i :: 0 <= i < |inodes| && inodes[i].kind != Free ==> g.inodes[i].kind != Free
      requires forall d: nat :: g.Linked(d) ==> Linked(d) && g.inodes[d].ents == inodes[d].ents
      ensures g.Shape()
    {
      forall d: nat ensures g.DirAt(d) && g.ParentAt(d) {
        assert DirAt(d) && ParentAt(d);
        if g.Linked(d) && d != ROOTINO {
          var k: nat :| 2 <= k && NamedAt(inodes[d].ents[1].inum, k, d);
          assert SameNamedAt(g, inodes[d].ents[1].inum, k, d);
        }
      }
      forall d, k, i ensures g.NameAt(d, k, i) {
        assert NameAt(d, k, i) && SameNamedAt(g, d, k, i);
      }
      forall d, k, d', k', i ensures g.OnceAt(d, k, d', k', i) {
        assert OnceAt(d, k, d', k', i) && SameNamedAt(g, d, k, i) && SameNamedAt(g, d', k', i);
      }
    }

    /** Nothing names an inode that is free. */
    lemma FreeUnnamed(i: nat)
      requires Valid() && i < |inodes| && inodes[i].kind == Free
      ensures Names(i) == {} && inodes[i].nlink == 0 && i != ROOTINO
    {
      forall d: nat, k: nat ensures !NamedAt(d, k, i) {
        assert NameAt(d, k, i) && DirAt(d) && ParentAt(d);
      }
      assert Names(i) == {} && CountAt(i) && PendAt(i);
    }

    /** A free inode taken for a file or device, with one link promised. */
    ghost function Born(i: nat, kind: Kind): (g: Fs)
      requires i < |inodes| && i < |pend|
    {
      Fs(inodes[i := Inode(kind, 1, [])], pend[i := 1])
    }

    lemma BornKeeps(i: nat, kind: Kind)
      requires Valid() && 0 < i < |inodes| && inodes[i].kind == Free && (kind == File || kind == Device)
      ensures Born(i, kind).Valid()
    {
      var g := Born(i, kind);
      FreeUnnamed(i);
      forall d: nat, k: nat, j: nat ensures SameNamedAt(g, d, k, j) {
      }
      forall j: nat ensures g.CountAt(j) && g.PendAt(j) && g.EmptiedAt(j) {
        NamesSame(g, j);
        assert CountAt(j) && PendAt(j) && EmptiedAt(j);
      }
      SameShape(g);
    }

    /** iput frees an inode without links. */
    ghost function Freed(i: nat): (g: Fs)
      requires i < |inodes|
    {
      this.(inodes := inodes[i := Inode(Free, 0, [])])
    }

    /** No linked directory names an inode that iput frees, so nothing is lost. */
    lemma FreedKeeps(i: nat)
      requires Valid() && i < |inodes| && inodes[i].nlink == 0
      ensures Names(i) == {} && Freed(i).Valid()
      ensures Freed(i).inodes[i].kind == Free && Freed(i).pend == pend
      ensures forall j :: 0 <= j < |inodes| && j != i ==> Freed(i).inodes[j] == inodes[j]
    {
      var g := Freed(i);
      assert CountAt(i) && PendAt(i);
      forall d: nat, k: nat, j: nat ensures SameNamedAt(g, d, k, j) {
      }
      forall j: nat ensures g.CountAt(j) && g.PendAt(j) && g.EmptiedAt(j) {
        NamesSame(g, j);
        assert CountAt(j) && PendAt(j) && EmptiedAt(j);
      }
      forall d: nat, k: nat, j: nat | k >= 2 && NamedAt(d, k, j) && j < |inodes|
        ensures j != i && g.inodes[j].kind != Free
      {
        assert (d, k) in Names(j) && NameAt(d, k, j);
      }
      FreedShape(i);
    }

    lemma FreedShape(i: nat)
      requires Shape() && i < |inodes| && inodes[i].nlink == 0
      requires forall d: nat, k: nat, j: nat :: k >= 2 && NamedAt(d, k, j) && j < |inodes| ==> j != i
      ensures Freed(i).Shape()
    {
      var g := Freed(i);
      forall d: nat, k: nat, j: nat ensures SameNamedAt(g, d, k, j) {
      }
      forall d: nat ensures g.DirAt(d) && g.ParentAt(d) {
        assert DirAt(d) && ParentAt(d);
        if g.Linked(d) && d != ROOTINO {
          var k: nat :| 2 <= k && NamedAt(inodes[d].ents[1].inum, k, d);
          assert SameNamedAt(g, inodes[d].ents[1].inum, k, d);
        }
      }
      forall d, k, j ensures g.NameAt(d, k, j) {
        assert NameAt(d, k, j) && SameNamedAt(g, d, k, j);
      }
      forall d, k, d', k', j ensures g.OnceAt(d, k, d', k', j) {
        assert OnceAt(d, k, d', k', j) && SameNamedAt(g, d, k, j) && SameNamedAt(g, d', k', j);
      }
    }

    // ----------------------------------------------------------------
    // Entries

    /** Entry k of a directory written, or one appended. */
    ghost function WithEntry(d: nat, k: nat, e: Entry): (g: Fs)
      requires d < |inodes| && k <= |inodes[d].ents|
    {
      var es := inodes[d].ents;
      this.(inodes := inodes[d := inodes[d].(ents := if k < |es| then es[k := e] else es + [e])])
    }

    ghost predicate Vacant(d: nat, k: nat) {
      d < |inodes| && 2 <= k <= |inodes[d].ents| && (k < |inodes[d].ents| ==> inodes[d].ents[k].inum == 0)
    }

    /** The name is new in the directory. */
    ghost predicate Fresh(d: nat, name: Name) {
      && d < |inodes|
      && forall k :: 0 <= k < |inodes[d].ents| && inodes[d].ents[k].inum != 0 ==> inodes[d].ents[k].name != name
    }

    /** Where g has names: as this, but for the place (d, k), which names i. */
    ghost predicate GainsAt(g: Fs, d: nat, k: nat, i: nat, d': nat, k': nat, j: nat) {
      g.NamedAt(d', k', j) <==> if (d', k') == (d, k) then j == i else NamedAt(d', k', j)
    }

    lemma GainsNames(g: Fs, d: nat, k: nat, i: nat, j: nat)
      requires (forall d', k', j :: GainsAt(g, d, k, i, d', k', j)) && forall j: nat :: !NamedAt(d, k, j)
      ensures |g.Names(j)| == |Names(j)| + if j == i then 1 else 0
    {
      forall d': nat, k': nat ensures (d', k') != (d, k) || j != i ==> SameNamedAt(g, d', k', j) {
        assert GainsAt(g, d, k, i, d', k', j);
      }
      if j == i {
        assert GainsAt(g, d, k, i, d, k, j);
        NamesMore(g, j, d, k);
      } else {
        NamesSame(g, j);
      }
    }

    /** The promised link is entered: sys_link, or create of a file, succeeds. */
    ghost function Entered(d: nat, k: nat, i: nat, name: Name): (g: Fs)
      requires d < |inodes| && k <= |inodes[d].ents| && i < |pend| && pend[i] > 0
    {
      WithEntry(d, k, Entry(i, name)).(pend := pend[i := pend[i] - 1])
    }

    lemma EnteredGains(d: nat, k: nat, i: nat, name: Name, d': nat, k': nat, j: nat)
      requires Linked(d) && Vacant(d, k) && 0 < i < |pend| && pend[i] > 0
      ensures GainsAt(Entered(d, k, i, name), d, k, i, d', k', j)
    {
    }

    lemma EnteredKeeps(d: nat, k: nat, i: nat, name: Name)
      requires Valid() && Linked(d) && Vacant(d, k) && Fresh(d, name)
      requires 0 < i < |inodes| && pend[i] > 0
      ensures Entered(d, k, i, name).Valid()
    {
      var g := Entered(d, k, i, name);
      assert PendAt(i) && PendAt(ROOTINO);
      forall d': nat, k': nat, j: nat ensures GainsAt(g, d, k, i, d', k', j) {
        EnteredGains(d, k, i, name, d', k', j);
      }
      forall j: nat ensures g.CountAt(j) && g.PendAt(j) && g.EmptiedAt(j) {
        GainsNames(g, d, k, i, j);
        assert CountAt(j) && PendAt(j) && EmptiedAt(j);
      }
      EnteredShape(d, k, i, name);
    }

    lemma EnteredShape(d: nat, k: nat, i: nat, name: Name)
      requires Shape() && Linked(d) && Vacant(d, k) && Fresh(d, name)
      requires 0 < i < |pend| == |inodes| && pend[i] > 0 && i != ROOTINO && inodes[i].kind != Free
      requires inodes[i].kind != Dir
      ensures Entered(d, k, i, name).Shape()
    {
      var g := Entered(d, k, i, name);
      assert DirAt(d);
      forall d': nat ensures g.DirAt(d') && g.ParentAt(d') {
        assert DirAt(d') && ParentAt(d');
        if g.Linked(d') && d' != ROOTINO {
          var k': nat :| 2 <= k' && NamedAt(inodes[d'].ents[1].inum, k', d');
          EnteredGains(d, k, i, name, inodes[d'].ents[1].inum, k', d');
          assert g.NamedAt(inodes[d'].ents[1].inum, k', d');
        }
      }
      forall d': nat, k': nat, j: nat ensures g.NameAt(d', k', j) {
        assert NameAt(d', k', j);
        EnteredGains(d, k, i, name, d', k', j);
      }
      forall a: nat, b: nat, a': nat, b': nat, j: nat ensures g.OnceAt(a, b, a', b', j) {
        assert OnceAt(a, b, a', b', j);
        EnteredGains(d, k, i, name, a, b, j);
        EnteredGains(d, k, i, name, a', b', j);
      }
    }

    /** The condition is exact: in a directory that has been unlinked, the entry does not count. */
    lemma EnteredNeedsLinked(d: nat, k: nat, i: nat, name: Name)
      requires Valid() && d < |inodes| && inodes[d].kind == Dir && Vacant(d, k) && Fresh(d, name)
      requires 0 < i < |inodes| && pend[i] > 0
      ensures Entered(d, k, i, name).Valid() <==> Linked(d)
    {
      if Linked(d) {
        EnteredKeeps(d, k, i, name);
      } else {
        var g := Entered(d, k, i, name);
        forall d': nat, k': nat ensures SameNamedAt(g, d', k', i) {
        }
        NamesSame(g, i);
        assert CountAt(i) && !g.CountAt(i);
      }
    }

    // ----------------------------------------------------------------
    // unlink of a file

    /** The entry is cleared; its link is still counted. */
    ghost function Left(d: nat, k: nat): (g: Fs)
      requires d < |inodes| && k < |inodes[d].ents| && inodes[d].ents[k].inum < |pend|
    {
      var i := inodes[d].ents[k].inum;
      WithEntry(d, k, Entry(0, "")).(pend := pend[i := pend[i] + 1])
    }

    lemma LeftKeeps(d: nat, k: nat, i: nat)
      requires Valid() && NamedAt(d, k, i) && k >= 2 && i < |inodes| && inodes[i].kind != Dir
      ensures Left(d, k).Valid()
    {
      var g := Left(d, k);
      assert NameAt(d, k, i);
      forall d': nat, k': nat, j: nat ensures g.GainsAt(this, d, k, i, d', k', j) && !g.NamedAt(d, k, j) {
      }
      forall j: nat ensures g.CountAt(j) && g.PendAt(j) && g.EmptiedAt(j) {
        g.GainsNames(this, d, k, i, j);
        assert CountAt(j) && PendAt(j) && EmptiedAt(j);
      }
      LeftShape(d, k, i);
    }

    lemma LeftShape(d: nat, k: nat, i: nat)
      requires Shape() && |pend| == |inodes| && NamedAt(d, k, i) && k >= 2 && i < |inodes| && inodes[i].kind != Dir
      ensures Left(d, k).Shape()
    {
      var g := Left(d, k);
      forall d': nat, k': nat, j: nat ensures g.GainsAt(this, d, k, i, d', k', j) {
      }
      forall d': nat ensures g.DirAt(d') && g.ParentAt(d') {
        assert DirAt(d') && ParentAt(d') && DirAt(d);
        if g.Linked(d') && d' != ROOTINO {
          var k': nat :| 2 <= k' && NamedAt(inodes[d'].ents[1].inum, k', d');
          assert g.GainsAt(this, d, k, i, inodes[d'].ents[1].inum, k', d');
          assert g.NamedAt(inodes[d'].ents[1].inum, k', d');
        }
      }
      forall d': nat, k': nat, j: nat ensures g.NameAt(d', k', j) {
        assert NameAt(d', k', j) && g.GainsAt(this, d, k, i, d', k', j);
      }
      forall a: nat, b: nat, a': nat, b': nat, j: nat ensures g.OnceAt(a, b, a', b', j) {
        assert OnceAt(a, b, a', b', j) && g.GainsAt(this, d, k, i, a, b, j) && g.GainsAt(this, d, k, i, a', b', j);
      }
    }

    // ----------------------------------------------------------------
    // mkdir and unlink of a directory

    /** Inode i as an empty directory below d, with its dots, and the link to d that ".." is. */
    ghost function WithDots(d: nat, i: nat): (g: Fs)
      requires d < |inodes| && i < |inodes| && i != d
    {
      this.(inodes := inodes[i := Inode(Dir, 1, [Entry(i, DOT), Entry(d, DOTDOT)])]
                            [d := inodes[d].(nlink := inodes[d].nlink + 1)])
    }

    /** A new directory i in d: its dots, its name, and one more link to d for "..". */
    ghost function MadeDir(d: nat, k: nat, i: nat, name: Name): (g: Fs)
      requires d < |inodes| && k <= |inodes[d].ents| && i < |inodes| && i != d
    {
      WithDots(d, i).WithEntry(d, k, Entry(i, name))
    }

    ghost predicate MadeAt(g: Fs, d: nat, k: nat, i: nat, d': nat, k': nat, j: nat) {
      g.NamedAt(d', k', j) <==>
        if (d', k') == (d, k) then j == i
        else if d' == i then k' == 1 && j == d
        else NamedAt(d', k', j)
    }

    lemma DotsGain(d: nat, i: nat, d': nat, k': nat, j: nat)
      requires Linked(d) && d != 0 && 0 < i < |inodes| && inodes[i].kind == Free
      ensures GainsAt(WithDots(d, i), i, 1, d, d', k', j) && !NamedAt(i, 1, j)
    {
    }

    lemma EntryGain(d: nat, k: nat, i: nat, name: Name, d': nat, k': nat, j: nat)
      requires Linked(d) && Vacant(d, k) && 0 < i < |inodes| && inodes[i].kind == Free
      ensures WithDots(d, i).GainsAt(MadeDir(d, k, i, name), d, k, i, d', k', j) && !WithDots(d, i).NamedAt(d, k, j)
    {
    }

    lemma MadeDirNames(d: nat, k: nat, i: nat, name: Name, j: nat)
      requires Linked(d) && Vacant(d, k) && d != 0 && 0 < i < |inodes| && inodes[i].kind == Free
      ensures |MadeDir(d, k, i, name).Names(j)| == |Names(j)| + (if j == i then 1 else 0) + (if j == d then 1 else 0)
      ensures forall d', k', j :: MadeAt(MadeDir(d, k, i, name), d, k, i, d', k', j)
    {
      hide Fs.WithEntry;
      var g := MadeDir(d, k, i, name);
      var f1 := WithDots(d, i);
      forall d': nat, k': nat, j: nat ensures GainsAt(f1, i, 1, d, d', k', j) && !NamedAt(i, 1, j) {
        DotsGain(d, i, d', k', j);
      }
      GainsNames(f1, i, 1, d, j);
      forall d': nat, k': nat, j: nat ensures f1.GainsAt(g, d, k, i, d', k', j) && !f1.NamedAt(d, k, j) {
        EntryGain(d, k, i, name, d', k', j);
      }
      f1.GainsNames(g, d, k, i, j);
      forall d': nat, k': nat, j: nat ensures MadeAt(g, d, k, i, d', k', j) {
        assert GainsAt(f1, i, 1, d, d', k', j) && f1.GainsAt(g, d, k, i, d', k', j);
      }
    }

    lemma MadeDirKeeps(d: nat, k: nat, i: nat, name: Name)
      requires Valid() && Linked(d) && Vacant(d, k) && Fresh(d, name) && 0 < i < |inodes| && inodes[i].kind == Free
      ensures i != d && MadeDir(d, k, i, name).Valid()
    {
      FreeUnnamed(i);
      var g := MadeDir(d, k, i, name);
      forall j: nat ensures g.CountAt(j) && g.PendAt(j) && g.EmptiedAt(j) {
        MadeDirNames(d, k, i, name, j);
        assert CountAt(j) && PendAt(j) && EmptiedAt(j);
      }
      MadeDirShape(d, k, i, name);
    }

    lemma MadeDirDots(d: nat, k: nat, i: nat, name: Name, d': nat)
      requires DirAt(d) && DirAt(d') && Linked(d) && Vacant(d, k) && Fresh(d, name) && d != 0
      requires 0 < i < |inodes| && inodes[i].kind == Free
      ensures k >= 2 && MadeDir(d, k, i, name).DirAt(d')
    {
    }

    lemma MadeDirParent(d: nat, k: nat, i: nat, name: Name, d': nat)
      requires DirAt(d) && DirAt(d') && ParentAt(d') && Linked(d) && Vacant(d, k) && Fresh(d, name) && d != 0
      requires 0 < i < |inodes| && inodes[i].kind == Free && i != ROOTINO && Names(i) == {}
      ensures MadeDir(d, k, i, name).ParentAt(d')
    {
      var g := MadeDir(d, k, i, name);
      MadeDirNames(d, k, i, name, i);
      MadeDirDots(d, k, i, name, d);
      if d' == i {
        assert g.inodes[i].ents[1].inum == d;
        assert MadeAt(g, d, k, i, d, k, i) && g.NamedAt(d, k, i);
      } else if g.Linked(d') && d' != ROOTINO {
        var k': nat :| 2 <= k' && NamedAt(inodes[d'].ents[1].inum, k', d');
        assert MadeAt(g, d, k, i, inodes[d'].ents[1].inum, k', d');
        assert g.NamedAt(inodes[d'].ents[1].inum, k', d');
      }
    }

    lemma MadeDirShape(d: nat, k: nat, i: nat, name: Name)
      requires Shape() && Linked(d) && Vacant(d, k) && Fresh(d, name) && d != 0
      requires 0 < i < |inodes| && inodes[i].kind == Free && i != ROOTINO && Names(i) == {}
      ensures MadeDir(d, k, i, name).Shape()
    {
      hide Fs.DirAt, Fs.ParentAt;
      var g := MadeDir(d, k, i, name);
      MadeDirNames(d, k, i, name, i);
      forall d': nat, k': nat ensures !NamedAt(d', k', i) {
        assert (d', k') !in Names(i);
      }
      forall d': nat ensures g.DirAt(d') && g.ParentAt(d') {
        MadeDirDots(d, k, i, name, d');
        MadeDirParent(d, k, i, name, d');
      }
      forall d': nat, k': nat, j: nat ensures g.NameAt(d', k', j) {
        assert NameAt(d', k', j) && MadeAt(g, d, k, i, d', k', j);
      }
      forall a: nat, b: nat, a': nat, b': nat, j: nat ensures g.OnceAt(a, b, a', b', j) {
        assert OnceAt(a, b, a', b', j) && MadeAt(g, d, k, i, a, b, j) && MadeAt(g, d, k, i, a', b', j);
      }
    }

    /** In a directory that has been unlinked, mkdir leaves the count of its parent wrong. */
    lemma MadeDirNeedsLinked(d: nat, k: nat, i: nat, name: Name)
      requires Valid() && d < |inodes| && inodes[d].kind == Dir && Vacant(d, k) && Fresh(d, name)
      requires 0 < i < |inodes| && inodes[i].kind == Free
      ensures i != d && (MadeDir(d, k, i, name).Valid() <==> Linked(d))
    {
      FreeUnnamed(i);
      var g := MadeDir(d, k, i, name);
      if Linked(d) {
        MadeDirKeeps(d, k, i, name);
      } else {
        assert CountAt(d) && EmptiedAt(d);
        if g.Valid() {
          assert g.ParentAt(d) && g.DirAt(d) && g.CountAt(d);
          assert (i, 1) in g.Names(d) by {
            assert g.NamedAt(i, 1, d);
          }
          var p: nat := g.inodes[d].ents[1].inum;
          var k': nat :| 2 <= k' && g.NamedAt(p, k', d);
          OnlyOne(g.Names(d), (i, 1), (p, k'));
        }
      }
    }

    static lemma OnlyOne(s: set<(nat, nat)>, x: (nat, nat), y: (nat, nat))
      requires x in s && y in s && x != y
      ensures |s| >= 2
    {
      assert |s - {x}| == |s| - 1 && y in s - {x};
    }

    /** The empty directory i removed from d. */
    ghost function Removed(d: nat, k: nat, i: nat): (g: Fs)
      requires d < |inodes| && k < |inodes[d].ents| && i < |inodes|
    {
      var f1 := WithEntry(d, k, Entry(0, ""));
      f1.(inodes := f1.inodes[d := f1.inodes[d].(nlink := f1.inodes[d].nlink - 1)]
                             [i := f1.inodes[i].(nlink := f1.inodes[i].nlink - 1)])
    }

    ghost predicate EmptyDir(i: nat) {
      i < |inodes| && inodes[i].kind == Dir && forall j :: 2 <= j < |inodes[i].ents| ==> inodes[i].ents[j].inum == 0
    }

    /** A directory that holds an empty one has a link besides its child's "..", so it stays linked. */
    lemma HolderStaysLinked(d: nat, k: nat, i: nat)
      requires Valid() && NamedAt(d, k, i) && k >= 2 && EmptyDir(i)
      ensures i != d && Linked(i) && |inodes[i].ents| >= 2 && inodes[i].ents[1].inum == d && inodes[d].nlink >= 2
    {
      EmptyHasOneLink(d, k, i);
      assert NameAt(d, k, i) && ParentAt(i) && DirAt(i) && ParentAt(d) && DirAt(d) && CountAt(d);
      var p: nat := inodes[i].ents[1].inum;
      var k1: nat :| 2 <= k1 && NamedAt(p, k1, i);
      assert OnceAt(d, k, p, k1, i);
      assert NamedAt(i, 1, d) && (i, 1) in Names(d);
      if d == ROOTINO {
        assert NamedAt(d, 1, d) && (d, 1) in Names(d);
        OnlyOne(Names(d), (i, 1), (d, 1));
      } else {
        var q: nat := inodes[d].ents[1].inum;
        var k2: nat :| 2 <= k2 && NamedAt(q, k2, d);
        assert (q, k2) in Names(d);
        OnlyOne(Names(d), (i, 1), (q, k2));
      }
    }

    lemma RemovedNames(d: nat, k: nat, i: nat, j: nat)
      requires Valid() && NamedAt(d, k, i) && k >= 2 && EmptyDir(i)
      ensures |Names(j)| == |Removed(d, k, i).Names(j)| + (if j == i then 1 else 0) + (if j == d then 1 else 0)
      ensures forall d', k', j :: Removed(d, k, i).MadeAt(this, d, k, i, d', k', j)
    {
      HolderStaysLinked(d, k, i);
      EmptyHasOneLink(d, k, i);
      var f1, g := WithEntry(d, k, Entry(0, "")), Removed(d, k, i);
      forall d': nat, k': nat, j: nat ensures f1.GainsAt(this, d, k, i, d', k', j) && !f1.NamedAt(d, k, j) {
      }
      f1.GainsNames(this, d, k, i, j);
      forall d': nat, k': nat, j: nat ensures g.GainsAt(f1, i, 1, d, d', k', j) && !g.NamedAt(i, 1, j) {
      }
      g.GainsNames(f1, i, 1, d, j);
      forall d': nat, k': nat, j: nat ensures g.MadeAt(this, d, k, i, d', k', j) {
        assert f1.GainsAt(this, d, k, i, d', k', j) && g.GainsAt(f1, i, 1, d, d', k', j);
      }
    }

    lemma RemovedKeeps(d: nat, k: nat, i: nat)
      requires Valid() && NamedAt(d, k, i) && k >= 2 && EmptyDir(i)
      ensures Removed(d, k, i).Valid()
    {
      HolderStaysLinked(d, k, i);
      assert NameAt(d, k, i);
      var g := Removed(d, k, i);
      assert DirAt(i);
      forall j: nat ensures g.CountAt(j) && g.PendAt(j) && g.EmptiedAt(j) {
        RemovedNames(d, k, i, j);
        assert CountAt(j) && PendAt(j) && EmptiedAt(j);
      }
      RemovedShape(d, k, i);
    }

    lemma RemovedDir(d: nat, k: nat, i: nat, d': nat)
      requires Valid() && NamedAt(d, k, i) && k >= 2 && EmptyDir(i)
      ensures Removed(d, k, i).DirAt(d') && Removed(d, k, i).ParentAt(d')
    {
      hide Fs.NameAt, Fs.CountAt, Fs.PendAt, Fs.EmptiedAt, Fs.Names;
      var g := Removed(d, k, i);
      HolderStaysLinked(d, k, i);
      EmptyHasOneLink(d, k, i);
      RemovedNames(d, k, i, i);
      assert DirAt(d') && ParentAt(d') && DirAt(d);
      if g.Linked(d') && d' != ROOTINO {
        var k': nat :| 2 <= k' && NamedAt(inodes[d'].ents[1].inum, k', d');
        assert g.MadeAt(this, d, k, i, inodes[d'].ents[1].inum, k', d');
        assert g.NamedAt(inodes[d'].ents[1].inum, k', d');
      }
    }

    lemma RemovedShape(d: nat, k: nat, i: nat)
      requires Valid() && NamedAt(d, k, i) && k >= 2 && EmptyDir(i)
      ensures Removed(d, k, i).Shape()
    {
      hide Fs.DirAt, Fs.ParentAt, Fs.CountAt, Fs.PendAt, Fs.EmptiedAt, Fs.Names;
      var g := Removed(d, k, i);
      HolderStaysLinked(d, k, i);
      RemovedNames(d, k, i, i);
      forall d': nat ensures g.DirAt(d') && g.ParentAt(d') {
        RemovedDir(d, k, i, d');
      }
      forall d': nat, k': nat, j: nat ensures g.NameAt(d', k', j) {
        assert NameAt(d', k', j) && g.MadeAt(this, d, k, i, d', k', j);
      }
      forall a: nat, b: nat, a': nat, b': nat, j: nat ensures g.OnceAt(a, b, a', b', j) {
        assert OnceAt(a, b, a', b', j) && g.MadeAt(this, d, k, i, a, b, j) && g.MadeAt(this, d, k, i, a', b', j);
      }
    }

    // ----------------------------------------------------------------
    // Directories as tables from names to inodes

    ghost predicate ListedAt(d: nat, k: nat, n: Name, i: nat) {
      d < |inodes| && inodes[d].kind == Dir && k < |inodes[d].ents| && inodes[d].ents[k] == Entry(i, n) && i != 0
    }

    /** Directory d has the name n for inode i. */
    ghost predicate Lists(d: nat, n: Name, i: nat) {
      exists k :: ListedAt(d, k, n, i)
    }

    /** Nothing is different but that g has the name n for i in d. */
    ghost predicate Enters(g: Fs, d: nat, n: Name, i: nat) {
      && |g.inodes| == |inodes| && d < |inodes|
      && (forall j :: 0 <= j < |inodes| && j != d ==> g.inodes[j] == inodes[j])
      && g.inodes[d] == inodes[d].(ents := g.inodes[d].ents)
      && forall d': nat, n': Name, j: nat :: g.Lists(d', n', j) <==> Lists(d', n', j) || (d', n', j) == (d, n, i)
    }

    /** Directory i has its dots and is below d. */
    ghost predicate IsDot(i: nat, d: nat, d': nat, n: Name, j: nat) {
      d' == i && ((n == DOT && j == i) || (n == DOTDOT && j == d))
    }

    /**
     Inode i has become a file, device or directory with a single link, whose
     name is n in d.  A directory has its dots, and d a link more.
     */
    ghost predicate Creates(g: Fs, d: nat, n: Name, i: nat, kind: Kind) {
      && |g.inodes| == |inodes| && d < |inodes| && i < |inodes| && i != d && g.pend == pend
      && g.inodes[i].kind == kind && g.inodes[i].nlink == 1 && (kind != Dir ==> g.inodes[i].ents == [])
      && g.inodes[d].kind == inodes[d].kind && g.inodes[d].nlink == inodes[d].nlink + (if kind == Dir then 1 else 0)
      && (forall j :: 0 <= j < |inodes| && j != i && j != d ==> g.inodes[j] == inodes[j])
      && forall d': nat, n': Name, j: nat :: g.Lists(d', n', j) <==>
           Lists(d', n', j) || (d', n', j) == (d, n, i) || (kind == Dir && IsDot(i, d, d', n', j))
    }

    /** The name n has gone from d, and i has a link less; if i is a directory, so has d. */
    ghost predicate Unlinks(g: Fs, d: nat, n: Name, i: nat) {
      && |g.inodes| == |inodes| && d < |inodes| && i < |inodes| && g.pend == pend && Lists(d, n, i)
      && (forall j :: 0 <= j < |inodes| && j != i && j != d ==> g.inodes[j] == inodes[j])
      && (i != d ==> g.inodes[i] == inodes[i].(nlink := inodes[i].nlink - 1))
      && g.inodes[d].kind == inodes[d].kind
      && g.inodes[d].nlink ==
           inodes[d].nlink - (if i == d then 1 else 0) - (if inodes[i].kind == Dir then 1 else 0)
      && forall d': nat, n': Name, j: nat :: g.Lists(d', n', j) <==> Lists(d', n', j) && (d', n') != (d, n)
    }

    lemma ListsSame(g: Fs, d: nat, n: Name, i: nat)
      requires |g.inodes| == |inodes|
      requires d < |inodes| ==>
                 g.inodes[d].ents == inodes[d].ents && (g.inodes[d].kind == Dir <==> inodes[d].kind == Dir)
      ensures g.Lists(d, n, i) <==> Lists(d, n, i)
    {
      if k :| ListedAt(d, k, n, i) {
        assert g.ListedAt(d, k, n, i);
      }
      if k :| g.ListedAt(d, k, n, i) {
        assert ListedAt(d, k, n, i);
      }
    }

    /** Links on their way are in no directory. */
    lemma EntersPend(g: Fs, p: seq<nat>, d: nat, n: Name, i: nat)
      requires Enters(g, d, n, i)
      ensures this.(pend := p).Enters(g, d, n, i)
    {
      var f := this.(pend := p);
      forall d': nat, n': Name, j: nat ensures g.Lists(d', n', j) <==> f.Lists(d', n', j) || (d', n', j) == (d, n, i) {
        ListsSame(f, d', n', j);
      }
    }

    lemma EntryLists(d: nat, k: nat, n: Name, i: nat, d': nat, n': Name, j: nat)
      requires Vacant(d, k) && inodes[d].kind == Dir && i != 0
      ensures WithEntry(d, k, Entry(i, n)).Lists(d', n', j) <==> Lists(d', n', j) || (d', n', j) == (d, n, i)
    {
      var g := WithEntry(d, k, Entry(i, n));
      assert g.ListedAt(d, k, n, i);
      if k' :| g.ListedAt(d', k', n', j) {
        assert ListedAt(d', k', n', j) || (d', n', j) == (d, n, i);
      }
      if k' :| ListedAt(d', k', n', j) {
        assert g.ListedAt(d', k', n', j);
      }
    }

    /** sys_link enters the name, and nothing else. */
    lemma EnteredEnters(d: nat, k: nat, i: nat, n: Name)
      requires Vacant(d, k) && inodes[d].kind == Dir && 0 < i < |pend| && pend[i] > 0
      ensures Enters(Entered(d, k, i, n), d, n, i)
    {
      var f1, g := WithEntry(d, k, Entry(i, n)), Entered(d, k, i, n);
      forall d': nat, n': Name, j: nat ensures g.Lists(d', n', j) <==> Lists(d', n', j) || (d', n', j) == (d, n, i) {
        EntryLists(d, k, n, i, d', n', j);
        f1.ListsSame(g, d', n', j);
      }
    }

    lemma BornCreates(d: nat, k: nat, i: nat, n: Name, kind: Kind)
      requires d < |inodes| == |pend| && 0 < i < |inodes| && i != d && inodes[d].kind == Dir && pend[i] == 0
      requires inodes[i].kind != Dir && kind != Dir && Born(i, kind).Vacant(d, k)
      ensures Creates(Born(i, kind).Entered(d, k, i, n), d, n, i, kind)
    {
      var f1 := Born(i, kind);
      var g := f1.Entered(d, k, i, n);
      f1.EnteredEnters(d, k, i, n);
      forall d': nat, n': Name, j: nat ensures f1.Lists(d', n', j) <==> Lists(d', n', j) {
        BornLists(i, kind, d', n', j);
      }
      assert g.pend == pend;
    }

    lemma BornLists(i: nat, kind: Kind, d: nat, n: Name, j: nat)
      requires i < |inodes| == |pend| && inodes[i].kind != Dir && kind != Dir
      ensures Born(i, kind).Lists(d, n, j) <==> Lists(d, n, j)
    {
      var g := Born(i, kind);
      if k :| ListedAt(d, k, n, j) {
        assert g.ListedAt(d, k, n, j);
      }
      if k :| g.ListedAt(d, k, n, j) {
        assert ListedAt(d, k, n, j);
      }
    }

    lemma DotsList(d: nat, i: nat, d': nat, n: Name, j: nat)
      requires 0 < d < |inodes| && 0 < i < |inodes| && i != d && inodes[i].kind != Dir
      ensures WithDots(d, i).Lists(d', n, j) <==> Lists(d', n, j) || IsDot(i, d, d', n, j)
    {
      var g := WithDots(d, i);
      assert g.ListedAt(i, 0, DOT, i) && g.ListedAt(i, 1, DOTDOT, d);
      if k :| ListedAt(d', k, n, j) {
        assert g.ListedAt(d', k, n, j);
      }
      if k :| g.ListedAt(d', k, n, j) {
        assert d' != i ==> ListedAt(d', k, n, j);
      }
    }

    lemma MadeDirCreates(d: nat, k: nat, i: nat, n: Name)
      requires Vacant(d, k) && 0 < d && 0 < i < |inodes| && i != d && inodes[d].kind == Dir && inodes[i].kind != Dir
      ensures Creates(MadeDir(d, k, i, n), d, n, i, Dir)
    {
      var f1, g := WithDots(d, i), MadeDir(d, k, i, n);
      forall d': nat, n': Name, j: nat
        ensures g.Lists(d', n', j) <==> Lists(d', n', j) || (d', n', j) == (d, n, i) || IsDot(i, d, d', n', j)
      {
        f1.EntryLists(d, k, n, i, d', n', j);
        DotsList(d, i, d', n', j);
      }
    }

    /** The entry is the only one with its name, so clearing it removes the name. */
    lemma ClearedLists(d: nat, k: nat, n: Name, d': nat, n': Name, j: nat)
      requires DirAt(d) && Linked(d) && k < |inodes[d].ents|
      requires inodes[d].ents[k].inum != 0 && inodes[d].ents[k].name == n
      ensures WithEntry(d, k, Entry(0, "")).Lists(d', n', j) <==> Lists(d', n', j) && (d', n') != (d, n)
    {
      var g := WithEntry(d, k, Entry(0, ""));
      if k' :| g.ListedAt(d', k', n', j) {
        assert ListedAt(d', k', n', j);
      }
      if k': nat :| ListedAt(d', k', n', j) {
        assert (d', k') != (d, k) ==> g.ListedAt(d', k', n', j);
      }
    }

    lemma RemovedUnlinks(d: nat, k: nat, i: nat)
      requires Valid() && NamedAt(d, k, i) && k >= 2 && EmptyDir(i)
      ensures i < |inodes| && Unlinks(Removed(d, k, i), d, inodes[d].ents[k].name, i)
    {
      HolderStaysLinked(d, k, i);
      assert DirAt(d);
      var n, f1, g := inodes[d].ents[k].name, WithEntry(d, k, Entry(0, "")), Removed(d, k, i);
      assert ListedAt(d, k, n, i);
      forall d': nat, n': Name, j: nat ensures g.Lists(d', n', j) <==> Lists(d', n', j) && (d', n') != (d, n) {
        ClearedLists(d, k, n, d', n', j);
        f1.ListsSame(g, d', n', j);
      }
    }

    lemma LeftUnlinks(d: nat, k: nat, i: nat)
      requires Valid() && NamedAt(d, k, i) && i < |inodes| && inodes[i].kind != Dir
      ensures Unlinks(Left(d, k).Counted(i, inodes[i].nlink - 1, pend[i]), d, inodes[d].ents[k].name, i)
    {
      assert DirAt(d);
      var n, f1 := inodes[d].ents[k].name, WithEntry(d, k, Entry(0, ""));
      var g := Left(d, k).Counted(i, inodes[i].nlink - 1, pend[i]);
      assert ListedAt(d, k, n, i) && g.pend == pend;
      forall d': nat, n': Name, j: nat ensures g.Lists(d', n', j) <==> Lists(d', n', j) && (d', n') != (d, n) {
        ClearedLists(d, k, n, d', n', j);
        f1.ListsSame(g, d', n', j);
      }
    }
  }

  // ------------------------------------------------------------------
  // The disk that mkfs makes

  ghost predicate FirstEntryAt(e: seq<Entry>, names: seq<string>, k: int)
    requires 0 <= k < |e|
  {
    e[k] ==
      if k == 0 then Entry(ROOTINO, DOT)
      else if k == 1 then Entry(ROOTINO, DOTDOT)
      else if k < 2 + |names| then Entry(k, Cut(names[k - 2]))
      else Entry(0, "")
  }

  ghost predicate FirstInodeAt(f: Fs, names: seq<string>, i: int)
    requires 0 <= i < |f.inodes|
  {
    f.inodes[i] ==
      if i == ROOTINO then Inode(Dir, 1, f.inodes[i].ents)
      else if 2 <= i < 2 + |names| then Inode(File, 1, [])
      else Inode(Free, 0, [])
  }

  /** A root directory that names files 2, 3 and so on, once each. */
  ghost predicate FirstDisk(f: Fs, names: seq<string>) {
    && 2 + |names| <= |f.inodes| == |f.pend| && (forall i :: 0 <= i < |f.pend| ==> f.pend[i] == 0)
    && (forall i :: 0 <= i < |f.inodes| ==> FirstInodeAt(f, names, i))
    && var e := f.inodes[ROOTINO].ents; 2 + |names| <= |e| && forall k :: 0 <= k < |e| ==> FirstEntryAt(e, names, k)
  }

  /** No file is called like a dot or like another file, as far as names are kept. */
  ghost predicate GoodNames(names: seq<string>) {
    && (forall k :: 0 <= k < |names| ==> Cut(names[k]) != DOT && Cut(names[k]) != DOTDOT)
    && forall j, k :: 0 <= j < k < |names| ==> Cut(names[j]) != Cut(names[k])
  }

  lemma FirstNamed(f: Fs, names: seq<string>, d: nat, k: nat, i: nat)
    requires FirstDisk(f, names)
    ensures f.NamedAt(d, k, i) <==> d == ROOTINO && (if i == ROOTINO then k == 1 else k == i && 2 <= i < 2 + |names|)
  {
    hide Cut;
    if d < |f.inodes| {
      assert FirstInodeAt(f, names, d);
    }
    var e := f.inodes[ROOTINO].ents;
    assert k < |e| ==> FirstEntryAt(e, names, k);
    assert FirstInodeAt(f, names, ROOTINO);
  }

  lemma FirstCounted(f: Fs, names: seq<string>, i: nat)
    requires FirstDisk(f, names) && i < |f.inodes|
    ensures f.CountAt(i) && f.PendAt(i) && f.EmptiedAt(i)
  {
    assert FirstInodeAt(f, names, i) && FirstInodeAt(f, names, ROOTINO);
    var s: set<(nat, nat)> :=
      if i == ROOTINO then {(ROOTINO, 1)} else if 2 <= i < 2 + |names| then {(ROOTINO, i)} else {};
    forall d: nat, k: nat ensures (d, k) in f.Names(i) <==> (d, k) in s {
      FirstNamed(f, names, d, k, i);
    }
    assert f.Names(i) == s;
  }

  lemma FirstDirs(f: Fs, names: seq<string>, d: nat)
    requires FirstDisk(f, names) && GoodNames(names)
    ensures f.DirAt(d) && f.ParentAt(d)
  {
    hide Cut;
    assert d < |f.inodes| ==> FirstInodeAt(f, names, d);
    if d == ROOTINO {
      var e := f.inodes[d].ents;
      assert FirstEntryAt(e, names, 0) && FirstEntryAt(e, names, 1);
      forall k | 2 <= k < |e| && e[k].inum != 0 ensures e[k].name != DOT && e[k].name != DOTDOT {
        assert FirstEntryAt(e, names, k);
      }
      forall j, k | 0 <= j < k < |e| && e[j].inum != 0 && e[k].inum != 0 ensures e[j].name != e[k].name {
        assert FirstEntryAt(e, names, j) && FirstEntryAt(e, names, k) && |DOT| != |DOTDOT|;
      }
    }
  }

  /** The counts of such a disk are right if and only if the names are good. */
  lemma FirstDiskValid(f: Fs, names: seq<string>)
    requires FirstDisk(f, names)
    ensures f.Valid() <==> GoodNames(names)
  {
    hide Cut, Fs.DirAt, Fs.ParentAt, Fs.CountAt, Fs.PendAt, Fs.EmptiedAt;
    assert FirstInodeAt(f, names, ROOTINO) && FirstInodeAt(f, names, 0);
    if GoodNames(names) {
      forall d: nat ensures f.DirAt(d) && f.ParentAt(d) {
        FirstDirs(f, names, d);
      }
      forall d: nat, k: nat, i: nat ensures f.NameAt(d, k, i) {
        FirstNamed(f, names, d, k, i);
        assert i < |f.inodes| ==> FirstInodeAt(f, names, i);
      }
      forall d: nat, k: nat, d': nat, k': nat, i: nat ensures f.OnceAt(d, k, d', k', i) {
        FirstNamed(f, names, d, k, i);
        FirstNamed(f, names, d', k', i);
      }
      forall i: nat ensures f.CountAt(i) && f.PendAt(i) && f.EmptiedAt(i) {
        FirstAll(f, names, i);
      }
    } else if f.Valid() {
      ValidNames(f, names);
    }
  }

  lemma FirstAll(f: Fs, names: seq<string>, i: nat)
    requires FirstDisk(f, names)
    ensures f.CountAt(i) && f.PendAt(i) && f.EmptiedAt(i)
  {
    if i < |f.inodes| {
      FirstCounted(f, names, i);
    }
  }

  lemma ValidNames(f: Fs, names: seq<string>)
    requires FirstDisk(f, names) && f.Valid()
    ensures GoodNames(names)
  {
    hide Cut;
    assert f.DirAt(ROOTINO) && FirstInodeAt(f, names, ROOTINO);
    var e := f.inodes[ROOTINO].ents;
    forall k | 0 <= k < |names| ensures Cut(names[k]) != DOT && Cut(names[k]) != DOTDOT {
      assert FirstEntryAt(e, names, k + 2);
    }
    forall j, k | 0 <= j < k < |names| ensures Cut(names[j]) != Cut(names[k]) {
      assert FirstEntryAt(e, names, j + 2) && FirstEntryAt(e, names, k + 2);
    }
  }
}
