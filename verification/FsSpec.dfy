/**
 The block level of kernel/fs.c on values: the free bitmap, the block
 addresses in inodes and indirect blocks, and the file contents they stand for.
 */
module FsSpec {
  import opened Common

  const NDIRECT: nat := 12
  const NINDIRECT: nat := 0x4000
  /** Blocks that bmap can address; MAXFILE also counts a double-indirect level that bmap lacks. */
  const REACH: nat := NDIRECT + NINDIRECT

  /** A block: zeroed by balloc, or last written as data or as a list of addresses. */
  datatype Content = Zero | Data(bytes: seq<Byte>) | Index(addrs: seq<nat>)

  function NoBytes(): (s: seq<Byte>)
    ensures |s| == BSIZE && forall k :: 0 <= k < BSIZE ==> s[k] == 0
  {
    seq(BSIZE, _ => 0)
  }

  function NoAddrs(): (s: seq<nat>)
    ensures |s| == NINDIRECT && forall k :: 0 <= k < NINDIRECT ==> s[k] == 0
  {
    seq(NINDIRECT, _ => 0)
  }

  /** The block read as file data. */
  function BytesOf(c: Content): (s: seq<Byte>)
    ensures |s| == BSIZE
  {
    if c.Data? && |c.bytes| == BSIZE then c.bytes else NoBytes()
  }

  /** The block read as addresses. */
  function AddrsOf(c: Content): (s: seq<nat>)
    ensures |s| == NINDIRECT
  {
    if c.Index? && |c.addrs| == NINDIRECT then c.addrs else NoAddrs()
  }

  datatype Inode = Inode(addrs: seq<nat>, size: nat)

  /** A place that holds a block address: in an inode, or in the indirect block of an inode. */
  datatype Place = Top(i: nat, n: nat) | Far(i: nat, n: nat)

  /** The place of the n-th block of file i. */
  function PlaceOf(i: nat, n: nat): (o: Place) { if n < NDIRECT then Top(i, n) else Far(i, n - NDIRECT) }

  function Blocks(size: nat): (n: nat)
    ensures n * BSIZE >= size && (n > 0 ==> (n - 1) * BSIZE < size)
  {
    (size + BSIZE - 1) / BSIZE
  }

  datatype Fs = Fs(nmeta: nat, bits: seq<bool>, blocks: seq<Content>, inodes: seq<Inode>) {

    ghost predicate Shape() {
      |bits| == |blocks| && 0 < nmeta <= |bits| && forall i :: 0 <= i < |inodes| ==> |inodes[i].addrs| == NDIRECT + 1
    }

    ghost predicate Has(o: Place) {
      o.i < |inodes| && if o.Top? then o.n <= NDIRECT else o.n < NINDIRECT
    }

    /** The block at a place; 0 for none. */
    ghost function Held(o: Place): (b: nat)
      requires Shape() && Has(o)
    {
      var a := inodes[o.i].addrs;
      if o.Top? then a[o.n]
      else if 0 < a[NDIRECT] < |blocks| then AddrsOf(blocks[a[NDIRECT]])[o.n] else 0
    }

    /** A block is used as what its place is for. */
    ghost predicate Fits(o: Place, c: Content) {
      if o.Top? && o.n == NDIRECT then !c.Data? && (c.Index? ==> |c.addrs| == NINDIRECT)
      else !c.Index? && (c.Data? ==> |c.bytes| == BSIZE)
    }

    ghost predicate HeldAt(o: Place)
      requires Shape()
    {
      Has(o) && Held(o) != 0 ==> nmeta <= Held(o) < |bits| && bits[Held(o)] && Fits(o, blocks[Held(o)])
    }

    ghost predicate ApartAt(o: Place, p: Place)
      requires Shape()
    {
      Has(o) && Has(p) && o != p && Held(o) != 0 ==> Held(o) != Held(p)
    }

    /** A set bit is for metadata, for a held block, or for one just allocated. */
    ghost predicate UsedAt(b: nat, extra: set<nat>)
      requires Shape()
    {
      b < |bits| && bits[b] ==> b < nmeta || b in extra || exists o :: Has(o) && Held(o) == b
    }

    ghost predicate ExtraAt(b: nat, extra: set<nat>)
      requires Shape()
    {
      b in extra ==> nmeta <= b < |bits| && bits[b] && blocks[b] == Zero && forall o :: Has(o) ==> Held(o) != b
    }

    /** The bitmap is exactly the metadata, the held blocks and those in extra; no block is held twice. */
    ghost predicate Owned(extra: set<nat>) {
      && Shape()
      && (forall b :: 0 <= b < nmeta ==> bits[b])
      && (forall o :: HeldAt(o))
      && (forall o, p :: ApartAt(o, p))
      && (forall b :: UsedAt(b, extra))
      && (forall b :: ExtraAt(b, extra))
    }

    /** Every block below the size is there. */
    ghost predicate FullAt(i: nat, n: nat)
      requires Shape()
    {
      i < |inodes| && n < Blocks(inodes[i].size) ==> n < REACH && Held(PlaceOf(i, n)) != 0
    }

    ghost predicate HoleFree()
      requires Shape()
    {
      forall i, n :: FullAt(i, n)
    }

    ghost predicate Valid() {
      Owned({}) && HoleFree()
    }

    /** The contents of the n-th block of file i; zeros if it has none. */
    ghost function Contents(i: nat, n: nat): (s: seq<Byte>)
      requires Shape() && i < |inodes| && n < REACH
      ensures |s| == BSIZE
    {
      var b := Held(PlaceOf(i, n));
      if 0 < b < |blocks| then BytesOf(blocks[b]) else NoBytes()
    }

    ghost predicate SameAt(fs: Fs, i: nat, n: nat)
      requires Shape() && fs.Shape()
    {
      i < |inodes| && i < |fs.inodes| && n < REACH ==> fs.Contents(i, n) == Contents(i, n)
    }

    /** All files read the same in both. */
    ghost predicate SameFiles(fs: Fs)
      requires Shape() && fs.Shape()
    {
      |inodes| == |fs.inodes| && forall i, n :: SameAt(fs, i, n)
    }

    // ----------------------------------------------------------------
    // balloc

    ghost function Allocated(b: nat): (fs: Fs)
      requires b < |bits| == |blocks|
    {
      this.(bits := bits[b := true], blocks := blocks[b := Zero])
    }

    /** A free block is held by nobody. */
    lemma FreeUnheld(extra: set<nat>, b: nat, o: Place)
      requires Owned(extra) && b < |bits| && !bits[b] && Has(o)
      ensures Held(o) != b && b >= nmeta
    {
      assert HeldAt(o);
    }

    lemma AllocatedHeld(extra: set<nat>, b: nat, o: Place)
      requires Owned(extra) && b < |bits| && !bits[b] && Has(o)
      ensures Allocated(b).Held(o) == Held(o)
    {
      assert Has(Top(o.i, NDIRECT));
      FreeUnheld(extra, b, Top(o.i, NDIRECT));
    }

    lemma AllocatedKeeps(extra: set<nat>, b: nat)
      requires Owned(extra) && b < |bits| && !bits[b]
      ensures b >= nmeta && b !in extra && Allocated(b).Owned(extra + {b}) && SameFiles(Allocated(b))
    {
      var fs := Allocated(b);
      assert ExtraAt(b, extra);
      forall o | Has(o) ensures fs.Held(o) == Held(o) && Held(o) != b {
        AllocatedHeld(extra, b, o);
        FreeUnheld(extra, b, o);
      }
      forall o ensures fs.HeldAt(o) {
        assert HeldAt(o);
      }
      forall o, p ensures fs.ApartAt(o, p) {
        assert ApartAt(o, p);
      }
      forall c ensures fs.UsedAt(c, extra + {b}) {
        assert UsedAt(c, extra);
        if o :| Has(o) && Held(o) == c {
          assert fs.Has(o) && fs.Held(o) == c;
        }
      }
      forall c ensures fs.ExtraAt(c, extra + {b}) {
        assert ExtraAt(c, extra);
      }
      forall i: nat, n: nat ensures SameAt(fs, i, n) {
        assert i < |inodes| && n < REACH ==> Has(PlaceOf(i, n));
      }
    }

    // ----------------------------------------------------------------
    // bmap: a new block into an empty place

    /** fs holds b at o, and is otherwise this. */
    ghost predicate GainsAt(fs: Fs, o: Place, b: nat, p: Place)
      requires Shape() && fs.Shape()
    {
      && (Has(p) <==> fs.Has(p))
      && (Has(p) ==> fs.Held(p) == if p == o then b else Held(p))
    }

    /** fs has the same blocks, except where this holds an indirect block. */
    ghost predicate SameBlockAt(fs: Fs, o: Place)
      requires Shape() && fs.Shape()
    {
      Has(o) && 0 < Held(o) < |blocks| ==>
        && Held(o) < |fs.blocks|
        && (fs.blocks[Held(o)] == blocks[Held(o)] || (o.Top? && o.n == NDIRECT && Fits(o, fs.blocks[Held(o)])))
    }

    lemma AttachKeeps(extra: set<nat>, fs: Fs, o: Place, b: nat)
      requires Owned(extra) && fs.Shape() && b in extra && Has(o) && Held(o) == 0
      requires fs.nmeta == nmeta && fs.bits == bits && |fs.inodes| == |inodes|
      requires forall p :: GainsAt(fs, o, b, p)
      requires forall p :: SameBlockAt(fs, p)
      requires forall c :: c in extra && c < |fs.blocks| ==> fs.blocks[c] == Zero
      ensures fs.Owned(extra - {b}) && SameFiles(fs)
    {
      hide Fs.Held;
      assert ExtraAt(b, extra);
      forall p ensures fs.HeldAt(p) {
        assert HeldAt(p) && GainsAt(fs, o, b, p) && SameBlockAt(fs, p);
      }
      forall p, q ensures fs.ApartAt(p, q) {
        assert ApartAt(p, q) && GainsAt(fs, o, b, p) && GainsAt(fs, o, b, q);
      }
      forall c ensures fs.UsedAt(c, extra - {b}) {
        assert UsedAt(c, extra) && GainsAt(fs, o, b, o);
        if p :| Has(p) && Held(p) == c && c != 0 {
          assert GainsAt(fs, o, b, p);
        }
      }
      forall c ensures fs.ExtraAt(c, extra - {b}) {
        assert ExtraAt(c, extra);
        forall p | fs.Has(p) && c in extra && c != b ensures fs.Held(p) != c {
          assert GainsAt(fs, o, b, p);
        }
      }
      forall i: nat, n: nat ensures SameAt(fs, i, n) {
        var p := PlaceOf(i, n);
        assert HeldAt(p) && GainsAt(fs, o, b, p) && SameBlockAt(fs, p);
      }
    }

    /** An address put into an inode. */
    ghost function WithTop(i: nat, n: nat, b: nat): (fs: Fs)
      requires Shape() && i < |inodes| && n <= NDIRECT
    {
      this.(inodes := inodes[i := inodes[i].(addrs := inodes[i].addrs[n := b])])
    }

    lemma WithTopKeeps(extra: set<nat>, i: nat, n: nat, b: nat)
      requires Owned(extra) && i < |inodes| && n <= NDIRECT && Held(Top(i, n)) == 0 && b in extra
      ensures WithTop(i, n, b).Owned(extra - {b}) && SameFiles(WithTop(i, n, b))
      ensures forall p :: GainsAt(WithTop(i, n, b), Top(i, n), b, p)
    {
      var fs := WithTop(i, n, b);
      assert ExtraAt(b, extra);
      forall p ensures GainsAt(fs, Top(i, n), b, p) {
      }
      forall c: nat | c in extra ensures c < |fs.blocks| ==> fs.blocks[c] == Zero {
        assert ExtraAt(c, extra);
      }
      AttachKeeps(extra, fs, Top(i, n), b);
    }

    /** An address put into the indirect block of an inode. */
    ghost function WithFar(i: nat, n: nat, b: nat): (fs: Fs)
      requires Shape() && i < |inodes| && n < NINDIRECT && Held(Top(i, NDIRECT)) < |blocks|
    {
      var t := Held(Top(i, NDIRECT));
      this.(blocks := blocks[t := Index(AddrsOf(blocks[t])[n := b])])
    }

    lemma WithFarHolds(extra: set<nat>, i: nat, n: nat, b: nat, p: Place)
      requires Owned(extra) && i < |inodes| && n < NINDIRECT && 0 < Held(Top(i, NDIRECT)) < |blocks|
      ensures GainsAt(WithFar(i, n, b), Far(i, n), b, p) && SameBlockAt(WithFar(i, n, b), p)
    {
      if Has(p) {
        assert ApartAt(Top(i, NDIRECT), Top(p.i, NDIRECT)) && ApartAt(Top(i, NDIRECT), p);
      }
    }

    lemma WithFarKeeps(extra: set<nat>, i: nat, n: nat, b: nat)
      requires Owned(extra) && i < |inodes| && n < NINDIRECT && b in extra
      requires 0 < Held(Top(i, NDIRECT)) < |blocks| && Held(Far(i, n)) == 0
      ensures WithFar(i, n, b).Owned(extra - {b}) && SameFiles(WithFar(i, n, b))
      ensures forall p :: GainsAt(WithFar(i, n, b), Far(i, n), b, p)
    {
      var fs, t := WithFar(i, n, b), Top(i, NDIRECT);
      forall p ensures GainsAt(fs, Far(i, n), b, p) && SameBlockAt(fs, p) {
        WithFarHolds(extra, i, n, b, p);
      }
      forall c: nat | c in extra ensures c < |fs.blocks| ==> fs.blocks[c] == Zero {
        assert ExtraAt(c, extra) && Has(t);
      }
      AttachKeeps(extra, fs, Far(i, n), b);
    }

    // ----------------------------------------------------------------
    // writei: data into a block

    ghost function WithData(b: nat, s: seq<Byte>): (fs: Fs)
      requires b < |blocks|
    {
      this.(blocks := blocks[b := Data(s)])
    }

    lemma WithDataHeld(extra: set<nat>, i: nat, n: nat, s: seq<Byte>)
      requires Owned(extra) && i < |inodes| && n < REACH && |s| == BSIZE
      requires 0 < Held(PlaceOf(i, n)) < |blocks|
      ensures var fs := WithData(Held(PlaceOf(i, n)), s);
              forall p :: SameHeldAt(fs, p)
    {
      var o := PlaceOf(i, n);
      var fs := WithData(Held(o), s);
      forall p ensures SameHeldAt(fs, p) {
        if Has(p) {
          assert ApartAt(o, Top(p.i, NDIRECT)) && HeldAt(o) && HeldAt(Top(p.i, NDIRECT));
        }
      }
    }

    lemma WithDataKeeps(extra: set<nat>, i: nat, n: nat, s: seq<Byte>)
      requires Owned(extra) && i < |inodes| && n < REACH && |s| == BSIZE
      requires 0 < Held(PlaceOf(i, n)) < |blocks|
      ensures var fs := WithData(Held(PlaceOf(i, n)), s);
              && fs.Owned(extra) && fs.Contents(i, n) == s
              && (forall p :: SameHeldAt(fs, p)) && forall j: nat, m: nat :: (j, m) != (i, n) ==> SameAt(fs, j, m)
    {
      hide Fs.Held;
      var o := PlaceOf(i, n);
      var b := Held(o);
      var fs := WithData(b, s);
      WithDataHeld(extra, i, n, s);
      forall p ensures fs.HeldAt(p) {
        assert HeldAt(p) && SameHeldAt(fs, p) && ApartAt(o, p);
      }
      forall p, q ensures fs.ApartAt(p, q) {
        assert ApartAt(p, q) && SameHeldAt(fs, p) && SameHeldAt(fs, q);
      }
      forall c ensures fs.UsedAt(c, extra) && fs.ExtraAt(c, extra) {
        assert UsedAt(c, extra) && ExtraAt(c, extra);
        if p :| Has(p) && Held(p) == c {
          assert SameHeldAt(fs, p) && fs.Held(p) == c;
        }
        forall p | fs.Has(p) && c in extra ensures fs.Held(p) != c {
          assert SameHeldAt(fs, p);
        }
      }
      forall j: nat, m: nat | (j, m) != (i, n) ensures SameAt(fs, j, m) {
        assert SameHeldAt(fs, PlaceOf(j, m)) && ApartAt(o, PlaceOf(j, m));
      }
      assert SameHeldAt(fs, o);
    }

    ghost predicate SameHeldAt(fs: Fs, p: Place)
      requires Shape() && fs.Shape()
    {
      (Has(p) <==> fs.Has(p)) && (Has(p) ==> fs.Held(p) == Held(p))
    }

    /** No file loses a block or changes its contents or size; blocks may be added beyond. */
    ghost predicate Extends(fs: Fs) {
      && Shape() && fs.Shape() && fs.nmeta == nmeta && |fs.bits| == |bits| && SameFiles(fs)
      && (forall i :: 0 <= i < |inodes| ==> fs.inodes[i].size == inodes[i].size)
      && (forall p :: KeepsAt(fs, p))
    }

    ghost predicate KeepsAt(fs: Fs, p: Place)
      requires Shape() && fs.Shape()
    {
      (Has(p) <==> fs.Has(p)) && (Has(p) && Held(p) != 0 ==> fs.Held(p) == Held(p))
    }

    lemma ExtendsTwice(f1: Fs, f2: Fs)
      requires Extends(f1) && f1.Extends(f2)
      ensures Extends(f2)
    {
      forall p ensures KeepsAt(f2, p) {
        assert KeepsAt(f1, p) && f1.KeepsAt(f2, p);
      }
      forall i: nat, n: nat ensures SameAt(f2, i, n) {
        assert SameAt(f1, i, n) && f1.SameAt(f2, i, n);
      }
    }

    /** balloc followed by putting the block at an empty place. */
    lemma AllocTop(i: nat, n: nat, b: nat)
      requires Owned({}) && i < |inodes| && n <= NDIRECT && Held(Top(i, n)) == 0 && b < |bits| && !bits[b]
      ensures var fs := Allocated(b).WithTop(i, n, b);
              fs.Owned({}) && Extends(fs) && fs.Held(Top(i, n)) == b != 0
    {
      var f1 := Allocated(b);
      AllocatedKeeps({}, b);
      assert {} + {b} == {b};
      AllocatedHeld({}, b, Top(i, n));
      f1.WithTopKeeps({b}, i, n, b);
      var fs := f1.WithTop(i, n, b);
      assert {b} - {b} == {};
      assert f1.GainsAt(fs, Top(i, n), b, Top(i, n));
      forall p ensures KeepsAt(fs, p) {
        if Has(p) {
          AllocatedHeld({}, b, p);
        }
        assert f1.GainsAt(fs, Top(i, n), b, p);
      }
      forall j: nat, m: nat ensures SameAt(fs, j, m) {
        assert SameAt(f1, j, m) && f1.SameAt(fs, j, m);
      }
    }

    lemma AllocFar(i: nat, n: nat, b: nat)
      requires Owned({}) && i < |inodes| && n < NINDIRECT && b < |bits| && !bits[b]
      requires 0 < Held(Top(i, NDIRECT)) < |blocks| && Held(Far(i, n)) == 0
      ensures Allocated(b).Shape() && Allocated(b).Held(Top(i, NDIRECT)) == Held(Top(i, NDIRECT))
      ensures var fs := Allocated(b).WithFar(i, n, b);
              fs.Owned({}) && Extends(fs) && fs.Held(Far(i, n)) == b != 0
    {
      var f1 := Allocated(b);
      AllocatedKeeps({}, b);
      assert {} + {b} == {b};
      AllocatedHeld({}, b, Far(i, n));
      AllocatedHeld({}, b, Top(i, NDIRECT));
      f1.WithFarKeeps({b}, i, n, b);
      var fs := f1.WithFar(i, n, b);
      assert {b} - {b} == {};
      assert f1.GainsAt(fs, Far(i, n), b, Far(i, n));
      forall p ensures KeepsAt(fs, p) {
        if Has(p) {
          AllocatedHeld({}, b, p);
        }
        assert f1.GainsAt(fs, Far(i, n), b, p);
      }
      forall j: nat, m: nat ensures SameAt(fs, j, m) {
        assert SameAt(f1, j, m) && f1.SameAt(fs, j, m);
      }
    }

    // ----------------------------------------------------------------
    // itrunc: a block taken from its place and freed

    lemma DetachKeeps(fs: Fs, o: Place)
      requires Owned({}) && fs.Shape() && Has(o) && Held(o) != 0 && Held(o) < |bits|
      requires fs.nmeta == nmeta && fs.bits == bits[Held(o) := false] && |fs.inodes| == |inodes|
      requires forall p :: GainsAt(fs, o, 0, p)
      requires forall p :: SameBlockAt(fs, p)
      ensures fs.Owned({})
      ensures forall i: nat, n: nat :: i != o.i ==> SameAt(fs, i, n)
    {
      var b := Held(o);
      assert HeldAt(o);
      forall p ensures fs.HeldAt(p) {
        assert HeldAt(p) && GainsAt(fs, o, 0, p) && SameBlockAt(fs, p) && ApartAt(o, p);
      }
      forall p, q ensures fs.ApartAt(p, q) {
        assert ApartAt(p, q) && GainsAt(fs, o, 0, p) && GainsAt(fs, o, 0, q);
      }
      forall c ensures fs.UsedAt(c, {}) {
        assert UsedAt(c, {});
        if p :| Has(p) && Held(p) == c && c != b {
          assert GainsAt(fs, o, 0, p);
        }
      }
      forall i: nat, n: nat | i != o.i ensures SameAt(fs, i, n) {
        var p := PlaceOf(i, n);
        assert HeldAt(p) && GainsAt(fs, o, 0, p) && SameBlockAt(fs, p);
      }
    }

    /** A block address in an inode cleared, and the block freed. */
    ghost function WithoutTop(i: nat, n: nat): (fs: Fs)
      requires Shape() && i < |inodes| && n <= NDIRECT && Held(Top(i, n)) < |bits|
    {
      WithTop(i, n, 0).(bits := bits[Held(Top(i, n)) := false])
    }

    lemma WithoutTopKeeps(i: nat, n: nat)
      requires Owned({}) && i < |inodes| && n <= NDIRECT && Held(Top(i, n)) != 0
      requires n == NDIRECT ==> forall k: nat :: k < NINDIRECT ==> Held(Far(i, k)) == 0
      ensures Held(Top(i, n)) < |bits| && bits[Held(Top(i, n))] && WithoutTop(i, n).Owned({})
      ensures forall p :: GainsAt(WithoutTop(i, n), Top(i, n), 0, p)
      ensures forall j: nat, m: nat :: j != i ==> SameAt(WithoutTop(i, n), j, m)
    {
      assert HeldAt(Top(i, n));
      var fs := WithoutTop(i, n);
      forall p ensures GainsAt(fs, Top(i, n), 0, p) {
        assert Has(p) && p.Far? && p.i == i && n == NDIRECT ==> Held(Far(i, p.n)) == 0;
      }
      DetachKeeps(fs, Top(i, n));
    }

    ghost function WithoutFar(i: nat, n: nat): (fs: Fs)
      requires Shape() && i < |inodes| && n < NINDIRECT && Held(Top(i, NDIRECT)) < |blocks| && Held(Far(i, n)) < |bits|
    {
      WithFar(i, n, 0).(bits := bits[Held(Far(i, n)) := false])
    }

    lemma WithoutFarKeeps(i: nat, n: nat)
      requires Owned({}) && i < |inodes| && n < NINDIRECT && Held(Far(i, n)) != 0
      ensures 0 < Held(Top(i, NDIRECT)) < |blocks| && Held(Far(i, n)) < |bits| && bits[Held(Far(i, n))]
      ensures WithoutFar(i, n).Owned({})
      ensures forall p :: GainsAt(WithoutFar(i, n), Far(i, n), 0, p)
      ensures forall j: nat, m: nat :: j != i ==> SameAt(WithoutFar(i, n), j, m)
    {
      assert HeldAt(Far(i, n)) && HeldAt(Top(i, NDIRECT));
      var f1, fs := WithFar(i, n, 0), WithoutFar(i, n);
      forall p ensures GainsAt(fs, Far(i, n), 0, p) && SameBlockAt(fs, p) {
        WithFarHolds({}, i, n, 0, p);
        assert fs.Has(p) ==> fs.Held(p) == f1.Held(p);
      }
      DetachKeeps(fs, Far(i, n));
    }

    /** What is in a block that nobody holds does not matter. */
    lemma UnheldContent(b: nat, c: Content)
      requires Owned({}) && b < |blocks| && forall o :: Has(o) ==> Held(o) != b
      ensures var fs := this.(blocks := blocks[b := c]);
              fs.Owned({}) && (forall p :: SameHeldAt(fs, p)) && SameFiles(fs)
    {
      var fs := this.(blocks := blocks[b := c]);
      forall p ensures SameHeldAt(fs, p) {
        assert Has(p) ==> Has(Top(p.i, NDIRECT)) && Held(Top(p.i, NDIRECT)) != b;
      }
      forall p ensures fs.HeldAt(p) {
        assert HeldAt(p) && SameHeldAt(fs, p);
      }
      forall p, q ensures fs.ApartAt(p, q) {
        assert ApartAt(p, q) && SameHeldAt(fs, p) && SameHeldAt(fs, q);
      }
      forall d ensures fs.UsedAt(d, {}) {
        assert UsedAt(d, {});
        if p :| Has(p) && Held(p) == d {
          assert SameHeldAt(fs, p) && fs.Held(p) == d;
        }
      }
      forall i: nat, n: nat ensures SameAt(fs, i, n) {
        assert i < |inodes| && n < REACH ==> Has(PlaceOf(i, n)) && SameHeldAt(fs, PlaceOf(i, n));
      }
    }

    // ----------------------------------------------------------------
    // Sizes

    /** The size of an inode has nothing to do with ownership. */
    lemma ResizeKeeps(extra: set<nat>, i: nat, size: nat)
      requires Owned(extra) && i < |inodes|
      ensures var fs := this.(inodes := inodes[i := inodes[i].(size := size)]);
              fs.Owned(extra) && (forall p :: SameHeldAt(fs, p)) && SameFiles(fs)
    {
      var fs := this.(inodes := inodes[i := inodes[i].(size := size)]);
      forall p ensures SameHeldAt(fs, p) {
      }
      forall p ensures fs.HeldAt(p) {
        assert HeldAt(p) && SameHeldAt(fs, p);
      }
      forall p, q ensures fs.ApartAt(p, q) {
        assert ApartAt(p, q) && SameHeldAt(fs, p) && SameHeldAt(fs, q);
      }
      forall d ensures fs.UsedAt(d, extra) && fs.ExtraAt(d, extra) {
        assert UsedAt(d, extra) && ExtraAt(d, extra);
        if p :| Has(p) && Held(p) == d {
          assert SameHeldAt(fs, p) && fs.Held(p) == d;
        }
        forall p | fs.Has(p) && d in extra ensures fs.Held(p) != d {
          assert SameHeldAt(fs, p);
        }
      }
      forall j: nat, n: nat ensures SameAt(fs, j, n) {
        assert SameHeldAt(fs, PlaceOf(j, n));
      }
    }
  }
}
