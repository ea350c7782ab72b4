/**
 mkfs/mkfs.c: the image that the kernel starts from.  Files are built with
 iappend, whose blocks are handed out in order; the bitmap is written last.
 S() is the file system the image would be with that bitmap.
 */
module Mkfs {
  import opened Common
  import opened FsSpec
  import opened FileSpec

  /** The size of a directory entry. */
  const DIRENT: nat := 32

  /** The part of an inode on disk that says what it is; type 0 is free. */
  datatype Head = Head(kind: nat, nlink: nat)

  const T_DIR: nat := 1
  const T_FILE: nat := 2

  /**
   What a step of mkfs does: its work, or where the image, the indirect block or
   the blocks of inodes and bitmap have no more room.
   */
  datatype Outcome = Appended | OutOfBlocks | OutOfRange | OutOfInodes

  /** The bits that balloc(used) sets. */
  function FirstBits(size: nat, used: nat): (bits: seq<bool>)
    ensures |bits| == size && forall b :: 0 <= b < size ==> (bits[b] <==> b < used)
  {
    seq(size, b => b < used)
  }

  /** No file has a block behind its end; the end of file i is `to`. */
  ghost predicate TightAt(fs: Fs, i: nat, to: nat, j: nat, n: nat)
    requires fs.Shape()
  {
    j < |fs.inodes| && n < REACH && Blocks(if j == i then to else fs.inodes[j].size) <= n ==>
      fs.Held(PlaceOf(j, n)) == 0
  }

  /** A file has an indirect block exactly if it has blocks beyond the direct ones. */
  ghost predicate IndexAt(fs: Fs, i: nat, to: nat, j: nat)
    requires fs.Shape()
  {
    j < |fs.inodes| ==> (fs.Held(Top(j, NDIRECT)) != 0 <==> Blocks(if j == i then to else fs.inodes[j].size) > NDIRECT)
  }

  ghost predicate Tight(fs: Fs, i: nat, to: nat)
    requires fs.Shape()
  {
    (forall j, n :: TightAt(fs, i, to, j, n)) && forall j :: IndexAt(fs, i, to, j)
  }

  /** g may have another block at o, or, if o is in an indirect block, another indirect block. */
  ghost predicate OnlyAt(f: Fs, g: Fs, o: Place, p: Place)
    requires f.Shape() && g.Shape()
  {
    f.Has(p) && p != o && (o.Far? ==> p != Top(o.i, NDIRECT)) ==> g.Has(p) && g.Held(p) == f.Held(p)
  }

  /** The blocks that a file of this length takes, its indirect block included. */
  function Cost(len: nat): (n: nat) {
    Blocks(len) + if Blocks(len) > NDIRECT then 1 else 0
  }

  lemma CostGrows(a: nat, b: nat)
    requires a <= b
    ensures Cost(a) <= Cost(b)
  {
    DivOrdered(a + BSIZE - 1, b + BSIZE - 1);
  }

  /** What one turn of iappend's loop takes: a block where one starts, and an indirect one at the first beyond. */
  lemma CostStep(at: nat, to: nat)
    requires at < to <= (at / BSIZE + 1) * BSIZE
    ensures Blocks(to) == at / BSIZE + 1
    ensures Cost(to) == Cost(at) + if at % BSIZE != 0 then 0 else if at / BSIZE == NDIRECT then 2 else 1
  {
    assert Blocks(at) == at / BSIZE + if at % BSIZE == 0 then 0 else 1;
  }

  lemma TopOnly(f: Fs, i: nat, n: nat, b: nat, p: Place)
    requires f.Owned({}) && i < |f.inodes| && n <= NDIRECT && f.Held(Top(i, n)) == 0 && b < |f.bits| && !f.bits[b]
    ensures f.Allocated(b).WithTop(i, n, b).Shape() && OnlyAt(f, f.Allocated(b).WithTop(i, n, b), Top(i, n), p)
  {
    f.AllocatedKeeps({}, b);
    assert {} + {b} == {b};
    f.AllocatedHeld({}, b, Top(i, n));
    f.Allocated(b).WithTopKeeps({b}, i, n, b);
    assert f.Allocated(b).GainsAt(f.Allocated(b).WithTop(i, n, b), Top(i, n), b, p);
    if f.Has(p) {
      f.AllocatedHeld({}, b, p);
    }
  }

  lemma FarOnly(f: Fs, i: nat, n: nat, b: nat, p: Place)
    requires f.Owned({}) && i < |f.inodes| && n < NINDIRECT && b < |f.bits| && !f.bits[b]
    requires 0 < f.Held(Top(i, NDIRECT)) < |f.blocks|
    ensures f.Allocated(b).Shape() && f.Allocated(b).Held(Top(i, NDIRECT)) == f.Held(Top(i, NDIRECT))
    ensures OnlyAt(f, f.Allocated(b).WithFar(i, n, b), Far(i, n), p)
  {
    f.AllocatedKeeps({}, b);
    f.AllocatedHeld({}, b, Top(i, NDIRECT));
    f.Allocated(b).WithFarHolds({} + {b}, i, n, b, p);
    if f.Has(p) {
      f.AllocatedHeld({}, b, p);
    }
  }

  /** The end of every file is its size. */
  lemma TightHere(f: Fs, x: nat, to: nat, i: nat)
    requires f.Shape() && i < |f.inodes| <= x && Tight(f, x, to)
    ensures Tight(f, i, f.inodes[i].size)
  {
    forall j: nat, n: nat ensures TightAt(f, i, f.inodes[i].size, j, n) {
      assert TightAt(f, x, to, j, n);
    }
    forall j: nat ensures IndexAt(f, i, f.inodes[i].size, j) {
      assert IndexAt(f, x, to, j);
    }
  }

  /** One block further on. */
  lemma TightMore(f: Fs, g: Fs, h: Fs, i: nat, at: nat, to: nat)
    requires f.Shape() && g.Shape() && h.Shape() && i < |f.inodes| == |g.inodes| == |h.inodes| && at < to
    requires forall j :: 0 <= j < |f.inodes| && j != i ==> h.inodes[j] == f.inodes[j]
    requires Tight(f, i, at) && (forall p :: OnlyAt(f, g, PlaceOf(i, at / BSIZE), p)) && forall p :: g.SameHeldAt(h, p)
    requires to <= (at / BSIZE + 1) * BSIZE && (at / BSIZE >= NDIRECT ==> g.Held(Top(i, NDIRECT)) != 0)
    ensures Tight(h, i, to)
  {
    CostStep(at, to);
    BelowSize(at, to);
    DivOrdered(at + BSIZE - 1, to + BSIZE - 1);
    forall j: nat, n: nat ensures TightAt(h, i, to, j, n) {
      assert TightAt(f, i, at, j, n) && OnlyAt(f, g, PlaceOf(i, at / BSIZE), PlaceOf(j, n));
      assert g.SameHeldAt(h, PlaceOf(j, n));
    }
    forall j: nat ensures IndexAt(h, i, to, j) {
      var top := Top(j, NDIRECT);
      assert IndexAt(f, i, at, j) && OnlyAt(f, g, PlaceOf(i, at / BSIZE), top) && g.SameHeldAt(h, top);
    }
  }

  /** What the place of the next byte lacks. */
  lemma NextMissing(f: Fs, g: Fs, i: nat, off: nat, src: seq<Byte>, tot: nat)
    requires f.Valid() && Writing(f, g, i, off, src, tot) && off == f.inodes[i].size && Tight(g, i, off + tot)
    requires (off + tot) / BSIZE < REACH
    ensures var at := off + tot;
            Missing(g, i, at / BSIZE) == if at % BSIZE != 0 then 0 else if at / BSIZE == NDIRECT then 2 else 1
  {
    var at := off + tot;
    var fbn := at / BSIZE;
    assert Blocks(at) == fbn + if at % BSIZE == 0 then 0 else 1;
    assert TightAt(g, i, at, i, fbn) && IndexAt(g, i, at, i);
    assert f.FullAt(i, fbn) && f.KeepsAt(g, PlaceOf(i, fbn)) && FilledAt(g, i, off, tot, fbn);
    if at % BSIZE != 0 && tot > 0 {
      assert off <= fbn * BSIZE || off / BSIZE == fbn;
    }
  }

  /**
   The image under construction.  The blocks of inodes have `slots` places; the
   bitmap block behind them has IPB more, which mkfs uses as well.
   */
  class Image {
    const size: nat
    const nmeta: nat
    const slots: nat
    var freeblock: nat
    var freeinode: nat
    var blocks: seq<Content>
    var inodes: seq<Inode>
    var heads: seq<Head>

    ghost function S(): (fs: Fs)
      reads this
    {
      Fs(nmeta, FirstBits(size, freeblock), blocks, inodes)
    }

    /** The blocks not handed out are as the image was cleared. */
    ghost predicate Cleared()
      reads this
    {
      freeblock <= size == |blocks| && forall b :: freeblock <= b < size ==> blocks[b] == Zero
    }

    ghost predicate Valid()
      reads this
    {
      && S().Valid() && Tight(S(), |inodes|, 0) && Cleared()
      && 0 < freeinode <= |inodes| == |heads| == slots + IPB
      && forall j :: freeinode <= j < |inodes| ==> inodes[j] == Empty() && heads[j] == Head(0, 0)
    }

    static function Empty(): (i: Inode) { Inode(seq(NDIRECT + 1, _ => 0), 0) }

    /** Only inode i has changed. */
    static ghost predicate Others(was: seq<Inode>, now: seq<Inode>, i: nat) {
      |now| == |was| && forall j :: 0 <= j < |was| && j != i ==> now[j] == was[j]
    }

    /** main up to the first ialloc: metadata, zeros, and no inode in use. */
    constructor (size: nat, nmeta: nat, slots: nat)
      requires 0 < nmeta <= size
      ensures Valid() && this.size == size && freeblock == this.nmeta == nmeta && this.slots == slots
      ensures freeinode == ROOTINO && forall j :: 0 <= j < |heads| ==> heads[j] == Head(0, 0)
    {
      this.size, this.nmeta, this.slots, freeblock, freeinode := size, nmeta, slots, nmeta, ROOTINO;
      blocks, inodes := seq(size, _ => Zero), seq(slots + IPB, _ => Empty());
      heads := seq(slots + IPB, _ => Head(0, 0));
      new;
      FreshValid(S());
      forall j: nat, n: nat ensures TightAt(S(), |inodes|, 0, j, n) {
      }
      forall j: nat ensures IndexAt(S(), |inodes|, 0, j) {
      }
    }

    /** ialloc: the next inode, empty, without a test; 0 where it would go to the block behind the bitmap. */
    method Ialloc(kind: nat) returns (inum: nat)
      requires Valid()
      modifies `freeinode, `inodes, `heads
      ensures Valid() && S() == old(S())
      ensures inum == 0 <==> old(freeinode) == slots + IPB
      ensures inum == 0 ==> freeinode == old(freeinode) && heads == old(heads)
      ensures inum != 0 ==> inum == old(freeinode) && freeinode == old(freeinode) + 1 && inodes[inum] == Empty()
      ensures inum != 0 ==> heads == old(heads)[inum := Head(kind, 1)]
    {
      if freeinode == |inodes| {
        return 0;
      }
      inum := freeinode;
      freeinode := freeinode + 1;
      inodes, heads := inodes[inum := Empty()], heads[inum := Head(kind, 1)];
      assert inodes == old(inodes);
    }

    /** freeblock++: a block nobody holds, or 0 at the end of the image. */
    method Take() returns (b: nat)
      requires S().Owned({}) && Cleared()
      modifies `freeblock
      ensures Cleared() && (b == 0 ==> freeblock == old(freeblock) == size)
      ensures b != 0 ==>
                b == old(freeblock) == freeblock - 1 < size && !old(S()).bits[b] && S() == old(S()).Allocated(b)
    {
      if freeblock == size {
        return 0;
      }
      ghost var f0 := S();
      assert f0.bits[0];
      b := freeblock;
      freeblock := freeblock + 1;
      assert S().bits == f0.bits[b := true] && blocks == blocks[b := Zero];
    }

    /** The address of a block of the file, taken if need be. */
    method Place(i: nat, fbn: nat) returns (addr: nat)
      requires S().Owned({}) && Cleared() && i < |inodes| && fbn < REACH
      modifies `freeblock, `blocks, `inodes
      ensures S().Owned({}) && Cleared() && old(S()).Extends(S()) && addr == S().Held(PlaceOf(i, fbn))
      ensures Others(old(inodes), inodes, i) && forall p :: OnlyAt(old(S()), S(), PlaceOf(i, fbn), p)
      ensures if addr == 0 then old(freeblock) + Missing(old(S()), i, fbn) > size
              else freeblock == old(freeblock) + Missing(old(S()), i, fbn)
      ensures addr != 0 && fbn >= NDIRECT ==> S().Held(Top(i, NDIRECT)) != 0
    {
      hide Fs.Extends;
      ExtendsSame(S());
      if fbn < NDIRECT {
        addr := PlaceTop(i, fbn);
      } else {
        ghost var f0 := S();
        var t := PlaceTop(i, NDIRECT);
        if t == 0 {
          return 0;
        }
        ghost var f1 := S();
        assert f1.HeldAt(Top(i, NDIRECT));
        assert OnlyAt(f0, f1, Top(i, NDIRECT), PlaceOf(i, fbn));
        addr := PlaceFar(i, fbn - NDIRECT);
        f0.ExtendsTwice(f1, S());
        forall p ensures OnlyAt(f0, S(), PlaceOf(i, fbn), p) {
          assert OnlyAt(f0, f1, Top(i, NDIRECT), p) && OnlyAt(f1, S(), PlaceOf(i, fbn), p);
        }
      }
    }

    /** An address in the inode. */
    method PlaceTop(i: nat, n: nat) returns (addr: nat)
      requires S().Owned({}) && Cleared() && i < |inodes| && n <= NDIRECT
      modifies `freeblock, `inodes
      ensures S().Owned({}) && Cleared() && old(S()).Extends(S()) && addr == S().Held(Top(i, n))
      ensures Others(old(inodes), inodes, i) && forall p :: OnlyAt(old(S()), S(), Top(i, n), p)
      ensures addr == 0 ==> freeblock == old(freeblock) == size && S() == old(S())
      ensures addr != 0 ==> freeblock == old(freeblock) + if old(S()).Held(Top(i, n)) == 0 then 1 else 0
    {
      ExtendsSame(S());
      ghost var f0 := S();
      addr := inodes[i].addrs[n];
      if addr == 0 {
        addr := Take();
        if addr != 0 {
          f0.AllocTop(i, n, addr);
          inodes := inodes[i := inodes[i].(addrs := inodes[i].addrs[n := addr])];
          assert S() == f0.Allocated(addr).WithTop(i, n, addr);
          forall p ensures OnlyAt(f0, S(), Top(i, n), p) {
            TopOnly(f0, i, n, addr, p);
          }
        }
      }
    }

    /** An address in the indirect block. */
    method PlaceFar(i: nat, n: nat) returns (addr: nat)
      requires S().Owned({}) && Cleared() && i < |inodes| && n < NINDIRECT && 0 < S().Held(Top(i, NDIRECT)) < |blocks|
      modifies `freeblock, `blocks
      ensures S().Owned({}) && Cleared() && old(S()).Extends(S()) && addr == S().Held(Far(i, n))
      ensures forall p :: OnlyAt(old(S()), S(), Far(i, n), p)
      ensures addr == 0 ==> freeblock == old(freeblock) == size && old(S()).Held(Far(i, n)) == 0
      ensures addr != 0 ==> freeblock == old(freeblock) + if old(S()).Held(Far(i, n)) == 0 then 1 else 0
    {
      ExtendsSame(S());
      ghost var f0 := S();
      var t := inodes[i].addrs[NDIRECT];
      assert f0.bits[t] && t < freeblock by {
        assert f0.HeldAt(Top(i, NDIRECT));
      }
      addr := AddrsOf(blocks[t])[n];
      if addr == 0 {
        addr := Take();
        if addr != 0 {
          f0.AllocFar(i, n, addr);
          blocks := blocks[t := Index(AddrsOf(blocks[t])[n := addr])];
          assert S() == f0.Allocated(addr).WithFar(i, n, addr);
          forall p ensures OnlyAt(f0, S(), Far(i, n), p) {
            FarOnly(f0, i, n, addr, p);
          }
        }
      }
    }

    /** One turn of iappend's loop: the bytes tot .. to of src. */
    method AppendBlock(i: nat, off: nat, src: seq<Byte>, tot: nat, ghost f: Fs) returns (to: nat, addr: nat)
      requires S().Owned({}) && Cleared() && i < |inodes| && tot < |src| && (off + tot) / BSIZE < REACH
      requires Writing(f, S(), i, off, src, tot) && Tight(S(), i, off + tot)
      requires f.Valid() && off == f.inodes[i].size
      modifies `freeblock, `blocks, `inodes
      ensures S().Owned({}) && Cleared() && Others(old(inodes), inodes, i)
      ensures tot < to == tot + Least(|src| - tot, BSIZE - (off + tot) % BSIZE)
      ensures if addr == 0 then old(freeblock) + Cost(off + to) - Cost(off + tot) > size
              else freeblock == old(freeblock) + Cost(off + to) - Cost(off + tot)
      ensures addr != 0 ==> Writing(f, S(), i, off, src, to) && Tight(S(), i, off + to)
    {
      hide Writing, Fs.Extends, Fs.Contents, BytesOf, Tight, OnlyAt, Cost, Missing;
      var fbn := (off + tot) / BSIZE;
      ghost var f0 := S();
      to := tot + Least(|src| - tot, (fbn + 1) * BSIZE - (off + tot));
      NextMissing(f, f0, i, off, src, tot);
      CostStep(off + tot, off + to);
      addr := Place(i, fbn);
      ghost var f1 := S();
      ExtendsKeeps(f0, f1);
      if addr == 0 {
        return;
      }
      assert f1.HeldAt(PlaceOf(i, fbn));
      var page := Spliced(BytesOf(blocks[addr]), off + tot - fbn * BSIZE, src[tot..to]);
      ContentsAt(f1, i, fbn);
      WritingExtends(f, f0, f1, i, off, src, tot);
      f1.WithDataKeeps({}, i, fbn, page);
      blocks := blocks[addr := Data(page)];
      assert S() == f1.WithData(addr, page);
      WritingMore(f, f1, S(), i, off, src, tot, to);
      TightMore(f0, f1, S(), i, off + tot, off + to);
    }

    /** iappend: the bytes follow those the file has, and no other file changes. */
    method Iappend(i: nat, src: seq<Byte>) returns (r: Outcome)
      requires Valid() && i < freeinode
      modifies `freeblock, `blocks, `inodes
      ensures |inodes| == |old(inodes)| && !r.OutOfInodes?
      ensures r.Appended? ==> Valid() && Splices(old(S()), S(), i, old(inodes)[i].size, src)
      ensures r.OutOfRange? <==> !r.OutOfBlocks? && src != [] && TooLong(old(inodes)[i].size + |src|)
      ensures var off := old(inodes)[i].size;
              && (r.Appended? ==> freeblock == old(freeblock) + Cost(off + |src|) - Cost(off))
              && (r.OutOfBlocks? ==> old(freeblock) + Cost(off + |src|) - Cost(off) > size)
    {
      hide Writing, Fs.HoleFree, Splices, Tight, Cost;
      ghost var f := S();
      var off, tot := inodes[i].size, 0;
      WritingNone(f, i, off, src);
      TightHere(f, |inodes|, 0, i);
      while tot < |src|
        invariant 0 <= tot <= |src| && S().Owned({}) && Cleared() && Others(f.inodes, inodes, i)
        invariant Writing(f, S(), i, off, src, tot) && Tight(S(), i, off + tot)
        invariant freeblock == old(freeblock) + Cost(off + tot) - Cost(off)
        invariant tot > 0 ==> !TooLong(off + tot)
        decreases |src| - tot
      {
        if (off + tot) / BSIZE >= REACH {
          DivOrdered(off + tot, off + |src| - 1);
          return OutOfRange;
        }
        SameBlock(off + tot, Least(|src| - tot, BSIZE - (off + tot) % BSIZE) - 1);
        var addr;
        tot, addr := AppendBlock(i, off, src, tot, f);
        if addr == 0 {
          CostGrows(off + tot, off + |src|);
          return OutOfBlocks;
        }
      }
      Resize(i, off + tot, off, src, f);
      r := Appended;
    }

    /** The new size goes to the inode. */
    method Resize(i: nat, to: nat, ghost off: nat, ghost src: seq<Byte>, ghost f: Fs)
      requires f.Valid() && S().Owned({}) && Cleared() && i < freeinode <= |inodes|
      requires Writing(f, S(), i, off, src, |src|) && off == f.inodes[i].size && to == off + |src|
      requires |inodes| == |heads| == slots + IPB && Tight(S(), i, to)
      requires forall j :: freeinode <= j < |inodes| ==> inodes[j] == Empty() && heads[j] == Head(0, 0)
      modifies `inodes
      ensures Valid() && Splices(f, S(), i, off, src) && |inodes| == |old(inodes)|
    {
      ghost var g := S();
      g.ResizeKeeps({}, i, to);
      inodes := inodes[i := inodes[i].(size := to)];
      ghost var h := S();
      assert h == g.(inodes := g.inodes[i := g.inodes[i].(size := to)]);
      WritingSpills(f, g, h, i, off, src, |src|, |src|);
      Written(f, g, h, i, off, src, |src|, |src|, to);
      forall j: nat, n: nat ensures TightAt(h, |inodes|, 0, j, n) {
        assert TightAt(g, i, to, j, n) && g.SameHeldAt(h, PlaceOf(j, n));
      }
      forall j: nat ensures IndexAt(h, |inodes|, 0, j) {
        assert IndexAt(g, i, to, j) && g.SameHeldAt(h, Top(j, NDIRECT));
      }
    }

    /**
     The end of main: the size of the root directory is rounded up past its last
     block, and the bitmap written.  The image is then without holes unless the
     directory filled its blocks exactly.
     */
    method Finish() returns (ok: bool, bits: seq<bool>)
      requires Valid() && ROOTINO < freeinode
      modifies `inodes
      ensures (ok <==> freeblock < BPB) && |inodes| == |old(inodes)|
      ensures ok ==>
                var fs := Fs(nmeta, bits, blocks, inodes);
                && bits == FirstBits(size, freeblock) && fs.Owned({}) && old(S()).SameFiles(fs)
                && (fs.Valid() <==> old(inodes)[ROOTINO].size % BSIZE != 0)
                && inodes == old(inodes)[ROOTINO := inodes[ROOTINO]]
                && inodes[ROOTINO].size == (old(inodes)[ROOTINO].size / BSIZE + 1) * BSIZE
    {
      ghost var f := S();
      var off := inodes[ROOTINO].size;
      assert TightAt(f, |inodes|, 0, ROOTINO, Blocks(off));
      RootSizeRounded(f, ROOTINO);
      f.ResizeKeeps({}, ROOTINO, (off / BSIZE + 1) * BSIZE);
      inodes := inodes[ROOTINO := inodes[ROOTINO].(size := (off / BSIZE + 1) * BSIZE)];
      ok, bits := Balloc();
    }

    /** balloc: one bitmap block, its first bits set. */
    method Balloc() returns (ok: bool, bits: seq<bool>)
      ensures ok <==> freeblock < BPB
      ensures ok && freeblock <= size ==> bits == FirstBits(size, freeblock)
    {
      ok, bits := freeblock < BPB, seq(size, _ => false);
      if !ok {
        return;
      }
      var i := 0;
      while i < freeblock
        invariant 0 <= i <= freeblock && |bits| == size && forall b :: 0 <= b < size ==> (bits[b] <==> b < i)
      {
        if i < size {
          bits := bits[i := true];
        }
        i := i + 1;
      }
    }

    // ----------------------------------------------------------------
    // The finished image

    ghost predicate Sized()
      reads this
    {
      |inodes| == |heads| == slots + IPB
    }

    /** The file system of the finished image: the inodes are those in the blocks of inodes. */
    ghost function Disk(bits: seq<bool>): (fs: Fs)
      requires Sized()
      reads this
    {
      Fs(nmeta, bits, blocks, inodes[..slots])
    }

    /** Inode inum as the kernel reads it: behind the blocks of inodes there is the bitmap. */
    ghost function InodeOn(bits: seq<bool>, inum: nat): (d: Dinode)
      requires Sized()
      reads this
    {
      if inum < slots then Dinode(heads[inum], inodes[inum]) else BitmapInode(bits, inum - slots)
    }

    /** Inode inum is a file with one name and these contents. */
    ghost predicate Keeps(bits: seq<bool>, inum: nat, data: seq<Byte>)
      requires Sized()
      reads this
    {
      var d := InodeOn(bits, inum);
      d.head == Head(T_FILE, 1) && d.node.size == |data| && (inum < slots ==> HoldsAt(Disk(bits), inum, data))
    }

    ghost predicate KeptAt(bits: seq<bool>, files: seq<seq<Byte>>, k: int)
      requires Sized() && 0 <= k < |files|
      reads this
    {
      Keeps(bits, ROOTINO + 1 + k, files[k])
    }

    ghost predicate KeepsAll(bits: seq<bool>, files: seq<seq<Byte>>)
      requires Sized()
      reads this
    {
      forall k :: 0 <= k < |files| ==> KeptAt(bits, files, k)
    }

    /** The files that are kept are those whose inodes are in the blocks of inodes. */
    ghost predicate KeepsThose(bits: seq<bool>, files: seq<seq<Byte>>)
      requires Sized()
      reads this
    {
      forall k :: 0 <= k < |files| ==> (KeptAt(bits, files, k) <==> ROOTINO + 1 + k < slots)
    }

    // ----------------------------------------------------------------
    // main

    /** The rest of one pass over the arguments of mkfs: an inode, its entry in the root, its bytes block by block. */
    method AddFile(name: string, data: seq<Byte>, ghost held: map<nat, seq<Byte>>)
        returns (r: Outcome, ghost held': map<nat, seq<Byte>>)
      requires Valid() && HoldsAll(S(), held) && ROOTINO in held && forall j :: j in held ==> j < freeinode
      modifies `freeblock, `freeinode, `blocks, `inodes, `heads
      ensures |inodes| == |old(inodes)| && |heads| == |old(heads)|
      ensures r.OutOfInodes? <==> old(freeinode) == slots + IPB
      ensures r.OutOfBlocks? ==> old(freeblock) + Added(|held[ROOTINO]|, |data|) > size
      ensures r.OutOfRange? ==> TooLong(|held[ROOTINO]| + DIRENT) || TooLong(|data|)
      ensures r.Appended? ==>
                && Valid() && HoldsAll(S(), held') && freeinode == old(freeinode) + 1
                && held' == held[ROOTINO := held[ROOTINO] + Dirent(old(freeinode), name)][old(freeinode) := data]
                && heads == old(heads)[old(freeinode) := Head(T_FILE, 1)]
                && freeblock == old(freeblock) + Added(|held[ROOTINO]|, |data|)
                && !TooLong(|held[ROOTINO]| + DIRENT) && !TooLong(|data|)
    {
      hide HoldsAll, Splices, Fs.Valid, Tight, Dirent, Cost, TooLong;
      var inum := Ialloc(T_FILE);
      held' := held;
      if inum == 0 {
        return OutOfInodes, held;
      }
      HoldsNew(S(), held, inum);
      held' := held[inum := []];
      NothingLong();
      CostGrows(0, |data|);
      r, held' := Append(ROOTINO, Dirent(inum, name), held');
      if !r.Appended? {
        return;
      }
      var pos := 0;
      while pos < |data|
        invariant 0 <= pos <= |data| && Valid() && |inodes| == |old(inodes)| && HoldsAll(S(), held')
        invariant freeinode == old(freeinode) + 1 && !TooLong(pos)
        invariant freeblock == old(freeblock) + Added(|held[ROOTINO]|, pos)
        invariant heads == old(heads)[inum := Head(T_FILE, 1)]
        invariant held' == held[ROOTINO := held[ROOTINO] + Dirent(inum, name)][inum := data[..pos]]
        decreases |data| - pos
      {
        var cc := Least(BSIZE, |data| - pos);
        r, held' := Append(inum, data[pos..pos + cc], held');
        if !r.Appended? {
          LongerStill(pos + cc, |data|);
          CostGrows(pos + cc, |data|);
          return;
        }
        assert data[..pos] + data[pos..pos + cc] == data[..pos + cc];
        pos := pos + cc;
      }
      assert data[..pos] == data;
      r := Appended;
    }

    /** iappend, with what all files then hold. */
    method Append(i: nat, src: seq<Byte>, ghost held: map<nat, seq<Byte>>)
        returns (r: Outcome, ghost held': map<nat, seq<Byte>>)
      requires Valid() && HoldsAll(S(), held) && i in held && i < freeinode && src != []
      modifies `freeblock, `blocks, `inodes
      ensures |inodes| == |old(inodes)| && !r.OutOfInodes?
      ensures r.OutOfBlocks? ==> old(freeblock) + Cost(|held[i]| + |src|) - Cost(|held[i]|) > size
      ensures r.OutOfRange? ==> TooLong(|held[i]| + |src|)
      ensures r.Appended? ==>
                && Valid() && held' == held[i := held[i] + src] && HoldsAll(S(), held')
                && freeblock == old(freeblock) + Cost(|held[i]| + |src|) - Cost(|held[i]|)
                && !TooLong(|held[i]| + |src|)
    {
      hide Cost, TooLong, Splices, Tight;
      ghost var f := S();
      assert HoldsAt(f, i, held[i]);
      r := Iappend(i, src);
      held' := held[i := held[i] + src];
      if r.Appended? {
        AppendHolds(f, S(), i, src, held);
      }
    }
  }

  // ------------------------------------------------------------------
  // The bitmap read as inodes

  datatype Dinode = Dinode(head: Head, node: Inode)

  /** w bits from `at` on as a number, the lowest first; there are zeros behind the bits of the image. */
  function Word(bits: seq<bool>, at: nat, w: nat): (n: nat)
    decreases w
  {
    if w == 0 then 0 else (if at < |bits| && bits[at] then 1 else 0) + 2 * Word(bits, at + 1, w - 1)
  }

  /** The s-th 64 bytes of the bitmap as an inode: type, major, minor, nlink, size, addresses. */
  function BitmapInode(bits: seq<bool>, s: nat): (d: Dinode) {
    Dinode(Head(Word(bits, 512 * s, 16), Word(bits, 512 * s + 48, 16)),
           Inode(seq(NDIRECT + 1, n requires 0 <= n => Word(bits, 512 * s + 96 + 32 * n, 32)),
                 Word(bits, 512 * s + 64, 32)))
  }

  lemma {:induction false} NeverTwo(size: nat, used: nat, at: nat, w: nat)
    requires w >= 2
    ensures Word(FirstBits(size, used), at, w) != 2
  {
    var bits := FirstBits(size, used);
    var b0, b1 := at < |bits| && bits[at], at + 1 < |bits| && bits[at + 1];
    assert Word(bits, at, w) == (if b0 then 1 else 0) + 2 * Word(bits, at + 1, w - 1);
    assert Word(bits, at + 1, w - 1) == (if b1 then 1 else 0) + 2 * Word(bits, at + 2, w - 2);
  }

  /** The bits that balloc sets are the first ones, so that none of it looks like a file. */
  lemma BitmapIsNoFile(size: nat, used: nat, s: nat)
    ensures BitmapInode(FirstBits(size, used), s).head.kind != T_FILE
  {
    hide Word, FirstBits;
    NeverTwo(size, used, 512 * s, 16);
  }

  // ------------------------------------------------------------------
  // What the image holds

  function AsBytes(s: string): (b: seq<Byte>)
    ensures |b| == |s|
  {
    seq(|s|, i requires 0 <= i < |s| => (s[i] as int % 256) as Byte)
  }

  /** A directory entry on disk: the inode number, low byte first, and the name cut or filled to DIRSIZ. */
  function Dirent(inum: nat, name: string): (e: seq<Byte>)
    ensures |e| == DIRENT
  {
    var n := AsBytes(name[..Least(|name|, DIRSIZ)]);
    [(inum % 256) as Byte, (inum / 256 % 256) as Byte] + n + seq(DIRSIZ - |n|, _ => 0)
  }

  /** More bytes than bmap can address. */
  predicate TooLong(len: nat) { len > 0 && (len - 1) / BSIZE >= REACH }

  lemma LongerStill(a: nat, b: nat)
    requires a <= b
    ensures TooLong(a) ==> TooLong(b)
  {
    if a > 0 {
      DivOrdered(a - 1, b - 1);
    }
  }

  lemma NothingLong()
    ensures !TooLong(0) && Cost(0) == 0
  {
  }

  /** A file that is too long takes more blocks than bmap can address. */
  lemma LongCosts(len: nat)
    ensures TooLong(len) ==> Cost(len) > REACH
  {
    assert TooLong(len) ==> Blocks(len) > REACH by {
      assert len > 0 ==> Blocks(len) == (len - 1) / BSIZE + 1;
    }
  }

  /** The blocks that a file and its entry in a root directory of this size take. */
  function Added(root: nat, len: nat): (n: int) {
    Cost(root + DIRENT) - Cost(root) + Cost(len)
  }

  /** The blocks of the first n files. */
  function Total(files: seq<seq<Byte>>, n: nat): (t: nat)
    requires n <= |files|
  {
    if n == 0 then 0 else Total(files, n - 1) + Cost(|files[n - 1]|)
  }

  lemma TotalNone(files: seq<seq<Byte>>)
    ensures Total(files, 0) == 0
  {
  }

  lemma {:induction false} TotalGrows(files: seq<seq<Byte>>, m: nat, n: nat)
    requires m <= n <= |files|
    ensures Total(files, m) <= Total(files, n) && forall k :: 0 <= k < n ==> Cost(|files[k]|) <= Total(files, n)
    decreases n
  {
    if n > 0 {
      TotalGrows(files, if m < n then m else n - 1, n - 1);
    }
  }

  /** The blocks that the root directory and the files take. */
  function Need(files: seq<seq<Byte>>): (n: nat) {
    Cost(DIRENT * (2 + |files|)) + Total(files, |files|)
  }

  /** There is room for the files: blocks, places for inodes, and addresses. */
  predicate Room(size: nat, nmeta: nat, slots: nat, files: seq<seq<Byte>>) {
    && nmeta + Need(files) <= size && 2 + |files| <= slots + IPB
    && !TooLong(DIRENT * (2 + |files|)) && forall k :: 0 <= k < |files| ==> !TooLong(|files[k]|)
  }

  /** Behind the end of a file its block is still zero. */
  ghost predicate EndAt(fs: Fs, i: nat, len: nat, k: nat)
    requires fs.Shape() && i < |fs.inodes|
  {
    len <= k && k / BSIZE < REACH ==> ByteOf(fs, i, k) == 0
  }

  ghost predicate EndsAt(fs: Fs, i: nat, len: nat)
    requires fs.Shape() && i < |fs.inodes|
  {
    forall k :: EndAt(fs, i, len, k)
  }

  /** File i consists of these bytes, with zeros behind them. */
  ghost predicate HoldsAt(fs: Fs, i: nat, data: seq<Byte>) {
    fs.Shape() && i < |fs.inodes| && fs.inodes[i].size == |data| && Reads(fs, i, 0, data) && EndsAt(fs, i, |data|)
  }

  ghost predicate HoldsAll(fs: Fs, held: map<nat, seq<Byte>>) {
    forall j :: j in held ==> HoldsAt(fs, j, held[j])
  }

  lemma HoldsNew(fs: Fs, held: map<nat, seq<Byte>>, i: nat)
    requires HoldsAll(fs, held) && fs.Valid() && i < |fs.inodes| && fs.inodes[i] == Image.Empty()
    ensures HoldsAll(fs, held[i := []])
  {
    ReadNone(fs, i, 0);
    forall k: nat ensures EndAt(fs, i, 0, k) {
    }
  }

  lemma AppendHolds(f: Fs, h: Fs, i: nat, src: seq<Byte>, held: map<nat, seq<Byte>>)
    requires f.Valid() && h.Valid() && i in held && HoldsAll(f, held) && i < |f.inodes|
    requires Splices(f, h, i, f.inodes[i].size, src)
    ensures HoldsAll(h, held[i := held[i] + src])
  {
    assert HoldsAt(f, i, held[i]);
    forall j | j in held ensures HoldsAt(h, j, held[i := held[i] + src][j]) {
      assert HoldsAt(f, j, held[j]);
      if j == i {
        HoldsMore(f, h, i, held[i], src);
      } else {
        OthersReadTheSame(f, h, i, f.inodes[i].size, src, j, 0, held[j]);
        EndSame(f, h, j, |held[j]|);
      }
    }
  }

  lemma EndSame(f: Fs, h: Fs, i: nat, len: nat)
    requires f.Shape() && h.Shape() && i < |f.inodes| && i < |h.inodes| && EndsAt(f, i, len)
    requires forall n: nat :: f.SameAt(h, i, n)
    ensures EndsAt(h, i, len)
  {
    forall k: nat ensures EndAt(h, i, len, k) {
      assert EndAt(f, i, len, k) && f.SameAt(h, i, k / BSIZE);
    }
  }

  lemma HoldsMore(f: Fs, h: Fs, i: nat, data: seq<Byte>, src: seq<Byte>)
    requires h.Valid() && HoldsAt(f, i, data) && Splices(f, h, i, |data|, src)
    ensures HoldsAt(h, i, data + src)
  {
    forall k: nat ensures ReadAt(h, i, 0, data + src, k) {
      if k < |data + src| {
        Present(h, i, k);
        assert ReadAt(f, i, 0, data, k) && PatchAt(f, h, i, |data|, src, |src|, k);
      }
    }
    forall k: nat ensures EndAt(h, i, |data + src|, k) {
      assert EndAt(f, i, |data|, k) && PatchAt(f, h, i, |data|, src, |src|, k);
    }
  }

  lemma ReadsSame(f: Fs, h: Fs, i: nat, data: seq<Byte>)
    requires f.Shape() && h.Shape() && i < |f.inodes| && i < |h.inodes| && Reads(f, i, 0, data)
    requires forall n: nat :: f.SameAt(h, i, n)
    ensures Reads(h, i, 0, data)
  {
    forall k: nat ensures ReadAt(h, i, 0, data, k) {
      assert ReadAt(f, i, 0, data, k) && f.SameAt(h, i, k / BSIZE);
    }
  }

  /** The bytes of the root directory with its dots and the first n files. */
  ghost function RootBytes(names: seq<string>, n: nat): (s: seq<Byte>)
    requires n <= |names|
    ensures |s| == DIRENT * (2 + n)
  {
    if n == 0 then Dirent(ROOTINO, DOT) + Dirent(ROOTINO, DOTDOT)
    else RootBytes(names, n - 1) + Dirent(ROOTINO + n, names[n - 1])
  }

  /** What the files and the root hold once the first n files are in. */
  ghost function Held(names: seq<string>, files: seq<seq<Byte>>, n: nat): (held: map<nat, seq<Byte>>)
    requires n <= |names| == |files|
    ensures forall j :: j in held <==> ROOTINO <= j <= ROOTINO + n
    ensures held[ROOTINO] == RootBytes(names, n)
    ensures forall k :: 0 <= k < n ==> ROOTINO + 1 + k in held && held[ROOTINO + 1 + k] == files[k]
  {
    if n == 0 then map[ROOTINO := RootBytes(names, 0)]
    else Held(names, files, n - 1)[ROOTINO := RootBytes(names, n)][ROOTINO + n := files[n - 1]]
  }

  /** What the inodes are once n files are in. */
  ghost function Kinds(n: nat, total: nat): (h: seq<Head>)
    ensures |h| == total && forall j :: 0 <= j < total ==> h[j] == KindAt(n, j)
  {
    seq(total, j => KindAt(n, j))
  }

  ghost function KindAt(n: nat, j: int): (h: Head) {
    if j == ROOTINO then Head(T_DIR, 1) else if ROOTINO < j < 2 + n then Head(T_FILE, 1) else Head(0, 0)
  }

  /** How mkfs ends. */
  datatype Result = Built(bits: seq<bool>) | Failed(why: Outcome) | BitmapFull

  /** The image holds the files and the root directory that names them. */
  ghost predicate Complete(fs: Fs, names: seq<string>, files: seq<seq<Byte>>)
    requires |names| == |files|
  {
    && fs.Shape() && |files| + 2 <= |fs.inodes| && Reads(fs, ROOTINO, 0, RootBytes(names, |names|))
    && EndsAt(fs, ROOTINO, DIRENT * (2 + |files|))
    && fs.inodes[ROOTINO].size == (DIRENT * (2 + |files|) / BSIZE + 1) * BSIZE
    && forall k :: 0 <= k < |files| ==> HoldsAt(fs, ROOTINO + 1 + k, files[k])
  }

  /** main up to the loop over its arguments: the root directory and its dots. */
  method MakeRoot(image: Image) returns (r: Outcome, ghost held: map<nat, seq<Byte>>)
    requires image.Valid() && image.freeinode == ROOTINO
    modifies image
    ensures |image.inodes| == |old(image.inodes)| && |image.heads| == |old(image.heads)| && !r.OutOfInodes?
    ensures r.OutOfBlocks? ==> old(image.freeblock) + Cost(DIRENT * 2) > image.size
    ensures r.OutOfRange? ==> TooLong(DIRENT * 2)
    ensures r.Appended? ==>
              && image.Valid() && image.freeinode == ROOTINO + 1 && HoldsAll(image.S(), held)
              && held == map[ROOTINO := Dirent(ROOTINO, DOT) + Dirent(ROOTINO, DOTDOT)]
              && image.heads == old(image.heads)[ROOTINO := Head(T_DIR, 1)]
              && image.freeblock == old(image.freeblock) + Cost(DIRENT * 2) && !TooLong(DIRENT * 2)
  {
    hide HoldsAll, Dirent, Tight, Fs.Owned, Fs.HoleFree, Cost, TooLong;
    held := map[];
    NoneHeld(image);
    NothingLong();
    LongerStill(DIRENT, DIRENT * 2);
    CostGrows(DIRENT, DIRENT * 2);
    var root := image.Ialloc(T_DIR);
    HoldsNew(image.S(), held, root);
    held := held[root := []];
    r, held := image.Append(root, Dirent(root, DOT), held);
    if !r.Appended? {
      return;
    }
    assert [] + Dirent(ROOTINO, DOT) == Dirent(ROOTINO, DOT);
    r, held := image.Append(root, Dirent(root, DOTDOT), held);
  }

  lemma NoneHeld(image: Image)
    ensures HoldsAll(image.S(), map[])
  {
  }

  /** The image while main loops over its arguments, with the first n files in. */
  ghost predicate Underway(image: Image, names: seq<string>, files: seq<seq<Byte>>, n: nat)
    requires n <= |names| == |files|
    reads image
  {
    && image.Valid() && HoldsAll(image.S(), Held(names, files, n)) && image.freeinode == 2 + n
    && image.freeblock == image.nmeta + Cost(DIRENT * (2 + n)) + Total(files, n)
    && image.heads == Kinds(n, |image.heads|)
    && !TooLong(DIRENT * (2 + n)) && forall k :: 0 <= k < n ==> !TooLong(|files[k]|)
  }

  /** The loop of main over its arguments: it gets to its end exactly if there is room. */
  method AddFiles(image: Image, names: seq<string>, files: seq<seq<Byte>>) returns (r: Outcome)
    requires |names| == |files| && Underway(image, names, files, 0)
    modifies image
    ensures r.Appended? <==> Room(image.size, image.nmeta, image.slots, files)
    ensures r.Appended? ==> Underway(image, names, files, |files|)
  {
    hide Underway, Room;
    var n := 0;
    while n < |files|
      invariant 0 <= n <= |files| && Underway(image, names, files, n)
    {
      r := AddNext(image, names, files, n);
      if !r.Appended? {
        return;
      }
      n := n + 1;
    }
    EndsWithRoom(image, names, files);
    r := Appended;
  }

  lemma EndsWithRoom(image: Image, names: seq<string>, files: seq<seq<Byte>>)
    requires |names| == |files| && Underway(image, names, files, |files|)
    ensures Room(image.size, image.nmeta, image.slots, files)
  {
    hide HoldsAll, Held, Kinds, Fs.Owned, Fs.HoleFree, Tight, Cost, TooLong, Total;
  }

  /** One turn of that loop. */
  method AddNext(image: Image, names: seq<string>, files: seq<seq<Byte>>, n: nat) returns (r: Outcome)
    requires n < |names| == |files| && Underway(image, names, files, n)
    modifies image
    ensures r.Appended? ==> Underway(image, names, files, n + 1)
    ensures !r.Appended? ==> !Room(image.size, image.nmeta, image.slots, files)
  {
    hide HoldsAll, Dirent, TooLong, Cost, Tight, Fs.Owned, Fs.HoleFree;
    ghost var held := Held(names, files, n);
    r, held := image.AddFile(names[n], files[n], held);
    LongerStill(DIRENT * (3 + n), DIRENT * (2 + |files|));
    CostGrows(DIRENT * (3 + n), DIRENT * (2 + |files|));
    TotalGrows(files, n + 1, |files|);
  }

  /** Inodes that are empty do not matter to the file system. */
  lemma CutTable(f: Fs, slots: nat)
    requires f.Owned({}) && slots <= |f.inodes| && forall j :: slots <= j < |f.inodes| ==> f.inodes[j] == Image.Empty()
    ensures var g := f.(inodes := f.inodes[..slots]);
            && g.Owned({}) && (g.HoleFree() <==> f.HoleFree())
            && forall j: nat, n: nat :: j < slots ==> f.SameAt(g, j, n)
  {
    var g := f.(inodes := f.inodes[..slots]);
    forall p ensures CutAt(f, g, slots, p) {
    }
    CutOwned(f, g, slots);
    forall j: nat, n: nat ensures j < slots ==> f.SameAt(g, j, n) && (f.FullAt(j, n) <==> g.FullAt(j, n)) {
      assert CutAt(f, g, slots, PlaceOf(j, n));
    }
    forall j: nat, n: nat ensures j >= slots ==> f.FullAt(j, n) {
      assert slots <= j < |f.inodes| ==> Blocks(f.inodes[j].size) == 0;
    }
    CutFull(f, g, slots);
  }

  lemma CutFull(f: Fs, g: Fs, slots: nat)
    requires f.Shape() && g.Shape() && |g.inodes| == slots
    requires forall j: nat, n: nat :: j < slots ==> (f.FullAt(j, n) <==> g.FullAt(j, n))
    requires forall j: nat, n: nat :: j >= slots ==> f.FullAt(j, n)
    ensures g.HoleFree() <==> f.HoleFree()
  {
  }

  ghost predicate CutAt(f: Fs, g: Fs, slots: nat, p: Place)
    requires f.Shape() && g.Shape()
  {
    (g.Has(p) <==> f.Has(p) && p.i < slots) && (f.Has(p) ==> f.Held(p) == if g.Has(p) then g.Held(p) else 0)
  }

  lemma CutOwned(f: Fs, g: Fs, slots: nat)
    requires f.Owned({}) && g.Shape() && g.bits == f.bits && g.blocks == f.blocks && g.nmeta == f.nmeta
    requires forall p :: CutAt(f, g, slots, p)
    ensures g.Owned({})
  {
    hide Fs.Held;
    forall p ensures g.HeldAt(p) {
      assert f.HeldAt(p) && CutAt(f, g, slots, p);
    }
    forall p, q ensures g.ApartAt(p, q) {
      assert f.ApartAt(p, q) && CutAt(f, g, slots, p) && CutAt(f, g, slots, q);
    }
    forall c ensures g.UsedAt(c, {}) {
      assert f.UsedAt(c, {});
      if p :| f.Has(p) && f.Held(p) == c && c != 0 {
        assert CutAt(f, g, slots, p);
      }
    }
  }

  /** Rounding up the root's size and writing the bitmap leave all that the image holds. */
  lemma {:induction false} StillComplete(f: Fs, fs: Fs, names: seq<string>, files: seq<seq<Byte>>)
    requires f.Shape() && fs.Shape() && |names| == |files| && |files| + 2 <= |fs.inodes| <= |f.inodes|
    requires HoldsAll(f, Held(names, files, |files|))
    requires forall j: nat, n: nat :: j < |fs.inodes| ==> f.SameAt(fs, j, n)
    requires forall j :: 0 <= j < |fs.inodes| && j != ROOTINO ==> fs.inodes[j].size == f.inodes[j].size
    requires fs.inodes[ROOTINO].size == (f.inodes[ROOTINO].size / BSIZE + 1) * BSIZE
    ensures Complete(fs, names, files)
  {
    hide Reads, RootBytes, Held;
    var held := Held(names, files, |files|);
    assert HoldsAt(f, ROOTINO, held[ROOTINO]);
    ReadsSame(f, fs, ROOTINO, held[ROOTINO]);
    EndSame(f, fs, ROOTINO, |held[ROOTINO]|);
    forall k | 0 <= k < |files| ensures HoldsAt(fs, ROOTINO + 1 + k, files[k]) {
      assert ROOTINO + 1 + k in held && HoldsAt(f, ROOTINO + 1 + k, held[ROOTINO + 1 + k]);
      ReadsSame(f, fs, ROOTINO + 1 + k, files[k]);
      EndSame(f, fs, ROOTINO + 1 + k, |files[k]|);
    }
  }

  /** Entries fill whole blocks exactly if their number is a multiple of those in a block. */
  lemma EntriesFill(n: nat)
    ensures DIRENT * n % BSIZE == 0 <==> n % (BSIZE / DIRENT) == 0
  {
  }

  /**
   mkfs: the root directory, the files, the bitmap.  It finishes exactly if there
   is room.  The image then keeps every file if and only if all inodes are in the
   blocks of inodes; the kernel can start on it unless the entries of the root
   end on a block boundary.
   */
  method BuildImage(size: nat, nmeta: nat, slots: nat, names: seq<string>, files: seq<seq<Byte>>)
      returns (r: Result, image: Image)
    requires 0 < nmeta <= size && slots > ROOTINO && |names| == |files|
    ensures fresh(image) && image.nmeta == nmeta && image.size == size && image.slots == slots
    ensures r.Built? <==> Room(size, nmeta, slots, files) && nmeta + Need(files) < BPB
    ensures r.Built? ==>
              && image.Sized() && r.bits == FirstBits(size, nmeta + Need(files))
              && image.heads == Kinds(|files|, slots + IPB)
              && image.KeepsThose(r.bits, files) && (image.KeepsAll(r.bits, files) <==> 2 + |files| <= slots)
    ensures r.Built? && 2 + |files| <= slots ==>
              && Complete(image.Disk(r.bits), names, files) && image.Disk(r.bits).Owned({})
              && (image.Disk(r.bits).Valid() <==> (2 + |files|) % (BSIZE / DIRENT) != 0)
  {
    hide HoldsAll, Fs.Owned, Fs.HoleFree, Tight, Complete, RootBytes, TooLong, Reads, Cost, Total, Room;
    hide Image.KeepsAll, Image.KeepsThose;
    image := new Image(size, nmeta, slots);
    var o;
    ghost var held;
    o, held := MakeRoot(image);
    RoomForRoot(size, nmeta, slots, files);
    if !o.Appended? {
      return Failed(o), image;
    }
    RootStarts(names, files);
    TotalNone(files);
    assert image.heads == Kinds(0, |image.heads|);
    o := AddFiles(image, names, files);
    if !o.Appended? {
      return Failed(o), image;
    }
    r := Conclude(image, names, files);
  }

  /** The end of main, after the loop over its arguments. */
  method Conclude(image: Image, names: seq<string>, files: seq<seq<Byte>>) returns (r: Result)
    requires |names| == |files| && Underway(image, names, files, |files|) && ROOTINO < image.slots
    modifies image
    ensures image.Sized() && image.heads == old(image.heads)
    ensures var used := image.nmeta + Need(files);
            r == if used < BPB then Built(FirstBits(image.size, used)) else BitmapFull
    ensures r.Built? ==>
              image.KeepsThose(r.bits, files) && (image.KeepsAll(r.bits, files) <==> 2 + |files| <= image.slots)
    ensures r.Built? && 2 + |files| <= image.slots ==>
              && Complete(image.Disk(r.bits), names, files) && image.Disk(r.bits).Owned({})
              && (image.Disk(r.bits).Valid() <==> (2 + |files|) % (BSIZE / DIRENT) != 0)
  {
    hide HoldsAll, Fs.Owned, Fs.HoleFree, Tight, Complete, RootBytes, TooLong, Reads, Cost, Total;
    hide Image.KeepsAll, Image.KeepsThose;
    ghost var f := image.S();
    RootSize(f, names, files);
    EntriesFill(2 + |files|);
    var ok, bits := image.Finish();
    r := if ok then Built(bits) else BitmapFull;
    if ok {
      KeptThose(image, f, bits, names, files);
      if 2 + |files| <= image.slots {
        KeptInTable(image, f, bits, names, files);
      }
    }
  }

  lemma RoomForRoot(size: nat, nmeta: nat, slots: nat, files: seq<seq<Byte>>)
    ensures Room(size, nmeta, slots, files) ==> nmeta + Cost(DIRENT * 2) <= size && !TooLong(DIRENT * 2)
  {
    hide Cost, TooLong;
    LongerStill(DIRENT * 2, DIRENT * (2 + |files|));
    CostGrows(DIRENT * 2, DIRENT * (2 + |files|));
  }

  /** The image after the last two writes of main, from what it held before. */
  ghost predicate Rounded(image: Image, f: Fs, bits: seq<bool>, names: seq<string>, files: seq<seq<Byte>>)
    requires |names| == |files|
    reads image
  {
    && image.Sized() && ROOTINO < image.slots && 2 + |files| <= |image.inodes|
    && bits == FirstBits(image.size, image.freeblock) && image.heads == Kinds(|files|, |image.heads|)
    && f.Shape() && |f.inodes| == |image.inodes| && image.inodes == f.inodes[ROOTINO := image.inodes[ROOTINO]]
    && image.inodes[ROOTINO].size == (f.inodes[ROOTINO].size / BSIZE + 1) * BSIZE
    && HoldsAll(f, Held(names, files, |files|))
    && (forall j :: 2 + |files| <= j < |f.inodes| ==> f.inodes[j] == Image.Empty())
    && var fs := Fs(image.nmeta, bits, image.blocks, image.inodes); fs.Owned({}) && f.SameFiles(fs)
  }

  lemma KeptInTable(image: Image, f: Fs, bits: seq<bool>, names: seq<string>, files: seq<seq<Byte>>)
    requires |names| == |files| && Rounded(image, f, bits, names, files) && 2 + |files| <= image.slots
    ensures var fs, disk := Fs(image.nmeta, bits, image.blocks, image.inodes), image.Disk(bits);
            disk.Owned({}) && Complete(disk, names, files) && (disk.HoleFree() <==> fs.HoleFree())
  {
    hide Held, HoldsAll, Fs.Owned, Fs.HoleFree, Fs.Held, BitmapInode, FirstBits, Kinds, Fs.SameAt, Complete;
    var fs, disk := Fs(image.nmeta, bits, image.blocks, image.inodes), image.Disk(bits);
    CutTable(fs, image.slots);
    OwnedShape(disk);
    forall j: nat, n: nat ensures j < image.slots ==> f.SameAt(disk, j, n) {
      if j < image.slots {
        SameThrough(f, fs, disk, j, n);
      }
    }
    StillComplete(f, disk, names, files);
  }

  lemma OwnedShape(f: Fs)
    requires f.Owned({})
    ensures f.Shape()
  {
  }

  lemma KeptFile(image: Image, f: Fs, bits: seq<bool>, names: seq<string>, files: seq<seq<Byte>>, k: nat)
    requires |names| == |files| && Rounded(image, f, bits, names, files) && k < |files|
    ensures image.KeptAt(bits, files, k) <==> ROOTINO + 1 + k < image.slots
  {
    hide Held, Fs.Owned, Fs.HoleFree, Fs.Held, BitmapInode, FirstBits, Fs.SameAt, Reads, EndsAt;
    var i, fs, disk := ROOTINO + 1 + k, Fs(image.nmeta, bits, image.blocks, image.inodes), image.Disk(bits);
    if i < image.slots {
      OwnedShape(fs);
      assert i in Held(names, files, |files|) && HoldsAt(f, i, files[k]);
      forall n: nat ensures f.SameAt(disk, i, n) {
        CutSame(fs, disk, i, n);
        SameThrough(f, fs, disk, i, n);
      }
      ReadsSame(f, disk, i, files[k]);
      EndSame(f, disk, i, |files[k]|);
    } else {
      BitmapIsNoFile(image.size, image.freeblock, i - image.slots);
    }
  }

  lemma CutSame(f: Fs, g: Fs, j: nat, n: nat)
    requires f.Shape() && g.Shape() && g.bits == f.bits && g.blocks == f.blocks && g.inodes <= f.inodes
    requires j < |g.inodes|
    ensures f.SameAt(g, j, n)
  {
  }

  lemma KeptThose(image: Image, f: Fs, bits: seq<bool>, names: seq<string>, files: seq<seq<Byte>>)
    requires |names| == |files| && Rounded(image, f, bits, names, files)
    ensures image.KeepsThose(bits, files) && (image.KeepsAll(bits, files) <==> 2 + |files| <= image.slots)
  {
    hide Image.KeptAt, Fs.Owned;
    forall k | 0 <= k < |files| ensures image.KeptAt(bits, files, k) <==> ROOTINO + 1 + k < image.slots {
      KeptFile(image, f, bits, names, files, k);
    }
    if 2 + |files| > image.slots {
      assert !image.KeptAt(bits, files, image.slots - 2);
    }
  }

  lemma SameThrough(f: Fs, g: Fs, h: Fs, j: nat, n: nat)
    requires f.Shape() && g.Shape() && h.Shape() && |g.inodes| == |f.inodes| && j < |g.inodes|
    requires f.SameAt(g, j, n) && g.SameAt(h, j, n)
    ensures f.SameAt(h, j, n)
  {
  }

  /**
   The sizes in kernel/param.h and mkfs.c: boot block, super block, log, one block
   of inodes, one of bitmap.  NINODES is not tested; there are IPB places.
   */
  const FSSIZE: nat := 1000
  const NINODES: nat := 200
  const NINODEBLOCKS: nat := NINODES / IPB + 1
  const NMETA: nat := 2 + LOGSIZE + NINODEBLOCKS + 1

  /**
   mkfs with these sizes: it finishes exactly if the blocks suffice and the
   inodes do not go past the bitmap block, and then keeps every file, on an image
   that the kernel can start on, if and only if there are at most 1022 files.
   */
  method MakeDisk(names: seq<string>, files: seq<seq<Byte>>) returns (r: Result, image: Image)
    requires |names| == |files|
    ensures fresh(image) && image.nmeta == NMETA && image.slots == IPB
    ensures r.Built? <==> NMETA + Need(files) <= FSSIZE && 2 + |files| <= 2 * IPB
    ensures r.Built? ==> image.Sized() && |r.bits| == FSSIZE && image.heads == Kinds(|files|, 2 * IPB)
    ensures r.Built? ==> image.KeepsThose(r.bits, files) && (image.KeepsAll(r.bits, files) <==> 2 + |files| <= IPB)
    ensures r.Built? && 2 + |files| <= IPB ==> image.Disk(r.bits).Valid() && Complete(image.Disk(r.bits), names, files)
  {
    hide Complete, Fs.Owned, Fs.HoleFree, Image.KeepsAll, Image.KeepsThose, Cost, TooLong, Total;
    FewBlocks(files);
    r, image := BuildImage(FSSIZE, NMETA, NINODEBLOCKS * IPB, names, files);
  }

  /** An image of FSSIZE blocks has no room for a file that bmap cannot address. */
  lemma FewBlocks(files: seq<seq<Byte>>)
    ensures NMETA + Need(files) <= FSSIZE ==>
              !TooLong(DIRENT * (2 + |files|)) && forall k :: 0 <= k < |files| ==> !TooLong(|files[k]|)
  {
    hide Cost, TooLong;
    LongCosts(DIRENT * (2 + |files|));
    TotalGrows(files, |files|, |files|);
    forall k | 0 <= k < |files| ensures TooLong(|files[k]|) ==> Cost(|files[k]|) > REACH {
      LongCosts(|files[k]|);
    }
  }

  /** Empty files, as many as asked for. */
  function Empties(n: nat): (files: seq<seq<Byte>>)
    ensures |files| == n && forall k :: 0 <= k < n ==> files[k] == []
  {
    seq(n, _ => [])
  }

  lemma {:induction false} EmptiesCost(n: nat, m: nat)
    requires m <= n
    ensures Total(Empties(n), m) == 0
  {
    if m > 0 {
      EmptiesCost(n, m - 1);
    }
  }

  lemma EmptiesNeed(n: nat)
    requires DIRENT * (2 + n) <= BSIZE
    ensures Need(Empties(n)) == 1 && !TooLong(DIRENT * (2 + n)) && !TooLong(0)
  {
    EmptiesCost(n, n);
  }

  /** One file more than there are places: mkfs finishes, and the last file is lost. */
  method LosesLastFile() returns (r: Result, image: Image)
    ensures fresh(image) && image.Sized() && r.Built?
    ensures forall k :: 0 <= k < 1023 ==> (image.KeptAt(r.bits, Empties(1023), k) <==> k < 1022)
  {
    hide Complete, Fs.Owned, Fs.HoleFree, Image.KeepsAll, Image.KeptAt, Need, Empties;
    EmptiesNeed(1023);
    var names := seq(1023, _ => "f");
    r, image := MakeDisk(names, Empties(1023));
  }

  /** With more blocks of inodes, a root directory of exactly one block leaves an image with a hole. */
  method FullRootHasHole() returns (r: Result, image: Image)
    ensures fresh(image) && image.Sized() && r.Built? && image.KeepsAll(r.bits, Empties(2046))
    ensures image.Disk(r.bits).Owned({}) && !image.Disk(r.bits).Valid()
  {
    hide Complete, Fs.Owned, Fs.HoleFree, Image.KeepsAll, Need, Empties, TooLong;
    EmptiesNeed(2046);
    var names := seq(2046, _ => "f");
    r, image := BuildImage(FSSIZE, NMETA + 1, 2 * IPB, names, Empties(2046));
  }

  lemma {:induction false} RootStarts(names: seq<string>, files: seq<seq<Byte>>)
    requires |names| == |files|
    ensures Held(names, files, 0) == map[ROOTINO := Dirent(ROOTINO, DOT) + Dirent(ROOTINO, DOTDOT)]
  {
  }

  lemma {:induction false} RootSize(f: Fs, names: seq<string>, files: seq<seq<Byte>>)
    requires |names| == |files| && HoldsAll(f, Held(names, files, |files|))
    ensures f.Shape() && ROOTINO < |f.inodes| && f.inodes[ROOTINO].size == DIRENT * (2 + |files|)
  {
    hide RootBytes, Held, Reads;
    assert HoldsAt(f, ROOTINO, Held(names, files, |files|)[ROOTINO]);
  }
}
