/**
 Files as bytes over FsSpec: reading, writing and truncating one file while the
 others stay as they are.
 */
module FileSpec {
  import opened Common
  import opened FsSpec
  import Sets

  ghost predicate ReadAt(f: Fs, i: nat, off: nat, dst: seq<Byte>, k: nat)
    requires f.Shape() && i < |f.inodes|
  {
    k < |dst| ==> (off + k) / BSIZE < REACH && dst[k] == ByteOf(f, i, off + k)
  }

  /** The bytes are those of the file from off. */
  ghost predicate Reads(f: Fs, i: nat, off: nat, dst: seq<Byte>)
    requires f.Shape() && i < |f.inodes|
  {
    forall k :: ReadAt(f, i, off, dst, k)
  }

  /** A block below the size is there. */
  lemma Present(f: Fs, i: nat, at: nat)
    requires f.Valid() && i < |f.inodes| && at < f.inodes[i].size
    ensures at / BSIZE < REACH && 0 < f.Held(PlaceOf(i, at / BSIZE)) < |f.blocks|
  {
    BelowSize(at, f.inodes[i].size);
    assert f.FullAt(i, at / BSIZE) && f.HeldAt(PlaceOf(i, at / BSIZE));
  }

  lemma ContentsAt(f: Fs, i: nat, n: nat)
    requires f.Shape() && i < |f.inodes| && n < REACH && 0 < f.Held(PlaceOf(i, n)) < |f.blocks|
    ensures f.Contents(i, n) == BytesOf(f.blocks[f.Held(PlaceOf(i, n))])
  {
  }

  lemma ReadNone(f: Fs, i: nat, off: nat)
    requires f.Shape() && i < |f.inodes|
    ensures Reads(f, i, off, [])
  {
  }

  lemma ReadMore(f: Fs, i: nat, off: nat, dst: seq<Byte>, m: nat)
    requires f.Shape() && i < |f.inodes| && Reads(f, i, off, dst)
    requires var at := off + |dst|; at / BSIZE < REACH && at % BSIZE + m <= BSIZE
    ensures var at := off + |dst|;
            Reads(f, i, off, dst + f.Contents(i, at / BSIZE)[at % BSIZE..at % BSIZE + m])
  {
    hide Fs.Contents;
    var at := off + |dst|;
    var d := dst + f.Contents(i, at / BSIZE)[at % BSIZE..at % BSIZE + m];
    forall k: nat ensures ReadAt(f, i, off, d, k) {
      assert ReadAt(f, i, off, dst, k);
      if |dst| <= k < |d| {
        SameBlock(at, k - |dst|);
      }
    }
  }

  /** A byte of a file. */
  ghost function ByteOf(f: Fs, i: nat, k: nat): (b: Byte)
    requires f.Shape() && i < |f.inodes| && k / BSIZE < REACH
  {
    f.Contents(i, k / BSIZE)[k % BSIZE]
  }

  lemma SameBlock(at: nat, k: nat)
    requires at % BSIZE + k < BSIZE
    ensures (at + k) / BSIZE == at / BSIZE && (at + k) % BSIZE == at % BSIZE + k
  {
  }

  lemma BelowSize(at: nat, size: nat)
    requires at < size
    ensures at / BSIZE < Blocks(size)
  {
  }

  ghost predicate LeftAt(f: Fs, g: Fs, i: nat, o: Place)
    requires f.Shape() && g.Shape()
  {
    (f.Has(o) <==> g.Has(o)) && (f.Has(o) ==> g.Held(o) == f.Held(o) || (o.i == i && g.Held(o) == 0))
  }

  /** File i has lost blocks; nothing else has happened. */
  ghost predicate Truncating(f: Fs, g: Fs, i: nat) {
    && f.Shape() && g.Shape() && g.nmeta == f.nmeta && |g.inodes| == |f.inodes| && |g.bits| == |f.bits|
    && (forall o :: LeftAt(f, g, i, o))
    && (forall j: nat, n: nat :: j != i ==> f.SameAt(g, j, n))
    && (forall j :: 0 <= j < |f.inodes| ==> g.inodes[j].size == f.inodes[j].size || j == i)
  }

  lemma TruncatingFacts(f: Fs, g: Fs, i: nat)
    requires Truncating(f, g, i)
    ensures f.Shape() && g.Shape() && g.nmeta == f.nmeta && |g.inodes| == |f.inodes| && |g.bits| == |f.bits|
  {
  }

  lemma TruncatingSame(f: Fs, i: nat)
    requires f.Shape()
    ensures Truncating(f, f, i)
  {
  }

  lemma TruncatingMore(f: Fs, g: Fs, h: Fs, i: nat, o: Place)
    requires Truncating(f, g, i) && h.Shape() && h.nmeta == g.nmeta && |h.inodes| == |g.inodes| && |h.bits| == |g.bits|
    requires o.i == i && (forall p :: g.GainsAt(h, o, 0, p)) && forall j: nat, n: nat :: j != i ==> g.SameAt(h, j, n)
    requires forall j :: 0 <= j < |g.inodes| ==> h.inodes[j].size == g.inodes[j].size
    ensures Truncating(f, h, i)
  {
    forall p ensures LeftAt(f, h, i, p) {
      assert LeftAt(f, g, i, p) && g.GainsAt(h, o, 0, p);
    }
    forall j: nat, n: nat | j != i ensures f.SameAt(h, j, n) {
      assert f.SameAt(g, j, n) && g.SameAt(h, j, n);
    }
  }

  lemma TruncatingTwice(f: Fs, g: Fs, h: Fs, i: nat)
    requires Truncating(f, g, i) && Truncating(g, h, i)
    ensures Truncating(f, h, i)
  {
    forall p ensures LeftAt(f, h, i, p) {
      assert LeftAt(f, g, i, p) && LeftAt(g, h, i, p);
    }
    forall j: nat, n: nat | j != i ensures f.SameAt(h, j, n) {
      assert f.SameAt(g, j, n) && g.SameAt(h, j, n);
    }
  }

  /** g and f differ only in the indirect block of file i. */
  ghost predicate SameBut(g: Fs, f: Fs, i: nat) {
    && f.Shape() && g.Shape() && i < |f.inodes| && g.nmeta == f.nmeta && g.inodes == f.inodes && g.bits == f.bits
    && var t := f.inodes[i].addrs[NDIRECT];
       t < |f.blocks| && g.blocks == f.blocks[t := g.blocks[t]]
  }

  lemma Truncated(f: Fs, g: Fs, i: nat)
    requires Truncating(f, g, i) && i < |f.inodes| && f.Held(Top(i, NDIRECT)) != 0 && g.inodes == f.inodes
    ensures g.Held(Top(i, NDIRECT)) == f.Held(Top(i, NDIRECT))
  {
  }

  /** Once the indirect block itself is free, it does not matter that its addresses are still there. */
  lemma Abandoned(f: Fs, g: Fs, g1: Fs, h: Fs, i: nat, t: nat)
    requires SameBut(g, g.(blocks := h.blocks), i) && t == g.inodes[i].addrs[NDIRECT] && 0 < t < |g.blocks|
    requires g.Owned({}) && g1 == g.WithoutTop(i, NDIRECT) && g1.Owned({}) && Truncating(f, g1, i)
    requires forall p :: g.GainsAt(g1, Top(i, NDIRECT), 0, p)
    requires h == g1.(blocks := h.blocks)
    ensures h.Owned({}) && Truncating(f, h, i) && forall p :: g1.SameHeldAt(h, p)
  {
    forall o | g1.Has(o) ensures g1.Held(o) != t {
      assert g.GainsAt(g1, Top(i, NDIRECT), 0, o) && g.ApartAt(Top(i, NDIRECT), o);
    }
    g1.UnheldContent(t, h.blocks[t]);
    assert h.blocks == g1.blocks[t := h.blocks[t]];
    forall p ensures LeftAt(f, h, i, p) {
      assert LeftAt(f, g1, i, p) && g1.SameHeldAt(h, p);
    }
    forall j: nat, n: nat | j != i ensures f.SameAt(h, j, n) {
      assert f.SameAt(g1, j, n) && g1.SameAt(h, j, n);
    }
  }

  lemma Emptied(f: Fs, g: Fs, h: Fs, i: nat)
    requires f.Valid() && Truncating(f, g, i) && i < |f.inodes| && h.Owned({})
    requires h == g.(inodes := g.inodes[i := g.inodes[i].(size := 0)])
    requires (forall p :: g.SameHeldAt(h, p)) && g.SameFiles(h)
    ensures Truncating(f, h, i) && h.HoleFree()
  {
    forall p ensures LeftAt(f, h, i, p) {
      assert LeftAt(f, g, i, p) && g.SameHeldAt(h, p);
    }
    forall j: nat, n: nat ensures j != i ==> f.SameAt(h, j, n) {
      assert g.SameAt(h, j, n);
      assert j != i ==> f.SameAt(g, j, n);
    }
    forall j: nat, n: nat ensures h.FullAt(j, n) {
      assert f.FullAt(j, n) && LeftAt(f, h, i, PlaceOf(j, n));
    }
  }

  ghost predicate HeldBy(f: Fs, i: nat, b: nat)
    requires f.Shape()
  {
    exists o :: f.Has(o) && o.i == i && f.Held(o) == b
  }

  /** A block is free in g if it was free in f or held by file i. */
  ghost predicate FreedAt(f: Fs, g: Fs, i: nat, b: nat)
    requires f.Shape() && b < |g.bits| && b < |f.bits|
  {
    g.bits[b] <==> f.bits[b] && (b == 0 || !HeldBy(f, i, b))
  }

  lemma FreesExactly(f: Fs, g: Fs, i: nat, b: nat)
    requires f.Owned({}) && g.Owned({}) && Truncating(f, g, i) && b < |g.bits|
    requires forall o :: g.Has(o) && o.i == i ==> g.Held(o) == 0
    ensures FreedAt(f, g, i, b)
  {
    assert f.UsedAt(b, {}) && g.UsedAt(b, {});
    if b < f.nmeta {
      forall q | f.Has(q) && q.i == i && b != 0 ensures f.Held(q) != b {
        assert f.HeldAt(q);
      }
    } else {
      if p :| g.Has(p) && g.Held(p) == b {
        assert LeftAt(f, g, i, p) && f.HeldAt(p);
        forall q | f.Has(q) && q.i == i ensures f.Held(q) != b {
          assert f.ApartAt(q, p);
        }
      }
      if o :| f.Has(o) && f.Held(o) == b {
        assert LeftAt(f, g, i, o) && g.HeldAt(o);
      }
    }
  }

  lemma ExtendsKeeps(f: Fs, g: Fs)
    requires f.Extends(g)
    ensures |g.inodes| == |f.inodes| && forall p :: f.KeepsAt(g, p)
  {
  }

  /** Storing data changes no address. */
  lemma DataKeeps(f: Fs, g: Fs, h: Fs, i: nat)
    requires f.Shape() && g.Shape() && h.Shape() && (forall p :: f.KeepsAt(g, p)) && forall p :: g.SameHeldAt(h, p)
    requires i < |f.inodes| == |g.inodes| == |h.inodes|
    ensures (forall p :: f.KeepsAt(h, p)) && IndexBlock(h, i) == IndexBlock(g, i)
    ensures h.Held(Top(i, NDIRECT)) == g.Held(Top(i, NDIRECT))
  {
    forall p ensures f.KeepsAt(h, p) {
      assert f.KeepsAt(g, p) && g.SameHeldAt(h, p);
    }
    assert g.SameHeldAt(h, Top(i, NDIRECT));
  }

  /** A block beyond the direct ones has an indirect block. */
  lemma IndexThere(f: Fs, i: nat, bn: nat)
    requires f.Shape() && i < |f.inodes| && bn < REACH && f.Held(PlaceOf(i, bn)) != 0
    ensures bn >= NDIRECT ==> f.Held(Top(i, NDIRECT)) != 0
  {
  }

  lemma ExtendsHeld(f: Fs, g: Fs, o: Place)
    requires f.Extends(g) && f.Has(o)
    ensures g.Has(o) && |g.inodes| == |f.inodes| && (f.Held(o) != 0 ==> g.Held(o) == f.Held(o))
  {
    assert f.KeepsAt(g, o);
  }

  lemma ExtendsSame(fs: Fs)
    requires fs.Shape()
    ensures fs.Extends(fs)
  {
  }

  // ------------------------------------------------------------------
  // writei

  /** Byte k of file i after tot bytes of src were written at off. */
  ghost predicate PatchAt(f: Fs, g: Fs, i: nat, off: nat, src: seq<Byte>, tot: nat, k: nat)
    requires f.Shape() && g.Shape() && i < |f.inodes| && i < |g.inodes| && tot <= |src|
  {
    k / BSIZE < REACH ==> ByteOf(g, i, k) == if off <= k < off + tot then src[k - off] else ByteOf(f, i, k)
  }

  /** The blocks of file i that the write has reached are there. */
  ghost predicate FilledAt(g: Fs, i: nat, off: nat, tot: nat, n: nat)
    requires g.Shape() && i < |g.inodes|
  {
    tot > 0 && off / BSIZE <= n && n * BSIZE < off + tot ==> n < REACH && g.Held(PlaceOf(i, n)) != 0
  }

  /** tot bytes of src have been written to file i at off; nothing else has changed but for new blocks. */
  ghost predicate Writing(f: Fs, g: Fs, i: nat, off: nat, src: seq<Byte>, tot: nat) {
    && f.Shape() && g.Shape() && g.nmeta == f.nmeta && |g.bits| == |f.bits| && |g.inodes| == |f.inodes|
    && i < |f.inodes| && tot <= |src|
    && (forall j :: 0 <= j < |f.inodes| ==> g.inodes[j].size == f.inodes[j].size)
    && (forall p :: f.KeepsAt(g, p))
    && (forall j: nat, n: nat :: j != i ==> f.SameAt(g, j, n))
    && (forall k: nat :: PatchAt(f, g, i, off, src, tot, k))
    && (forall n: nat :: FilledAt(g, i, off, tot, n))
  }

  lemma WritingNone(f: Fs, i: nat, off: nat, src: seq<Byte>)
    requires f.Shape() && i < |f.inodes|
    ensures Writing(f, f, i, off, src, 0)
  {
    forall n: nat ensures FilledAt(f, i, off, 0, n) {
    }
  }

  /** New blocks on the way. */
  lemma WritingExtends(f: Fs, g: Fs, h: Fs, i: nat, off: nat, src: seq<Byte>, tot: nat)
    requires Writing(f, g, i, off, src, tot) && g.Extends(h)
    ensures Writing(f, h, i, off, src, tot)
  {
    forall p ensures f.KeepsAt(h, p) {
      assert f.KeepsAt(g, p) && g.KeepsAt(h, p);
    }
    forall j: nat, n: nat | j != i ensures f.SameAt(h, j, n) {
      assert f.SameAt(g, j, n) && g.SameAt(h, j, n);
    }
    forall k: nat ensures PatchAt(f, h, i, off, src, tot, k) {
      assert PatchAt(f, g, i, off, src, tot, k) && g.SameAt(h, i, k / BSIZE);
    }
    forall n: nat ensures FilledAt(h, i, off, tot, n) {
      assert FilledAt(g, i, off, tot, n) && g.KeepsAt(h, PlaceOf(i, n));
    }
  }

  /** m more bytes, all in the block that follows what has been written. */
  lemma WritingMore(f: Fs, g: Fs, h: Fs, i: nat, off: nat, src: seq<Byte>, tot: nat, to: nat)
    requires Writing(f, g, i, off, src, tot) && tot < to <= |src| && h.Shape()
    requires var at := off + tot; at % BSIZE + (to - tot) <= BSIZE && at / BSIZE < REACH
    requires h.nmeta == g.nmeta && h.bits == g.bits && h.inodes == g.inodes && forall p :: g.SameHeldAt(h, p)
    requires var at := off + tot;
             && h.Contents(i, at / BSIZE) == Spliced(g.Contents(i, at / BSIZE), at % BSIZE, src[tot..to])
             && (forall j: nat, n: nat :: (j, n) != (i, at / BSIZE) ==> g.SameAt(h, j, n))
             && g.Held(PlaceOf(i, at / BSIZE)) != 0
    ensures Writing(f, h, i, off, src, to)
  {
    forall p ensures f.KeepsAt(h, p) {
      assert f.KeepsAt(g, p) && g.SameHeldAt(h, p);
    }
    forall j: nat, n: nat | j != i ensures f.SameAt(h, j, n) {
      assert f.SameAt(g, j, n) && g.SameAt(h, j, n);
    }
    forall k: nat ensures PatchAt(f, h, i, off, src, to, k) {
      PatchMore(f, g, h, i, off, src, tot, to, k);
    }
    forall n: nat ensures FilledAt(h, i, off, to, n) {
      assert FilledAt(g, i, off, tot, n) && g.SameHeldAt(h, PlaceOf(i, n));
      LastBlock(off, tot, to, n);
    }
  }

  lemma LastBlock(off: nat, tot: nat, to: nat, n: nat)
    requires tot < to && (off + tot) % BSIZE + (to - tot) <= BSIZE
    ensures off / BSIZE <= n && n * BSIZE < off + to ==> (tot > 0 && n * BSIZE < off + tot) || n == (off + tot) / BSIZE
  {
  }

  lemma PatchMore(f: Fs, g: Fs, h: Fs, i: nat, off: nat, src: seq<Byte>, tot: nat, to: nat, k: nat)
    requires f.Shape() && g.Shape() && h.Shape() && i < |f.inodes| == |g.inodes| == |h.inodes| && tot < to <= |src|
    requires PatchAt(f, g, i, off, src, tot, k)
    requires var at := off + tot; at % BSIZE + (to - tot) <= BSIZE && at / BSIZE < REACH
    requires var at := off + tot;
             && h.Contents(i, at / BSIZE) == Spliced(g.Contents(i, at / BSIZE), at % BSIZE, src[tot..to])
             && forall j: nat, n: nat :: (j, n) != (i, at / BSIZE) ==> g.SameAt(h, j, n)
    ensures PatchAt(f, h, i, off, src, to, k)
  {
    hide Fs.Contents;
    var at := off + tot;
    if k / BSIZE < REACH {
      if k / BSIZE == at / BSIZE {
        assert k - at == k % BSIZE - at % BSIZE;
      } else {
        assert g.SameAt(h, i, k / BSIZE);
        Elsewhere(at, to - tot, k);
      }
    }
  }

  lemma Elsewhere(at: nat, m: nat, k: nat)
    requires at % BSIZE + m <= BSIZE && k / BSIZE != at / BSIZE
    ensures !(at <= k < at + m)
  {
  }

  /** The file is as long as the write reached, and has no hole. */
  lemma Written(f: Fs, g: Fs, h: Fs, i: nat, off: nat, src: seq<Byte>, tot: nat, to: nat, size: nat)
    requires f.Valid() && Writing(f, g, i, off, src, to) && tot <= to && off <= f.inodes[i].size && g.Owned({})
    requires size == if off + tot > f.inodes[i].size then off + tot else f.inodes[i].size
    requires h == g.(inodes := g.inodes[i := g.inodes[i].(size := size)]) && h.Shape()
    requires forall p :: g.SameHeldAt(h, p)
    ensures h.HoleFree()
  {
    forall j: nat, n: nat ensures h.FullAt(j, n) {
      assert f.FullAt(j, n) && f.KeepsAt(g, PlaceOf(j, n)) && g.SameHeldAt(h, PlaceOf(j, n));
      if j == i && Blocks(f.inodes[i].size) <= n < Blocks(size) {
        BeyondSize(off, f.inodes[i].size, size, n);
        assert FilledAt(g, i, off, to, n);
      }
    }
  }

  lemma BeyondSize(off: nat, size: nat, size': nat, n: nat)
    requires off <= size <= size' && Blocks(size) <= n < Blocks(size')
    ensures off / BSIZE <= n && n * BSIZE < size'
  {
    assert n * BSIZE >= size;
  }

  // ------------------------------------------------------------------
  // What a write logs

  /** The indirect block of file i, if it has one. */
  ghost function IndexBlock(f: Fs, i: nat): (s: set<nat>)
    requires f.Shape() && i < |f.inodes|
  {
    var t := f.Held(Top(i, NDIRECT));
    if t == 0 then {} else {t}
  }

  ghost function Present1(f: Fs, i: nat, bn: nat): (n: nat)
    requires f.Shape() && i < |f.inodes|
  {
    if bn < REACH && f.Held(PlaceOf(i, bn)) != 0 then 1 else 0
  }

  /**
   After `its` blocks of a write: its data blocks, and one bitmap block for
   each allocation.  The first block costs none if it was there, and the
   indirect block costs one if it is new.
   */
  ghost predicate Accounts(f: Fs, g: Fs, i: nat, off: nat, its: nat, data: set<nat>, bitmap: set<nat>)
    requires f.Shape() && g.Shape() && i < |f.inodes| && i < |g.inodes|
  {
    && |data| <= its && (its == 0 ==> bitmap == {})
    && |bitmap| <= its - (if its > 0 then Present1(f, i, off / BSIZE) else 0) + |IndexBlock(g, i)| - |IndexBlock(f, i)|
  }

  /** The blocks that a write of n bytes at off touches. */
  function Touched(off: nat, n: nat): (t: nat) {
    if n == 0 then 0 else (off + n - 1) / BSIZE - off / BSIZE + 1
  }

  /** A chunk of filewrite: (MAXOPBLOCKS-1-1-2)/2 blocks. */
  const CHUNK: nat := 3 * BSIZE
  /** What a chunk logs at most on a disk with one bitmap block. */
  const CHUNK_BLOCKS: nat := 7

  lemma TouchedByChunk(off: nat, n: nat)
    requires n <= CHUNK
    ensures Touched(off, n) <= 4 && (off % BSIZE == 0 ==> Touched(off, n) <= 3)
  {
  }

  lemma UnionSize(a: set<nat>, b: set<nat>)
    ensures |a + b| <= |a| + |b|
  {
    assert |a + b| + |a * b| == |a| + |b|;
  }

  /** A chunk logs at most MAXOPBLOCKS blocks, even if every allocation hits another bitmap block. */
  lemma ChunkFits(f: Fs, g: Fs, i: nat, off: nat, n: nat, its: nat, data: set<nat>, bitmap: set<nat>, logged: set<nat>,
                  inode: nat)
    requires f.Valid() && g.Shape() && i < |f.inodes| && i < |g.inodes| && off <= f.inodes[i].size && n <= CHUNK
    requires its <= Touched(off, n)
    requires Accounts(f, g, i, off, its, data, bitmap)
    requires logged <= data + bitmap + IndexBlock(g, i) + {inode}
    ensures |logged| <= MAXOPBLOCKS
  {
    TouchedByChunk(off, n);
    if off % BSIZE != 0 {
      assert f.FullAt(i, off / BSIZE);
      UnalignedBelow(off, f.inodes[i].size);
    }
    UnionSize(data, bitmap);
    UnionSize(data + bitmap, IndexBlock(g, i));
    UnionSize(data + bitmap + IndexBlock(g, i), {inode});
    Sets.SubsetSize(logged, data + bitmap + IndexBlock(g, i) + {inode});
  }

  lemma UnalignedBelow(off: nat, size: nat)
    requires off <= size && off % BSIZE != 0
    ensures off / BSIZE < Blocks(size)
  {
  }

  /** With a single bitmap block, as mkfs builds it, seven blocks are enough. */
  lemma ChunkFitsOneBitmap(f: Fs, g: Fs, i: nat, off: nat, n: nat, its: nat, data: set<nat>, bitmap: set<nat>,
                           logged: set<nat>, inode: nat)
    requires f.Shape() && g.Shape() && i < |f.inodes| && i < |g.inodes| && n <= CHUNK && its <= Touched(off, n)
    requires Accounts(f, g, i, off, its, data, bitmap) && |bitmap| <= 1
    requires logged <= data + bitmap + IndexBlock(g, i) + {inode}
    ensures |logged| <= CHUNK_BLOCKS
  {
    TouchedByChunk(off, n);
    UnionSize(data, bitmap);
    UnionSize(data + bitmap, IndexBlock(g, i));
    UnionSize(data + bitmap + IndexBlock(g, i), {inode});
    Sets.SubsetSize(logged, data + bitmap + IndexBlock(g, i) + {inode});
  }

  /**
   The first `to` bytes of src have been copied into file i at off, and its size
   covers the first `tot` of them; every other file is as it was.
   */
  ghost predicate Spills(f: Fs, h: Fs, i: nat, off: nat, src: seq<Byte>, tot: nat, to: nat) {
    && f.Shape() && h.Shape() && |h.inodes| == |f.inodes| && i < |f.inodes| && tot <= to <= |src|
    && (forall j :: 0 <= j < |f.inodes| && j != i ==> h.inodes[j].size == f.inodes[j].size)
    && h.inodes[i].size == (if off + tot > f.inodes[i].size then off + tot else f.inodes[i].size)
    && (forall j: nat, n: nat :: j != i ==> f.SameAt(h, j, n))
    && (forall k: nat :: PatchAt(f, h, i, off, src, to, k))
  }

  /** src has been spliced into file i at off; every other file is as it was. */
  ghost predicate Splices(f: Fs, h: Fs, i: nat, off: nat, src: seq<Byte>) {
    Spills(f, h, i, off, src, |src|, |src|)
  }

  lemma WritingSpills(f: Fs, g: Fs, h: Fs, i: nat, off: nat, src: seq<Byte>, tot: nat, to: nat)
    requires Writing(f, g, i, off, src, to) && h.Shape() && g.SameFiles(h) && tot <= to
    requires var size := if off + tot > g.inodes[i].size then off + tot else g.inodes[i].size;
             h == g.(inodes := g.inodes[i := g.inodes[i].(size := size)])
    ensures Spills(f, h, i, off, src, tot, to)
  {
    forall j: nat, n: nat | j != i ensures f.SameAt(h, j, n) {
      assert f.SameAt(g, j, n) && g.SameAt(h, j, n);
    }
    forall k: nat ensures PatchAt(f, h, i, off, src, to, k) {
      assert PatchAt(f, g, i, off, src, to, k) && g.SameAt(h, i, k / BSIZE);
    }
  }

  /** What a reader of file i gets for position p after the write. */
  ghost predicate BackAt(f: Fs, i: nat, off: nat, src: seq<Byte>, at: nat, dst: seq<Byte>, k: nat)
    requires f.Shape() && i < |f.inodes|
  {
    k < |dst| ==>
      && (at + k) / BSIZE < REACH
      && dst[k] == if off <= at + k < off + |src| then src[at + k - off] else ByteOf(f, i, at + k)
  }

  /** What is written can be read back, and around it what was there. */
  lemma ReadsBack(f: Fs, h: Fs, i: nat, off: nat, src: seq<Byte>, at: nat, dst: seq<Byte>)
    requires Splices(f, h, i, off, src) && Reads(h, i, at, dst)
    ensures forall k: nat :: BackAt(f, i, off, src, at, dst, k)
  {
    forall k: nat ensures BackAt(f, i, off, src, at, dst, k) {
      assert ReadAt(h, i, at, dst, k) && PatchAt(f, h, i, off, src, |src|, at + k);
    }
  }

  /** Reading any other file gives what it gave before. */
  lemma OthersReadTheSame(f: Fs, h: Fs, i: nat, off: nat, src: seq<Byte>, j: nat, at: nat, dst: seq<Byte>)
    requires Splices(f, h, i, off, src) && j < |f.inodes| && j != i
    ensures Reads(h, j, at, dst) <==> Reads(f, j, at, dst)
  {
    forall k: nat ensures ReadAt(h, j, at, dst, k) <==> ReadAt(f, j, at, dst, k) {
      assert f.SameAt(h, j, (at + k) / BSIZE);
    }
  }

  /** One more block of a write keeps the accounts. */
  lemma AccountsMore(f: Fs, g: Fs, h: Fs, i: nat, off: nat, its: nat, data: set<nat>, bitmap: set<nat>, addr: nat,
                     bm: set<nat>)
    requires f.Shape() && g.Shape() && h.Shape() && i < |f.inodes| == |g.inodes| == |h.inodes|
    requires Accounts(f, g, i, off, its, data, bitmap) && off / BSIZE + its < REACH
    requires (forall p :: g.KeepsAt(h, p)) && |bm| <= Missing(g, i, off / BSIZE + its)
    requires its == 0 ==> g == f
    requires off / BSIZE + its >= NDIRECT ==> h.Held(Top(i, NDIRECT)) != 0
    ensures Accounts(f, h, i, off, its + 1, data + {addr}, bitmap + bm)
  {
    UnionSize(data, {addr});
    UnionSize(bitmap, bm);
    assert g.KeepsAt(h, Top(i, NDIRECT));
  }

  /** How many blocks bmap must allocate. */
  ghost function Missing(fs: Fs, i: nat, bn: nat): (n: nat)
    requires fs.Shape() && i < |fs.inodes| && bn < REACH
  {
    (if fs.Held(PlaceOf(i, bn)) == 0 then 1 else 0) + if bn >= NDIRECT && fs.Held(Top(i, NDIRECT)) == 0 then 1 else 0
  }

  /** Where a write of len bytes stands after its blocks. */
  ghost predicate Paced(off: nat, len: nat, tot: nat, its: nat) {
    && tot <= len && (its == 0 <==> tot == 0)
    && (tot < len ==> (off + tot) / BSIZE == off / BSIZE + its && (its > 0 ==> (off + tot) % BSIZE == 0))
    && (tot == len ==> its == Touched(off, len))
  }

  lemma PacedMore(off: nat, len: nat, tot: nat, its: nat)
    requires Paced(off, len, tot, its) && tot < len
    ensures Paced(off, len, tot + Least(len - tot, BSIZE - (off + tot) % BSIZE), its + 1)
  {
    var at := off + tot;
    var m := Least(len - tot, BSIZE - at % BSIZE);
    if tot + m == len {
      SameBlock(at, m - 1);
    }
  }

  /** The bytes written before block number k of a write. */
  function Before(off: nat, k: nat): (tot: int) {
    if k == 0 then 0 else (off / BSIZE + k) * BSIZE - off
  }

  /** The bytes that go to the block at off + tot. */
  function Piece(off: nat, len: nat, tot: nat): (m: nat)
    requires tot <= len
    ensures m <= len - tot && (tot < len ==> m > 0) && (off + tot) % BSIZE + m <= BSIZE
  {
    Least(len - tot, BSIZE - (off + tot) % BSIZE)
  }

  lemma PacedBefore(off: nat, len: nat, tot: nat, its: nat)
    requires Paced(off, len, tot, its) && tot < len
    ensures tot == Before(off, its)
  {
  }

  lemma PacedLess(off: nat, len: nat, tot: nat, its: nat)
    requires Paced(off, len, tot, its) && tot < len
    ensures its < Touched(off, len)
  {
    DivOrdered(off + tot, off + len - 1);
  }

  lemma PacedNone(off: nat, len: nat)
    ensures Paced(off, len, 0, 0)
  {
  }

  lemma PacedHere(off: nat, len: nat, tot: nat, its: nat)
    requires Paced(off, len, tot, its) && tot < len
    ensures (off + tot) / BSIZE == off / BSIZE + its
  {
  }

  lemma PacedDone(off: nat, len: nat, its: nat)
    requires Paced(off, len, len, its)
    ensures its == Touched(off, len)
  {
  }

  lemma DivOrdered(a: nat, b: nat)
    requires a <= b
    ensures a / BSIZE <= b / BSIZE
  {
  }

  lemma AccountsNone(f: Fs, i: nat, off: nat)
    requires f.Shape() && i < |f.inodes|
    ensures Accounts(f, f, i, off, 0, {}, {})
  {
  }

  lemma IndexKept(g: Fs, h: Fs, i: nat)
    requires g.Shape() && h.Shape() && i < |g.inodes| == |h.inodes| && forall p :: g.KeepsAt(h, p)
    ensures IndexBlock(g, i) <= IndexBlock(h, i)
  {
    assert g.KeepsAt(h, Top(i, NDIRECT));
  }

  // ------------------------------------------------------------------
  // filewrite and mkfs

  /** One chunk after the other is one long write. */
  lemma SplicesTwice(f: Fs, g: Fs, h: Fs, i: nat, off: nat, a: seq<Byte>, b: seq<Byte>)
    requires Splices(f, g, i, off, a) && Splices(g, h, i, off + |a|, b)
    ensures Splices(f, h, i, off, a + b)
  {
    forall j: nat, n: nat | j != i ensures f.SameAt(h, j, n) {
      assert f.SameAt(g, j, n) && g.SameAt(h, j, n);
    }
    forall k: nat ensures PatchAt(f, h, i, off, a + b, |a + b|, k) {
      assert PatchAt(f, g, i, off, a, |a|, k) && PatchAt(g, h, i, off + |a|, b, |b|, k);
    }
  }

  /** The first done bytes of src have been written; none means that nothing has happened. */
  ghost predicate SplicedTo(f: Fs, g: Fs, i: nat, off: nat, src: seq<Byte>, done: nat) {
    && done <= |src| && i < |f.inodes|
    && if done == 0 then g == f else off <= f.inodes[i].size && Splices(f, g, i, off, src[..done])
  }

  lemma SplicedNone(f: Fs, i: nat, off: nat, src: seq<Byte>)
    requires i < |f.inodes|
    ensures SplicedTo(f, f, i, off, src, 0)
  {
  }

  lemma SplicedSize(f: Fs, g: Fs, i: nat, off: nat, src: seq<Byte>, done: nat)
    requires SplicedTo(f, g, i, off, src, done)
    ensures i < |g.inodes| && (off + done > g.inodes[i].size ==> off > f.inodes[i].size)
  {
  }

  lemma SplicedMore(f: Fs, g: Fs, h: Fs, i: nat, off: nat, src: seq<Byte>, done: nat, to: nat)
    requires SplicedTo(f, g, i, off, src, done) && done < to <= |src| && i < |g.inodes|
    requires off + done <= g.inodes[i].size
    requires Splices(g, h, i, off + done, src[done..to])
    ensures SplicedTo(f, h, i, off, src, to)
  {
    hide Splices;
    assert src[..done] + src[done..to] == src[..to];
    if done > 0 {
      SplicesTwice(f, g, h, i, off, src[..done], src[done..to]);
    }
  }

  /** An image with nothing but metadata. */
  lemma FreshValid(f: Fs)
    requires 0 < f.nmeta <= |f.bits| == |f.blocks|
    requires forall b :: 0 <= b < |f.bits| ==> (f.bits[b] <==> b < f.nmeta)
    requires forall j :: 0 <= j < |f.inodes| ==>
               && f.inodes[j].size == 0 && |f.inodes[j].addrs| == NDIRECT + 1
               && forall k :: 0 <= k <= NDIRECT ==> f.inodes[j].addrs[k] == 0
    ensures f.Valid()
  {
    forall o | f.Has(o) ensures f.Held(o) == 0 {
    }
    forall j: nat, n: nat ensures f.FullAt(j, n) {
    }
    forall o, p ensures f.HeldAt(o) && f.ApartAt(o, p) {
    }
    forall b: nat ensures f.UsedAt(b, {}) && f.ExtraAt(b, {}) {
    }
  }

  /**
   mkfs rounds the size of the root directory up to (off/BSIZE + 1) blocks.
   If the directory has no block beyond its entries, the image has no hole
   exactly when the entries do not end on a block boundary.
   */
  lemma RootSizeRounded(f: Fs, i: nat)
    requires f.Valid() && i < |f.inodes|
    requires Blocks(f.inodes[i].size) < REACH ==> f.Held(PlaceOf(i, Blocks(f.inodes[i].size))) == 0
    ensures var off := f.inodes[i].size;
            var h := f.(inodes := f.inodes[i := f.inodes[i].(size := (off / BSIZE + 1) * BSIZE)]);
            h.Shape() && (h.HoleFree() <==> off % BSIZE != 0)
  {
    var off := f.inodes[i].size;
    var h := f.(inodes := f.inodes[i := f.inodes[i].(size := (off / BSIZE + 1) * BSIZE)]);
    f.ResizeKeeps({}, i, (off / BSIZE + 1) * BSIZE);
    RoundedBlocks(off);
    if off % BSIZE != 0 {
      forall j: nat, n: nat ensures h.FullAt(j, n) {
        assert f.FullAt(j, n) && f.SameHeldAt(h, PlaceOf(j, n));
      }
    } else {
      assert Blocks(off) < REACH ==> f.SameHeldAt(h, PlaceOf(i, Blocks(off)));
      assert !h.FullAt(i, Blocks(off));
    }
  }

  lemma RoundedBlocks(off: nat)
    ensures Blocks((off / BSIZE + 1) * BSIZE) == off / BSIZE + 1
    ensures Blocks(off) == if off % BSIZE == 0 then off / BSIZE else off / BSIZE + 1
  {
  }
}
