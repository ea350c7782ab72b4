/**
 The block level of kernel/fs.c as it runs: balloc, bfree, bmap, itrunc, readi
 and writei, on one disk; kernel/file.c's chunks.
 `logged` collects the blocks passed to log_write.
 */
module FileBlocks {
  import opened Common
  import opened FsSpec
  import opened FileSpec
  import LogRuns
  import LogSpace
  import LogSpec
  import Mkfs
  import Sets

  const MAXFILE: nat := NDIRECT + NINDIRECT + NINDIRECT * NINDIRECT

  /** What readi is to read: nothing beyond the file, or beyond 32-bit offsets. */
  function Wanted(size: nat, off: nat, n: nat): (want: nat) {
    if off > size || off + n >= UINT_RANGE then 0 else Least(n, size - off)
  }

  /** What writei does: all the bytes or those of some blocks, a refusal, or one of the panics of balloc and bmap. */
  datatype Outcome = Wrote | Short(count: nat) | Refused | OutOfBlocks | OutOfRange

  /** The copy from the source gets no further than this in block number turn, counting from 0. */
  datatype Fault = Fault(turn: nat, copied: nat)

  /** The copy fails before the write is complete. */
  predicate Fails(off: nat, len: nat, fault: Fault) {
    && fault.turn < Touched(off, len)
    && 0 <= Before(off, fault.turn) < len && fault.copied < Piece(off, len, Before(off, fault.turn))
  }

  /** One turn of writei's loop: where it stands, how much it moves, and whether the copy fails in it. */
  lemma Turn(off: nat, len: nat, tot: nat, its: nat, fault: Fault)
    requires Paced(off, len, tot, its) && tot < len
    ensures var m := Piece(off, len, tot);
            && 0 < m <= len - tot && (off + tot + m - 1) / BSIZE == (off + tot) / BSIZE == off / BSIZE + its
            && Paced(off, len, tot + m, its + 1)
            && (its == fault.turn ==> tot == Before(off, its) && (Fails(off, len, fault) <==> fault.copied < m))
  {
    hide Paced, Touched, Before;
    PacedBefore(off, len, tot, its);
    PacedLess(off, len, tot, its);
    PacedHere(off, len, tot, its);
    PacedMore(off, len, tot, its);
    SameBlock(off + tot, Piece(off, len, tot) - 1);
  }

  lemma PastFault(off: nat, len: nat, fault: Fault)
    ensures Touched(off, len) <= fault.turn ==> !Fails(off, len, fault)
  {
    hide Touched;
  }

  /** The bytes that writei reports and covers by the size, and those it copied. */
  function Counted(r: Outcome, len: nat): (tot: nat) { if r.Short? then r.count else len }
  function Copied(r: Outcome, len: nat, fault: Fault): (to: nat) { if r.Short? then r.count + fault.copied else len }
  function Turns(r: Outcome, off: nat, len: nat, fault: Fault): (its: nat) {
    if r.Short? then fault.turn + 1 else Touched(off, len)
  }

  ghost predicate Within(s: set<nat>, lo: nat, hi: nat) { forall b :: b in s ==> lo <= b < hi }

  lemma WithinMore(s: set<nat>, b: nat, lo: nat, hi: nat)
    ensures Within({}, lo, hi) && (Within(s, lo, hi) && lo <= b < hi ==> Within(s + {b}, lo, hi))
  {
  }

  class FileSystem {
    const nmeta: nat
    const inodestart: nat
    const bmapstart: nat
    var bits: seq<bool>
    var blocks: seq<Content>
    var inodes: seq<Inode>
    ghost var logged: set<nat>

    ghost function S(): (fs: Fs)
      reads this
    {
      Fs(nmeta, bits, blocks, inodes)
    }

    /** The bitmap block for b, and the inode block for i. */
    function BBlock(b: nat): (r: nat) { b / BPB + bmapstart }
    function IBlock(i: nat): (r: nat) { i / IPB + inodestart }

    ghost predicate IsData(b: nat)
      reads this
    {
      nmeta <= b < |bits|
    }

    /** A block that a write to file i may log on a disk with a single bitmap block. */
    ghost predicate MayLog(i: nat, b: nat)
      reads this
    {
      b == IBlock(i) || b == bmapstart || IsData(b)
    }

    /** The inodes, the bitmap and the data are behind the log of the layout. */
    ghost predicate LaidOut(l: LogSpec.Layout)
      reads this
    {
      && l.start + l.size <= inodestart && IBlock(|inodes|) < l.nblocks
      && l.start + l.size <= bmapstart < l.nblocks && l.start + l.size <= nmeta && |bits| <= l.nblocks
    }

    /** A disk with a single bitmap block has none but that. */
    ghost predicate OneBitmap(bm: set<nat>)
      reads this
    {
      |bits| <= BPB ==> bm <= {bmapstart}
    }

    /** Where g differs from f at block b, logs has its bitmap block, and the block itself unless it is spared. */
    ghost predicate LogsAt(f: Fs, g: Fs, logs: set<nat>, spared: set<nat>, b: nat) {
      && (b < |f.bits| && b < |g.bits| && g.bits[b] != f.bits[b] ==> BBlock(b) in logs)
      && (b < |f.blocks| && b < |g.blocks| && g.blocks[b] != f.blocks[b] ==> b in logs || b in spared)
    }

    /** Every bit and every block that changed from f to g is logged, but for those spared; no inode but i changed. */
    ghost predicate Logs(f: Fs, g: Fs, i: nat, logs: set<nat>, spared: set<nat>) {
      && |g.bits| == |f.bits| && |g.blocks| == |f.blocks| && |g.inodes| == |f.inodes|
      && (forall j :: 0 <= j < |f.inodes| && j != i ==> g.inodes[j] == f.inodes[j])
      && forall b: nat :: LogsAt(f, g, logs, spared, b)
    }

    lemma LogsSame(f: Fs, i: nat, logs: set<nat>)
      ensures Logs(f, f, i, logs, {})
    {
    }

    /** A change of inode i alone is no change of a block. */
    lemma InodeLogs(f: Fs, g: Fs, i: nat, logs: set<nat>)
      requires i < |f.inodes| == |g.inodes| && g == f.(inodes := f.inodes[i := g.inodes[i]])
      ensures Logs(f, g, i, logs, {})
    {
    }

    /** A change of block b alone is logged or spared with b. */
    lemma BlockLogs(f: Fs, g: Fs, i: nat, b: nat, logs: set<nat>, spared: set<nat>)
      requires b < |f.blocks| == |g.blocks| && g == f.(blocks := f.blocks[b := g.blocks[b]])
      requires b in logs || b in spared
      ensures Logs(f, g, i, logs, spared)
    {
    }

    lemma LogsSized(f: Fs, g: Fs, h: Fs, i: nat, logs: set<nat>, logs': set<nat>, spared: set<nat>)
      requires Logs(f, g, i, logs, spared) && logs <= logs'
      requires i < |g.inodes| == |h.inodes| && h == g.(inodes := g.inodes[i := h.inodes[i]])
      ensures Logs(f, h, i, logs', spared)
    {
      forall b: nat ensures LogsAt(f, h, logs', spared, b) {
        assert LogsAt(f, g, logs, spared, b);
      }
    }

    lemma LogsMore(f: Fs, g: Fs, h: Fs, i: nat, logs: set<nat>, logs': set<nat>, spared: set<nat>)
      requires Logs(f, g, i, logs, {}) && Logs(g, h, i, logs', spared) && logs <= logs'
      ensures Logs(f, h, i, logs', spared)
    {
      forall b: nat ensures LogsAt(f, h, logs', spared, b) {
        assert LogsAt(f, g, logs, {}, b) && LogsAt(g, h, logs', spared, b);
      }
    }

    /** balloc: the first free block, marked and zeroed; 0 stands for the panic when there is none. */
    method Balloc() returns (b: nat)
      requires S().Shape() && S().Owned({})
      modifies `bits, `blocks, `logged
      ensures if b == 0 then S() == old(S()) && logged == old(logged) && false !in bits
              else
                && b < |old(bits)| && !old(bits)[b] && false !in old(bits)[..b] && S() == old(S()).Allocated(b)
                && logged == old(logged) + {BBlock(b), b}
    {
      b := 0;
      while b < |bits|
        invariant S() == old(S()) && logged == old(logged) && forall c :: 0 <= c < b && c < |bits| ==> bits[c]
        decreases |bits| - b
      {
        var bi := 0;
        while bi < BPB && b + bi < |bits|
          invariant 0 <= bi <= BPB && S() == old(S()) && logged == old(logged)
          invariant forall c :: 0 <= c < b + bi && c < |bits| ==> bits[c]
        {
          if !bits[b + bi] {
            bits := bits[b + bi := true];
            logged := logged + {BBlock(b + bi)};
            blocks := blocks[b + bi := Zero];
            logged := logged + {b + bi};
            assert b + bi != 0 by {
              assert old(bits)[0];
            }
            return b + bi;
          }
          bi := bi + 1;
        }
        b := b + BPB;
      }
      b := 0;
    }

    /**
     bmap: the address of a block of a file, allocated if need be.  No file's
     contents change.  0 stands for balloc's panic.
     */
    method Bmap(i: nat, bn: nat) returns (addr: nat, ghost bm: set<nat>)
      requires S().Owned({}) && i < |inodes| && bn < REACH
      modifies `bits, `blocks, `inodes, `logged
      ensures S().Owned({}) && old(S()).Extends(S()) && addr == S().Held(PlaceOf(i, bn))
      ensures old(S()).Held(PlaceOf(i, bn)) != 0 ==>
                addr == old(S()).Held(PlaceOf(i, bn)) && S() == old(S()) && logged == old(logged)
      ensures addr == 0 ==> false !in bits
      ensures addr != 0 ==> logged <= old(logged) + {addr} + IndexBlock(S(), i) + bm && |bm| <= Missing(old(S()), i, bn)
      ensures OneBitmap(bm) && |bits| == |old(bits)|
      ensures old(logged) <= logged && Logs(old(S()), S(), i, logged, {})
      ensures addr != 0 && old(S()).Held(PlaceOf(i, bn)) == 0 ==> addr in logged
    {
      hide Fs.Extends, Logs;
      ExtendsSame(S());
      LogsSame(S(), i, logged);
      if bn >= NDIRECT {
        addr, bm := BmapIndirect(i, bn - NDIRECT);
      } else {
        bm := {};
        addr := inodes[i].addrs[bn];
        if addr == 0 {
          addr, bm := BmapTop(i, bn);
        }
      }
    }

    /** The part of bmap beyond the direct blocks. */
    method BmapIndirect(i: nat, n: nat) returns (addr: nat, ghost bm: set<nat>)
      requires S().Owned({}) && i < |inodes| && n < NINDIRECT
      modifies `bits, `blocks, `inodes, `logged
      ensures S().Owned({}) && old(S()).Extends(S()) && addr == S().Held(Far(i, n))
      ensures old(S()).Held(Far(i, n)) != 0 ==> S() == old(S()) && logged == old(logged)
      ensures addr == 0 ==> false !in bits
      ensures addr != 0 ==>
                logged <= old(logged) + {addr} + IndexBlock(S(), i) + bm && |bm| <= Missing(old(S()), i, NDIRECT + n)
      ensures OneBitmap(bm) && |bits| == |old(bits)|
      ensures old(logged) <= logged && Logs(old(S()), S(), i, logged, {})
      ensures addr != 0 && old(S()).Held(Far(i, n)) == 0 ==> addr in logged
    {
      hide Fs.Extends, Logs;
      ghost var f0 := S();
      ExtendsSame(f0);
      LogsSame(f0, i, logged);
      bm := {};
      addr := inodes[i].addrs[NDIRECT];
      if addr == 0 {
        addr, bm := BmapTop(i, NDIRECT);
        if addr == 0 {
          return;
        }
      }
      assert S().HeldAt(Top(i, NDIRECT));
      ghost var f1, l1 := S(), logged;
      ExtendsHeld(f0, f1, Far(i, n));
      ghost var more;
      addr, more := BmapFar(i, n);
      LogsMore(f0, f1, S(), i, l1, logged, {});
      f0.ExtendsTwice(f1, S());
      ExtendsHeld(f1, S(), Top(i, NDIRECT));
      bm := bm + more;
    }

    /** An empty place in an inode is filled. */
    method BmapTop(i: nat, n: nat) returns (addr: nat, ghost bm: set<nat>)
      requires S().Owned({}) && i < |inodes| && n <= NDIRECT && S().Held(Top(i, n)) == 0
      modifies `bits, `blocks, `inodes, `logged
      ensures S().Owned({}) && old(S()).Extends(S()) && addr == S().Held(Top(i, n))
      ensures addr == 0 ==> S() == old(S()) && false !in bits && bm == {}
      ensures addr != 0 ==>
                logged == old(logged) + {addr} + bm && |bm| <= 1 && addr < |blocks| && blocks[addr] == Zero
      ensures OneBitmap(bm) && |bits| == |old(bits)|
      ensures old(logged) <= logged && Logs(old(S()), S(), i, logged, {})
    {
      ExtendsSame(S());
      ghost var f0 := S();
      addr := Balloc();
      bm := {};
      if addr != 0 {
        f0.AllocTop(i, n, addr);
        inodes := inodes[i := inodes[i].(addrs := inodes[i].addrs[n := addr])];
        bm := {BBlock(addr)};
        assert S() == f0.Allocated(addr).WithTop(i, n, addr);
      }
    }

    /** A place in the indirect block, filled if it is empty. */
    method BmapFar(i: nat, n: nat) returns (addr: nat, ghost bm: set<nat>)
      requires S().Owned({}) && i < |inodes| && n < NINDIRECT && 0 < S().Held(Top(i, NDIRECT)) < |blocks|
      modifies `bits, `blocks, `logged
      ensures S().Owned({}) && old(S()).Extends(S()) && addr == S().Held(Far(i, n)) && inodes == old(inodes)
      ensures addr == 0 ==> S() == old(S()) && false !in bits && bm == {}
      ensures old(S()).Held(Far(i, n)) != 0 ==> S() == old(S()) && logged == old(logged) && bm == {}
      ensures addr != 0 ==> logged <= old(logged) + {addr} + IndexBlock(S(), i) + bm && |bm| <= 1
      ensures OneBitmap(bm) && |bits| == |old(bits)|
      ensures old(logged) <= logged && Logs(old(S()), S(), i, logged, {})
      ensures addr != 0 && old(S()).Held(Far(i, n)) == 0 ==> addr in logged
    {
      ExtendsSame(S());
      ghost var f0 := S();
      bm := {};
      var t := inodes[i].addrs[NDIRECT];
      addr := AddrsOf(blocks[t])[n];
      if addr == 0 {
        addr := Balloc();
        if addr != 0 {
          f0.AllocFar(i, n, addr);
          blocks := blocks[t := Index(AddrsOf(blocks[t])[n := addr])];
          logged := logged + {t};
          bm := {BBlock(addr)};
          assert S() == f0.Allocated(addr).WithFar(i, n, addr);
        }
      }
    }

    // ----------------------------------------------------------------
    // itrunc

    /** bfree of a block in use; its panic on a free block is the precondition. */
    method Bfree(b: nat)
      requires b < |bits| && bits[b]
      modifies `bits, `logged
      ensures bits == old(bits)[b := false] && logged == old(logged) + {BBlock(b)}
    {
      bits := bits[b := false];
      logged := logged + {BBlock(b)};
    }

    /** What itrunc has logged: every change of a bit, and nothing but bitmap blocks. */
    ghost predicate TruncLogs(f: Fs, g: Fs, i: nat, logs: set<nat>, logs': set<nat>) {
      && logs <= logs' && Logs(f, g, i, logs', {})
      && (|f.bits| <= BPB ==> logs' <= logs + {bmapstart})
    }

    lemma TruncLogsSame(f: Fs, i: nat, logs: set<nat>)
      ensures TruncLogs(f, f, i, logs, logs)
    {
    }

    lemma TruncLogsMore(f: Fs, g: Fs, h: Fs, i: nat, logs: set<nat>, logs': set<nat>, b: nat)
      requires TruncLogs(f, g, i, logs, logs') && b < |g.bits| && h.bits == g.bits[b := false] && h.blocks == g.blocks
      requires |h.inodes| == |g.inodes| && forall j :: 0 <= j < |g.inodes| && j != i ==> h.inodes[j] == g.inodes[j]
      ensures TruncLogs(f, h, i, logs, logs' + {BBlock(b)})
    {
      LogsMore(f, g, h, i, logs', logs' + {BBlock(b)}, {});
    }

    lemma TruncLogsTwice(f: Fs, g: Fs, h: Fs, i: nat, l0: set<nat>, l1: set<nat>, l2: set<nat>)
      requires TruncLogs(f, g, i, l0, l1) && TruncLogs(g, h, i, l1, l2)
      ensures TruncLogs(f, h, i, l0, l2)
    {
      LogsMore(f, g, h, i, l1, l2, {});
    }

    /** The direct blocks of itrunc. */
    method TruncDirect(i: nat)
      requires S().Owned({}) && i < |inodes|
      modifies `bits, `inodes, `logged
      ensures S().Owned({}) && Truncating(old(S()), S(), i) && blocks == old(blocks)
      ensures forall k: nat :: k < NDIRECT ==> S().Held(Top(i, k)) == 0
      ensures TruncLogs(old(S()), S(), i, old(logged), logged)
    {
      hide TruncLogs;
      ghost var f0 := S();
      TruncatingSame(f0, i);
      TruncLogsSame(f0, i, logged);
      var n := 0;
      while n < NDIRECT
        invariant 0 <= n <= NDIRECT && S().Owned({}) && Truncating(f0, S(), i) && blocks == old(blocks)
        invariant forall k: nat :: k < n ==> S().Held(Top(i, k)) == 0
        invariant TruncLogs(f0, S(), i, old(logged), logged)
      {
        ghost var f1, l1 := S(), logged;
        if inodes[i].addrs[n] != 0 {
          f1.WithoutTopKeeps(i, n);
          Bfree(inodes[i].addrs[n]);
          inodes := inodes[i := inodes[i].(addrs := inodes[i].addrs[n := 0])];
          assert S() == f1.WithoutTop(i, n);
          TruncatingMore(f0, f1, S(), i, Top(i, n));
          TruncLogsMore(f0, f1, S(), i, old(logged), l1, f1.inodes[i].addrs[n]);
        }
        n := n + 1;
      }
    }

    /** The indirect blocks of itrunc; g is as if their addresses were cleared. */
    method TruncIndirect(i: nat) returns (ghost g: Fs)
      requires S().Owned({}) && i < |inodes| && S().Held(Top(i, NDIRECT)) != 0
      modifies `bits, `logged
      ensures g.Owned({}) && Truncating(old(S()), g, i) && SameBut(g, S(), i)
      ensures forall k: nat :: k < NINDIRECT ==> g.Held(Far(i, k)) == 0
      ensures TruncLogs(old(S()), S(), i, old(logged), logged)
    {
      hide TruncLogs;
      ghost var f0 := S();
      TruncatingSame(f0, i);
      TruncLogsSame(f0, i, logged);
      g := f0;
      assert f0.HeldAt(Top(i, NDIRECT));
      var t := inodes[i].addrs[NDIRECT];
      var a := AddrsOf(blocks[t]);
      var j := 0;
      while j < NINDIRECT
        invariant 0 <= j <= NINDIRECT && g.Owned({}) && Truncating(f0, g, i) && SameBut(g, S(), i)
        invariant forall k: nat :: k < NINDIRECT ==> g.Held(Far(i, k)) == if k < j then 0 else a[k]
        invariant TruncLogs(f0, S(), i, old(logged), logged)
      {
        if a[j] != 0 {
          ghost var f1, l1 := S(), logged;
          g.WithoutFarKeeps(i, j);
          ghost var g1 := g;
          Bfree(a[j]);
          TruncLogsMore(f0, f1, S(), i, old(logged), l1, a[j]);
          g := g1.WithoutFar(i, j);
          TruncatingMore(f0, g1, g, i, Far(i, j));
          forall k: nat | k < NINDIRECT ensures g.Held(Far(i, k)) == if k < j + 1 then 0 else a[k] {
            assert g1.GainsAt(g, Far(i, j), 0, Far(i, k));
          }
        }
        j := j + 1;
      }
    }

    /** itrunc: frees exactly the blocks of file i; the other files are untouched. */
    method Itrunc(i: nat)
      requires S().Valid() && i < |inodes|
      modifies `bits, `inodes, `logged
      ensures S().Valid() && Truncating(old(S()), S(), i) && inodes[i].size == 0
      ensures forall o :: S().Has(o) && o.i == i ==> S().Held(o) == 0
      ensures forall b: nat :: b < |bits| ==> FreedAt(old(S()), S(), i, b)
      ensures Logs(old(S()), S(), i, logged, {}) && old(logged) + {IBlock(i)} <= logged
      ensures |bits| <= BPB ==> logged <= old(logged) + {bmapstart, IBlock(i)}
    {
      hide FreedAt, Fs.Held, Truncating, Logs;
      ghost var f0 := S();
      TruncDirect(i);
      TruncatingFacts(f0, S(), i);
      DropIndirect(i, f0, old(logged));
      ghost var f2, l2 := S(), logged;
      TruncatingFacts(f0, f2, i);
      f2.ResizeKeeps({}, i, 0);
      inodes := inodes[i := inodes[i].(size := 0)];
      logged := logged + {IBlock(i)};
      assert S() == f2.(inodes := f2.inodes[i := f2.inodes[i].(size := 0)]);
      InodeLogs(f2, S(), i, logged);
      LogsMore(f0, f2, S(), i, l2, logged, {});
      Emptied(f0, f2, S(), i);
      forall o | S().Has(o) && o.i == i ensures S().Held(o) == 0 {
        assert f2.SameHeldAt(S(), o);
      }
      forall b: nat | b < |bits| ensures FreedAt(f0, S(), i, b) {
        FreesExactly(f0, S(), i, b);
      }
    }

    /** The part of itrunc for the indirect block, if the file has one. */
    method DropIndirect(i: nat, ghost f0: Fs, ghost l0: set<nat>)
      requires S().Owned({}) && i < |inodes| && Truncating(f0, S(), i) && TruncLogs(f0, S(), i, l0, logged)
      requires forall k: nat :: k < NDIRECT ==> S().Held(Top(i, k)) == 0
      modifies `bits, `inodes, `logged
      ensures S().Owned({}) && Truncating(f0, S(), i) && TruncLogs(f0, S(), i, l0, logged)
      ensures forall o :: S().Has(o) && o.i == i ==> S().Held(o) == 0
    {
      hide TruncLogs;
      ghost var f1, l1 := S(), logged;
      if inodes[i].addrs[NDIRECT] != 0 {
        var t := inodes[i].addrs[NDIRECT];
        ghost var g := TruncIndirect(i);
        TruncLogsTwice(f0, f1, S(), i, l0, l1, logged);
        ghost var f2, l2 := S(), logged;
        TruncatingTwice(f0, f1, g, i);
        Truncated(f1, g, i);
        g.WithoutTopKeeps(i, NDIRECT);
        ghost var g1 := g.WithoutTop(i, NDIRECT);
        Bfree(t);
        inodes := inodes[i := inodes[i].(addrs := inodes[i].addrs[NDIRECT := 0])];
        TruncLogsMore(f0, f2, S(), i, l0, l2, t);
        TruncatingMore(f0, g, g1, i, Top(i, NDIRECT));
        Abandoned(f0, g, g1, S(), i, t);
      }
    }

    // ----------------------------------------------------------------
    // readi and writei

    /**
     readi: the bytes of the file from off, as far as it goes.  It never
     allocates.  The copy of block number fault, counting from 0, fails; the
     result is then -1 and what was copied before stays copied.
     */
    method Readi(i: nat, off: nat, n: nat, fault: nat) returns (r: int, dst: seq<Byte>)
      requires S().Valid() && i < |inodes| && off < UINT_RANGE && n < UINT_RANGE
      modifies `bits, `blocks, `inodes, `logged
      ensures S() == old(S()) && logged == old(logged)
      ensures var want := Wanted(inodes[i].size, off, n);
              if fault < Touched(off, want) then r == -1 else r == |dst| == want
      ensures Reads(S(), i, off, dst)
    {
      hide Fs.Extends, Fs.HoleFree, Reads, BytesOf, Paced, Touched;
      ReadNone(S(), i, off);
      dst := [];
      if off > inodes[i].size || off + n >= UINT_RANGE {
        PacedNone(off, 0);
        PacedDone(off, 0, 0);
        return 0, dst;
      }
      var want := Least(n, inodes[i].size - off);
      var turn := 0;
      PacedNone(off, want);
      ghost var f := S();
      while |dst| < want
        invariant |dst| <= want && S() == f && logged == old(logged) && Reads(f, i, off, dst)
        invariant turn <= fault && Paced(off, want, |dst|, turn)
        decreases want - |dst|
      {
        var at := off + |dst|;
        Present(f, i, at);
        var addr;
        ghost var bm;
        addr, bm := Bmap(i, at / BSIZE);
        ContentsAt(f, i, at / BSIZE);
        var m := Least(want - |dst|, BSIZE - at % BSIZE);
        var page := BytesOf(blocks[addr]);
        PacedMore(off, want, |dst|, turn);
        if turn == fault {
          PacedLess(off, want, |dst|, turn);
          return -1, dst;
        }
        ReadMore(f, i, off, dst, m);
        dst := dst + page[at % BSIZE..at % BSIZE + m];
        turn := turn + 1;
      }
      PacedDone(off, want, turn);
      r := |dst|;
    }

    /** One block of writei: as many of its bytes as can be copied, and logged if that is all of them. */
    method WriteBlock(i: nat, off: nat, src: seq<Byte>, tot: nat, copied: nat, ghost f: Fs)
        returns (to: nat, addr: nat, ghost bm: set<nat>)
      requires S().Owned({}) && i < |inodes| && tot < |src| && (off + tot) / BSIZE < REACH
      requires Writing(f, S(), i, off, src, tot)
      modifies `bits, `blocks, `inodes, `logged
      ensures S().Owned({}) && S().Shape() && |inodes| == |old(inodes)| && (forall p :: old(S()).KeepsAt(S(), p))
      ensures addr == 0 ==> false !in bits
      ensures addr != 0 ==>
                && tot <= to == tot + Least(copied, Piece(off, |src|, tot)) && Writing(f, S(), i, off, src, to)
                && logged <= old(logged) + {addr} + IndexBlock(S(), i) + bm
                && |bm| <= Missing(old(S()), i, (off + tot) / BSIZE)
                && ((off + tot) / BSIZE >= NDIRECT ==> S().Held(Top(i, NDIRECT)) != 0) && IsData(addr)
      ensures OneBitmap(bm) && |bits| == |old(bits)|
      ensures addr != 0 ==>
                && addr == S().Held(PlaceOf(i, (off + tot) / BSIZE)) && old(logged) <= logged
                && Logs(old(S()), S(), i, logged, if copied < Piece(off, |src|, tot) then {addr} else {})
                && (copied < Piece(off, |src|, tot) && old(S()).Held(PlaceOf(i, (off + tot) / BSIZE)) != 0 ==>
                      logged == old(logged))
    {
      hide Writing, Fs.Extends, IndexBlock, Fs.Contents, BytesOf, Missing, Logs;
      var at := off + tot;
      ghost var f0 := S();
      addr, bm := Bmap(i, at / BSIZE);
      ghost var f1, l1 := S(), logged;
      ExtendsKeeps(f0, f1);
      if addr == 0 {
        return 0, 0, {};
      }
      assert f1.HeldAt(PlaceOf(i, at / BSIZE));
      IndexThere(f1, i, at / BSIZE);
      WritingExtends(f, f0, f1, i, off, src, tot);
      var m := Piece(off, |src|, tot);
      to := tot + Least(copied, m);
      if to > tot {
        CopyIn(i, off, src, tot, to, addr, f);
        DataKeeps(f0, f1, S(), i);
      }
      if copied >= m {
        logged := logged + {addr};
      }
      BlockLogs(f1, S(), i, addr, logged, if copied < m then {addr} else {});
      LogsMore(f0, f1, S(), i, l1, logged, if copied < m then {addr} else {});
    }

    /** Bytes of src go to the block at addr, which holds them at their place in the file. */
    method CopyIn(i: nat, off: nat, src: seq<Byte>, tot: nat, to: nat, addr: nat, ghost f: Fs)
      requires S().Owned({}) && i < |inodes| && tot < to <= |src| && (off + tot) / BSIZE < REACH
      requires Writing(f, S(), i, off, src, tot) && (off + tot) % BSIZE + (to - tot) <= BSIZE
      requires addr == S().Held(PlaceOf(i, (off + tot) / BSIZE)) && addr != 0
      modifies `blocks
      ensures S().Owned({}) && Writing(f, S(), i, off, src, to) && forall p :: old(S()).SameHeldAt(S(), p)
      ensures addr < |old(blocks)| == |blocks| && blocks == old(blocks)[addr := blocks[addr]]
    {
      hide Writing, Fs.Contents, BytesOf;
      var at := off + tot;
      ghost var f1 := S();
      assert f1.HeldAt(PlaceOf(i, at / BSIZE));
      var page := Spliced(BytesOf(blocks[addr]), at % BSIZE, src[tot..to]);
      ContentsAt(f1, i, at / BSIZE);
      f1.WithDataKeeps({}, i, at / BSIZE, page);
      blocks := blocks[addr := Data(page)];
      assert S() == f1.WithData(addr, page);
      WritingMore(f, f1, S(), i, off, src, tot, to);
    }

    /** The block in which the copy failed: what was copied into it is not logged. */
    ghost function Spared(r: Outcome, i: nat, off: nat, fault: Fault): (s: set<nat>)
      requires S().Shape() && i < |inodes|
      reads this
    {
      var bn := off / BSIZE + fault.turn;
      if r.Short? && bn < REACH then {S().Held(PlaceOf(i, bn))} else {}
    }

    /** The loop of writei. */
    method WriteBlocks(i: nat, off: nat, src: seq<Byte>, fault: Fault)
        returns (r: Outcome, ghost data: set<nat>, ghost bitmap: set<nat>)
      requires S().Shape() && S().Owned({}) && i < |inodes|
      modifies `bits, `blocks, `inodes, `logged
      ensures !r.Refused? && S().Owned({})
      ensures r.OutOfBlocks? ==> false !in bits
      ensures r.OutOfRange? ==> src != [] && (off + |src| - 1) / BSIZE >= REACH
      ensures r.Short? ==> Fails(off, |src|, fault) && r.count == Before(off, fault.turn)
      ensures r.Wrote? ==> !Fails(off, |src|, fault) && (src != [] ==> (off + |src| - 1) / BSIZE < REACH)
      ensures r.Wrote? || r.Short? ==>
                && Counted(r, |src|) <= Copied(r, |src|, fault) <= |src|
                && Writing(old(S()), S(), i, off, src, Copied(r, |src|, fault))
                && Accounts(old(S()), S(), i, off, Turns(r, off, |src|, fault), data, bitmap)
                && logged <= old(logged) + data + bitmap + IndexBlock(S(), i)
                && old(logged) <= logged && Logs(old(S()), S(), i, logged, Spared(r, i, off, fault))
      ensures OneBitmap(bitmap) && |bits| == |old(bits)| && Within(data, nmeta, |bits|)
    {
      hide Writing, Fs.Owned, Fs.KeepsAt, Fs.Held, Accounts, Missing, Paced, Touched, IndexBlock, Before, Piece, Fails;
      hide Within, Logs;
      WithinMore({}, 0, nmeta, |bits|);
      ghost var f := S();
      WritingNone(f, i, off, src);
      data, bitmap := {}, {};
      AccountsNone(f, i, off);
      PacedNone(off, |src|);
      LogsSame(f, i, logged);
      var tot, its := 0, 0;
      while tot < |src|
        invariant 0 <= tot <= |src| && S().Owned({}) && S().Shape() && |inodes| == |f.inodes|
        invariant Writing(f, S(), i, off, src, tot) && Paced(off, |src|, tot, its) && (its == 0 ==> S() == f)
        invariant tot > 0 ==> (off + tot - 1) / BSIZE < REACH
        invariant Accounts(f, S(), i, off, its, data, bitmap) && (its > fault.turn ==> !Fails(off, |src|, fault))
        invariant logged <= old(logged) + data + bitmap + IndexBlock(S(), i)
        invariant OneBitmap(bitmap) && |bits| == |old(bits)| && Within(data, nmeta, |bits|)
        invariant old(logged) <= logged && Logs(f, S(), i, logged, {})
        decreases |src| - tot
      {
        if (off + tot) / BSIZE >= REACH {
          DivOrdered(off + tot, off + |src| - 1);
          return OutOfRange, data, bitmap;
        }
        ghost var g, bm, l := S(), {}, logged;
        Turn(off, |src|, tot, its, fault);
        var m, copied, to, addr := Piece(off, |src|, tot), if its == fault.turn then fault.copied else BSIZE, 0, 0;
        to, addr, bm := WriteBlock(i, off, src, tot, copied, f);
        if addr == 0 {
          return OutOfBlocks, data, bitmap;
        }
        LogsMore(f, g, S(), i, l, logged, if copied < m then {addr} else {});
        AccountsMore(f, g, S(), i, off, its, data, bitmap, addr, bm);
        IndexKept(g, S(), i);
        WithinMore(data, addr, nmeta, |bits|);
        data, bitmap := data + {addr}, bitmap + bm;
        if copied < m {
          return Short(tot), data, bitmap;
        }
        tot, its := to, its + 1;
      }
      PacedDone(off, |src|, its);
      PastFault(off, |src|, fault);
      r := Wrote;
    }

    /**
     writei: src is spliced into the file, which grows to hold it.  If the copy
     fails, the blocks before are written, and the bytes that the failed copy
     did move are in the cached block but not logged.  The guard against
     MAXFILE never refuses anything (GuardNeverRefuses).
     */
    method Writei(i: nat, off: nat, src: seq<Byte>, fault: Fault)
        returns (r: Outcome, ghost data: set<nat>, ghost bitmap: set<nat>)
      requires S().Valid() && i < |inodes| && off < UINT_RANGE && |src| < UINT_RANGE
      modifies `bits, `blocks, `inodes, `logged
      ensures r.Refused? <==> off > old(inodes)[i].size || off + |src| >= UINT_RANGE
      ensures r.Refused? ==> S() == old(S()) && logged == old(logged)
      ensures S().Owned({}) && OneBitmap(bitmap) && |bits| == |old(bits)| && Within(data, nmeta, |bits|)
      ensures r.OutOfBlocks? ==> false !in bits
      ensures r.OutOfRange? ==> src != [] && (off + |src| - 1) / BSIZE >= REACH
      ensures r.Short? ==> Fails(off, |src|, fault) && r.count == Before(off, fault.turn)
      ensures r.Wrote? ==> !Fails(off, |src|, fault) && (src != [] ==> (off + |src| - 1) / BSIZE < REACH)
      ensures r.Wrote? || r.Short? ==>
                && S().Valid() && Spills(old(S()), S(), i, off, src, Counted(r, |src|), Copied(r, |src|, fault))
                && Accounts(old(S()), S(), i, off, Turns(r, off, |src|, fault), data, bitmap)
                && logged <= old(logged) + data + bitmap + IndexBlock(S(), i) + {IBlock(i)}
                && Logs(old(S()), S(), i, logged, Spared(r, i, off, fault)) && old(logged) + {IBlock(i)} <= logged
    {
      data, bitmap := {}, {};
      if off > inodes[i].size || off + |src| >= UINT_RANGE {
        return Refused, data, bitmap;
      }
      GuardNeverRefuses(off + |src|);
      if off + |src| > MAXFILE * BSIZE {
        return Refused, data, bitmap;
      }
      hide Writing, Spills, Accounts, Touched, Fails, Before, Logs;
      r, data, bitmap := WriteBlocks(i, off, src, fault);
      if r.Wrote? || r.Short? {
        ghost var g, bn := S(), off / BSIZE + fault.turn;
        Resize(i, off, Counted(r, |src|), src, Copied(r, |src|, fault), old(S()), Turns(r, off, |src|, fault),
               data, bitmap, Spared(r, i, off, fault));
        assert bn < REACH ==> g.SameHeldAt(S(), PlaceOf(i, bn));
      }
    }

    /** The end of writei: the size, and the inode back to disk. */
    method Resize(i: nat, off: nat, tot: nat, ghost src: seq<Byte>, ghost to: nat, ghost f: Fs, ghost its: nat,
                  ghost data: set<nat>, ghost bitmap: set<nat>, ghost spared: set<nat>)
      requires f.Valid() && S().Owned({}) && Writing(f, S(), i, off, src, to) && off <= f.inodes[i].size && tot <= to
      requires Accounts(f, S(), i, off, its, data, bitmap) && Logs(f, S(), i, logged, spared)
      modifies `inodes, `logged
      ensures S().Valid() && Spills(f, S(), i, off, src, tot, to)
      ensures Accounts(f, S(), i, off, its, data, bitmap)
      ensures logged == old(logged) + {IBlock(i)} && IndexBlock(S(), i) == IndexBlock(old(S()), i)
      ensures Logs(f, S(), i, logged, spared) && forall p :: old(S()).SameHeldAt(S(), p)
    {
      hide Logs;
      ghost var g, l := S(), logged;
      var size := if off + tot > inodes[i].size then off + tot else inodes[i].size;
      g.ResizeKeeps({}, i, size);
      inodes := inodes[i := inodes[i].(size := size)];
      logged := logged + {IBlock(i)};
      ghost var h := S();
      assert h == g.(inodes := g.inodes[i := g.inodes[i].(size := size)]);
      WritingSpills(f, g, h, i, off, src, tot, to);
      Written(f, g, h, i, off, src, tot, to, size);
      assert g.SameHeldAt(h, Top(i, NDIRECT));
      LogsSized(f, g, h, i, l, logged, spared);
    }

    /**
     filewrite: chunk by chunk, each in a transaction of its own; the copy may
     fail in one of them.  mid is the file system before the last chunk.
     */
    method FileWrite(i: nat, off: nat, src: seq<Byte>, chunk: nat, fault: Fault)
        returns (r: Outcome, done: nat, ghost mid: Fs)
      requires S().Valid() && i < |inodes| && off < UINT_RANGE && |src| < 0x8000_0000
      modifies `bits, `blocks, `inodes, `logged
      ensures done <= |src| && (r.Wrote? <==> done == |src|)
      ensures r.Wrote? || r.Refused? ==> S().Valid() && SplicedTo(old(S()), S(), i, off, src, done)
      ensures r.Short? ==>
                && S().Valid() && SplicedTo(old(S()), mid, i, off, src, done) && done == chunk * CHUNK
                && Spills(mid, S(), i, off + done, src[done..done + Least(|src| - done, CHUNK)],
                          r.count, r.count + fault.copied)
      ensures r.Refused? ==> off > old(inodes)[i].size || off + done + CHUNK >= UINT_RANGE
      ensures r.OutOfBlocks? ==> false !in bits
      ensures r.OutOfRange? ==> (off + |src| - 1) / BSIZE >= REACH
      ensures S().Owned({})
    {
      hide Splices, Spills, SplicedTo, Fs.Owned, Fs.HoleFree, Fails;
      ghost var f := S();
      SplicedNone(f, i, off, src);
      mid := f;
      done := 0;
      var c := 0;
      while done < |src|
        invariant done <= |src| && S().Valid() && off + done < UINT_RANGE && SplicedTo(f, S(), i, off, src, done)
        invariant done < |src| ==> done == c * CHUNK
        decreases |src| - done
      {
        SplicedSize(f, S(), i, off, src, done);
        var n1 := Least(|src| - done, CHUNK);
        mid := S();
        r := WriteChunk(i, off + done, src[done..done + n1], if c == chunk then fault else Fault(5, 0));
        if !r.Wrote? {
          NoFault(off + done, n1);
          DivOrdered(off + done + n1 - 1, off + |src| - 1);
          return;
        }
        SplicedMore(f, mid, S(), i, off, src, done, done + n1);
        done, c := done + n1, c + 1;
      }
      r := Wrote;
    }

    /** One transaction of filewrite. */
    method WriteChunk(i: nat, off: nat, src: seq<Byte>, fault: Fault) returns (r: Outcome)
      requires S().Valid() && i < |inodes| && off < UINT_RANGE && |src| <= CHUNK
      modifies `bits, `blocks, `inodes, `logged
      ensures r.Wrote? || r.Short? ==>
                && S().Valid() && Spills(old(S()), S(), i, off, src, Counted(r, |src|), Copied(r, |src|, fault))
                && |logged| <= (if |bits| <= BPB then CHUNK_BLOCKS else MAXOPBLOCKS)
                && (|bits| <= BPB ==> forall b :: b in logged ==> MayLog(i, b))
                && Logs(old(S()), S(), i, logged, Spared(r, i, off, fault)) && IBlock(i) in logged
      ensures r.Wrote? ==> Splices(old(S()), S(), i, off, src)
      ensures r.Short? ==> Fails(off, |src|, fault)
      ensures S().Owned({}) && |bits| == |old(bits)|
      ensures r.Refused? ==> S() == old(S())
      ensures r.Refused? <==> off > old(inodes)[i].size || off + |src| >= UINT_RANGE
      ensures r.OutOfBlocks? ==> false !in bits
      ensures r.OutOfRange? ==> src != [] && (off + |src| - 1) / BSIZE >= REACH
    {
      hide PatchAt, Fs.SameAt, Accounts, Touched, Logs;
      ghost var data, bitmap;
      logged := {};
      r, data, bitmap := Writei(i, off, src, fault);
      if r.Wrote? || r.Short? {
        ghost var its := Turns(r, off, |src|, fault);
        ChunkFits(old(S()), S(), i, off, |src|, its, data, bitmap, logged, IBlock(i));
        if |bits| <= BPB {
          Sets.SubsetSize(bitmap, {bmapstart});
          ChunkFitsOneBitmap(old(S()), S(), i, off, |src|, its, data, bitmap, logged, IBlock(i));
          assert S().HeldAt(Top(i, NDIRECT));
        }
      }
    }

    /** The kernel starts on an image such as mkfs makes (Mkfs.Image.Finish). */
    constructor (fs: Fs, inodestart: nat, bmapstart: nat)
      requires fs.Valid()
      ensures S() == fs && logged == {} && this.inodestart == inodestart && this.bmapstart == bmapstart
    {
      this.nmeta, this.inodestart, this.bmapstart := fs.nmeta, inodestart, bmapstart;
      bits, blocks, inodes, logged := fs.bits, fs.blocks, fs.inodes, {};
    }
  }

  /** A chunk has no block number five in which a copy could fail. */
  lemma NoFault(off: nat, n: nat)
    requires n <= CHUNK
    ensures !Fails(off, n, Fault(5, 0))
  {
    TouchedByChunk(off, n);
  }

  /** Sizes are 32-bit, far below MAXFILE blocks. */
  lemma GuardNeverRefuses(n: nat)
    requires n < UINT_RANGE
    ensures n <= MAXFILE * BSIZE
  {
  }

  /**
   The blocks that a chunk of filewrite logs, as WriteChunk leaves them, are those
   of a fair operation with a budget of seven: in any fair run of the log, an
   operation that has just begun may log them in any order and as often as it
   likes, and log_write does not panic.
   */
  lemma ChunksFitLog(disk: FileSystem, l: LogSpec.Layout, i: nat, states: seq<LogRuns.State>,
                     events: seq<LogRuns.Event>, who: seq<nat>, op: nat, ups: seq<LogRuns.Event>)
      returns (states': seq<LogRuns.State>, who': seq<nat>)
    requires disk.LaidOut(l) && l.size == LOGSIZE && |disk.bits| <= BPB && i < |disk.inodes|
    requires |disk.logged| <= CHUNK_BLOCKS && forall b :: b in disk.logged ==> disk.MayLog(i, b)
    requires LogRuns.Run(l, states, events) && LogSpace.Fair(CHUNK_BLOCKS, events, who)
    requires var a := LogSpace.BooksAt(events, who, |events|); op < |a.ops| && a.ops[op] == {}
    requires forall e :: e in ups ==> e.Update? && e.b in disk.logged
    ensures LogRuns.Run(l, states', events + ups) && LogSpace.Fair(CHUNK_BLOCKS, events + ups, who')
    ensures states <= states' && who <= who' && forall k :: |who| <= k < |who'| ==> who'[k] == op
  {
    hide LogRuns.Run, LogSpace.Fair, LogSpace.BooksAt;
    var blocks: set<int> := disk.logged;
    forall e | e in ups ensures LogSpace.UpdateIn(l, blocks, e) {
      assert disk.MayLog(i, e.b);
      InodeBlockBelow(disk, i);
    }
    states', who' := LogSpace.OperationIsFair(l, CHUNK_BLOCKS, states, events, who, op, blocks, ups);
  }

  lemma InodeBlockBelow(disk: FileSystem, i: nat)
    requires i < |disk.inodes|
    ensures disk.inodestart <= disk.IBlock(i) <= disk.IBlock(|disk.inodes|)
  {
  }

  /** The kernel on a disk that mkfs has made: its files are there, and every method above can be called. */
  method Boot(names: seq<string>, files: seq<seq<Byte>>) returns (r: Mkfs.Result, disk: FileSystem?)
    requires |names| == |files|
    ensures disk != null <==> r.Built? && 2 + |files| <= IPB
    ensures disk != null ==>
              && fresh(disk) && disk.S().Valid() && |disk.bits| <= BPB && Mkfs.Complete(disk.S(), names, files)
              && disk.LaidOut(LogSpec.Layout(2, LOGSIZE, Mkfs.FSSIZE))
  {
    hide Mkfs.Complete, Fs.Owned, Fs.HoleFree, Mkfs.Image.KeepsAll;
    var image;
    r, image := Mkfs.MakeDisk(names, files);
    disk := null;
    if r.Built? && 2 + |files| <= IPB {
      var fs := Fs(Mkfs.NMETA, r.bits, image.blocks, image.inodes[..image.slots]);
      disk := new FileSystem(fs, 2 + LOGSIZE, 2 + LOGSIZE + 1);
    }
  }
}
