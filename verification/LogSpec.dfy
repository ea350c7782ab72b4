/**
 The redo log of kernel/log.c, on values: the layout of the on-disk log, the
 ordered list of block writes that a commit and a recovery issue, and what a
 crash between any two of those writes leaves behind.

 A block is BSIZE bytes, seen here as BSIZE/4 words because `struct logheader`
 is an array of ints.  A crash after k writes is the disk with the first k
 writes of the list applied.
 */
module LogSpec {
  import opened Common

  const BWORDS: nat := BSIZE / 4

  datatype Block = Block(words: seq<int>)
  type Disk = seq<Block>

  datatype Write = Write(block: nat, data: Block)

  /** Where the log lives: `start` is the header block, the slots follow it. */
  datatype Layout = Layout(start: nat, size: nat, nblocks: nat) {
    predicate Valid() {
      1 < size <= LOGSIZE && start + size <= nblocks
    }

    /** Blocks reserved for the log; every other block is a home block. */
    predicate InLog(b: nat) { start <= b < start + size }

    predicate IsHome(b: int) { 0 <= b < nblocks && !InLog(b) }

    function Slot(i: nat): nat { start + 1 + i }

    /** What the file system sees of a disk: its blocks outside the log. */
    ghost function Home(d: Disk): (h: map<nat, Block>)
      requires |d| == nblocks
    {
      map b: nat | b < nblocks && !InLog(b) :: d[b]
    }

    /** A list of distinct home blocks that fits in the slots. */
    ghost predicate ValidList(lh: seq<int>) {
      && |lh| < size
      && (forall i :: 0 <= i < |lh| ==> IsHome(lh[i]))
      && (forall i, j :: 0 <= i < j < |lh| ==> lh[i] != lh[j])
    }

    /** A disk whose header block names a valid list. */
    ghost predicate ValidDisk(d: Disk) {
      && Valid() && |d| == nblocks
      && |d[start].words| == BWORDS && 0 <= d[start].words[0] < size
      && ValidList(HeaderList(d[start]))
    }
  }

  /** The block numbers a header block names: word 0 is n, words 1..n the list. */
  function HeaderList(b: Block): (lh: seq<int>)
    requires |b.words| == BWORDS && 0 <= b.words[0] < LOGSIZE
  {
    b.words[1..1 + b.words[0]]
  }

  /** A header block overwritten as write_head does: only n and n entries change. */
  function PutHeader(b: Block, lh: seq<int>): (r: Block)
    requires |b.words| == BWORDS && |lh| < LOGSIZE
    ensures |r.words| == BWORDS && r.words[0] == |lh| && HeaderList(r) == lh
    ensures r.words[1 + |lh|..] == b.words[1 + |lh|..]
  {
    Block([|lh|] + lh + b.words[1 + |lh|..])
  }

  ghost predicate InRange(d: Disk, ws: seq<Write>) {
    forall i :: 0 <= i < |ws| ==> ws[i].block < |d|
  }

  /** The disk once the first k writes of a list have reached it. */
  ghost function After(d: Disk, ws: seq<Write>, k: nat): (r: Disk)
    requires InRange(d, ws) && k <= |ws|
    ensures |r| == |d|
  {
    if k == 0 then d else After(d, ws, k - 1)[ws[k - 1].block := ws[k - 1].data]
  }

  /** write_log: the current contents of each listed block, into the slots in order. */
  ghost function LogWrites(l: Layout, lh: seq<int>, view: Disk): (ws: seq<Write>)
    requires forall i :: 0 <= i < |lh| ==> 0 <= lh[i] < |view|
    ensures |ws| == |lh|
    ensures forall i {:trigger ws[i]} :: 0 <= i < |lh| ==> ws[i] == Write(l.Slot(i), view[lh[i]])
  {
    seq(|lh|, i requires 0 <= i < |lh| => Write(l.Slot(i), view[lh[i]]))
  }

  /** install_trans: each slot to the home block it stands for. */
  ghost function InstallWrites(l: Layout, lh: seq<int>, d: Disk): (ws: seq<Write>)
    requires l.start + |lh| < |d| && forall i :: 0 <= i < |lh| ==> 0 <= lh[i]
    ensures |ws| == |lh|
    ensures forall i {:trigger ws[i]} :: 0 <= i < |lh| ==> ws[i] == Write(lh[i], d[l.Slot(i)])
  {
    seq(|lh|, i requires 0 <= i < |lh| => Write(lh[i], d[l.Slot(i)]))
  }

  ghost function HeadWrite(l: Layout, d: Disk, lh: seq<int>): (w: Write)
    requires l.start < |d| && |d[l.start].words| == BWORDS && |lh| < LOGSIZE
  {
    Write(l.start, PutHeader(d[l.start], lh))
  }

  /** recover_from_log: install what the header names, then clear the header. */
  ghost function RecoveryWrites(l: Layout, d: Disk): (ws: seq<Write>)
    requires l.ValidDisk(d)
    ensures InRange(d, ws)
  {
    InstallWrites(l, HeaderList(d[l.start]), d) + [HeadWrite(l, d, [])]
  }

  /** The disk once write_log has run. */
  ghost function LoggedDisk(l: Layout, d: Disk, lh: seq<int>, view: Disk): (r: Disk)
    requires l.ValidDisk(d) && l.ValidList(lh) && |view| == |d|
    ensures |r| == |d| && r[l.start] == d[l.start]
  {
    LoggingKeeps(l, d, lh, view, |lh|, l.start);
    After(d, LogWrites(l, lh, view), |lh|)
  }

  /** The disk at the commit point: slots written, header naming them. */
  ghost function HeadedDisk(l: Layout, d: Disk, lh: seq<int>, view: Disk): (r: Disk)
    requires l.ValidDisk(d) && l.ValidList(lh) && |view| == |d|
    ensures |r| == |d|
  {
    var d1 := LoggedDisk(l, d, lh, view);
    d1[l.start := PutHeader(d1[l.start], lh)]
  }

  /** The writes up to the commit point: the slots, then the header naming them. */
  ghost function LogAndHeadWrites(l: Layout, d: Disk, lh: seq<int>, view: Disk): (ws: seq<Write>)
    requires l.ValidDisk(d) && l.ValidList(lh) && |view| == |d|
    ensures |ws| == |lh| + 1 && ws[|lh|] == HeadWrite(l, LoggedDisk(l, d, lh, view), lh)
    ensures forall i {:trigger ws[i]} :: 0 <= i < |lh| ==> ws[i] == LogWrites(l, lh, view)[i]
  {
    LogWrites(l, lh, view) + [HeadWrite(l, LoggedDisk(l, d, lh, view), lh)]
  }

  /** commit: log the blocks, write the header, install, clear the header. */
  ghost function CommitWrites(l: Layout, d: Disk, lh: seq<int>, view: Disk): (ws: seq<Write>)
    requires l.ValidDisk(d) && l.ValidList(lh) && |view| == |d|
    ensures InRange(d, ws)
  {
    if lh == [] then [] else
      HeadedDiskHeader(l, d, lh, view);
      LogAndHeadWrites(l, d, lh, view) + RecoveryWrites(l, HeadedDisk(l, d, lh, view))
  }

  /** The disk a crash leaves after the first k writes of a recovery. */
  ghost function RecoveryCrash(l: Layout, d: Disk, k: nat): (dk: Disk)
    requires l.ValidDisk(d) && k <= |RecoveryWrites(l, d)|
    ensures |dk| == |d|
  {
    After(d, RecoveryWrites(l, d), k)
  }

  /** The disk after a recovery that runs to its end. */
  ghost function RecoveredDisk(l: Layout, d: Disk): (r: Disk)
    requires l.ValidDisk(d)
    ensures |r| == |d|
  {
    RecoveryCrash(l, d, |RecoveryWrites(l, d)|)
  }

  /** The home blocks after a recovery that runs to its end. */
  ghost function Recovered(l: Layout, d: Disk): (h: map<nat, Block>)
    requires l.ValidDisk(d)
  {
    l.Home(RecoveredDisk(l, d))
  }

  /** The disk a crash leaves after the first k writes of a commit. */
  ghost function CommitCrash(l: Layout, d: Disk, lh: seq<int>, view: Disk, k: nat): (dk: Disk)
    requires l.ValidDisk(d) && l.ValidList(lh) && |view| == |d|
    requires k <= |CommitWrites(l, d, lh, view)|
    ensures |dk| == |d|
  {
    After(d, CommitWrites(l, d, lh, view), k)
  }

  /** The disk after all writes of a commit. */
  ghost function CommittedDisk(l: Layout, d: Disk, lh: seq<int>, view: Disk): (d': Disk)
    requires l.ValidDisk(d) && l.ValidList(lh) && |view| == |d|
    ensures |d'| == |d|
  {
    CommitCrash(l, d, lh, view, |CommitWrites(l, d, lh, view)|)
  }

  /** The home blocks of `d` with each listed block taken from `view`. */
  ghost function Overlay(l: Layout, d: Disk, lh: seq<int>, view: Disk): (h: map<nat, Block>)
    requires |d| == |view| == l.nblocks
  {
    map b: nat | b < l.nblocks && !l.InLog(b) :: if b in lh then view[b] else d[b]
  }

  // ------------------------------------------------------------------
  // Applying lists of writes

  /** A longer list with the same first k writes. */
  lemma {:induction false} AfterPrefix(d: Disk, ws: seq<Write>, vs: seq<Write>, k: nat)
    requires InRange(d, ws) && InRange(d, vs) && k <= |ws| && k <= |vs|
    requires forall i :: 0 <= i < k ==> ws[i] == vs[i]
    ensures After(d, ws, k) == After(d, vs, k)
  {
    if k > 0 {
      AfterPrefix(d, ws, vs, k - 1);
    }
  }

  /** One write more at the end. */
  lemma {:induction false} AfterOneMore(d: Disk, ws: seq<Write>, w: Write)
    requires InRange(d, ws) && w.block < |d|
    ensures InRange(d, ws + [w])
    ensures After(d, ws + [w], |ws| + 1) == After(d, ws, |ws|)[w.block := w.data]
  {
    AfterPrefix(d, ws + [w], ws, |ws|);
    assert (ws + [w])[|ws|] == w;
  }

  /** All of ws, then the first k of vs. */
  lemma {:induction false} AfterConcat(d: Disk, ws: seq<Write>, vs: seq<Write>, k: nat)
    requires InRange(d, ws) && InRange(d, vs) && InRange(d, ws + vs) && k <= |vs|
    ensures After(d, ws + vs, |ws| + k) == After(After(d, ws, |ws|), vs, k)
  {
    if k == 0 {
      AfterPrefix(d, ws + vs, ws, |ws|);
    } else {
      AfterConcat(d, ws, vs, k - 1);
    }
  }

  /** Writes that miss a block leave it alone. */
  lemma {:induction false} AfterMiss(d: Disk, ws: seq<Write>, k: nat, b: nat)
    requires InRange(d, ws) && k <= |ws| && b < |d|
    requires forall i :: 0 <= i < k ==> ws[i].block != b
    ensures After(d, ws, k)[b] == d[b]
  {
    if k > 0 {
      AfterMiss(d, ws, k - 1, b);
    }
  }

  /** Of writes to distinct blocks, the one to a block decides it. */
  lemma {:induction false} AfterHit(d: Disk, ws: seq<Write>, k: nat, i: nat)
    requires InRange(d, ws) && i < k <= |ws|
    requires forall j :: i < j < k ==> ws[j].block != ws[i].block
    ensures After(d, ws, k)[ws[i].block] == ws[i].data
  {
    if i < k - 1 {
      AfterHit(d, ws, k - 1, i);
    }
  }

  // ------------------------------------------------------------------
  // Recovery

  /** Installing only some of the listed blocks changes no slot and no header. */
  lemma InstallKeepsLog(l: Layout, d: Disk, k: nat, b: nat)
    requires l.ValidDisk(d) && k <= |HeaderList(d[l.start])|
    requires l.InLog(b) || (l.IsHome(b) && b !in HeaderList(d[l.start]))
    ensures k <= |RecoveryWrites(l, d)| && RecoveryCrash(l, d, k)[b] == d[b]
  {
    var lh, ws := HeaderList(d[l.start]), RecoveryWrites(l, d);
    forall i | 0 <= i < k ensures ws[i].block != b {
      assert ws[i].block == lh[i];
    }
    AfterMiss(d, ws, k, b);
  }

  /** Block by block, what a complete recovery leaves at home. */
  lemma RecoveredAt(l: Layout, d: Disk, b: nat)
    requires l.ValidDisk(d) && l.IsHome(b)
    ensures var lh := HeaderList(d[l.start]);
            && b in Recovered(l, d)
            && (forall i :: 0 <= i < |lh| && lh[i] == b ==> Recovered(l, d)[b] == d[l.Slot(i)])
            && (b !in lh ==> Recovered(l, d)[b] == d[b])
  {
    var lh, ws := HeaderList(d[l.start]), RecoveryWrites(l, d);
    forall i | 0 <= i < |lh| && lh[i] == b ensures After(d, ws, |lh|)[b] == d[l.Slot(i)] {
      assert ws[i] == Write(lh[i], d[l.Slot(i)]);
      forall j | i < j < |lh| ensures ws[j].block != b {
        assert ws[j].block == lh[j];
      }
      AfterHit(d, ws, |lh|, i);
    }
    if b !in lh {
      InstallKeepsLog(l, d, |lh|, b);
    }
  }

  /** An empty header: recovery changes no home block. */
  lemma RecoveredEmpty(l: Layout, d: Disk)
    requires l.ValidDisk(d) && d[l.start].words[0] == 0
    ensures Recovered(l, d) == l.Home(d)
  {
    forall b: nat | l.IsHome(b) ensures Recovered(l, d)[b] == l.Home(d)[b] {
      RecoveredAt(l, d, b);
    }
  }

  /** Recovery depends only on the log region and on the blocks it does not name. */
  lemma SameLogSameRecovery(l: Layout, d: Disk, d1: Disk)
    requires l.ValidDisk(d) && l.ValidDisk(d1)
    requires forall b :: l.start <= b < l.start + l.size ==> d1[b] == d[b]
    requires forall b :: l.IsHome(b) && b !in HeaderList(d[l.start]) ==> d1[b] == d[b]
    ensures Recovered(l, d1) == Recovered(l, d)
  {
    var lh := HeaderList(d[l.start]);
    assert d1[l.start] == d[l.start];
    forall b: nat | l.IsHome(b) ensures Recovered(l, d1)[b] == Recovered(l, d)[b] {
      RecoveredAt(l, d, b);
      RecoveredAt(l, d1, b);
      if b in lh {
        var i :| 0 <= i < |lh| && lh[i] == b;
        assert l.InLog(l.Slot(i));
      }
    }
  }

  /** A recovery that runs to its end leaves an empty header. */
  lemma RecoveryClears(l: Layout, d: Disk)
    requires l.ValidDisk(d)
    ensures l.ValidDisk(RecoveredDisk(l, d)) && RecoveredDisk(l, d)[l.start].words[0] == 0
  {
    var lh, ws := HeaderList(d[l.start]), RecoveryWrites(l, d);
    assert ws[|lh|] == HeadWrite(l, d, []);
  }

  /**
   Recovery is idempotent under crashes: stopped after any k of its writes and
   started again, it yields the same home blocks.
   */
  lemma RecoveryRestartable(l: Layout, d: Disk, k: nat)
    requires l.ValidDisk(d) && k <= |RecoveryWrites(l, d)|
    ensures l.ValidDisk(RecoveryCrash(l, d, k))
    ensures Recovered(l, RecoveryCrash(l, d, k)) == Recovered(l, d)
  {
    var lh := HeaderList(d[l.start]);
    if k <= |lh| {
      var dk := RecoveryCrash(l, d, k);
      forall b: nat | l.InLog(b) || (l.IsHome(b) && b !in lh) ensures dk[b] == d[b] {
        InstallKeepsLog(l, d, k, b);
      }
      assert l.InLog(l.start) && dk[l.start] == d[l.start];
      SameLogSameRecovery(l, d, dk);
    } else {
      RecoveryClears(l, d);
      RecoveredEmpty(l, RecoveredDisk(l, d));
    }
  }

  // ------------------------------------------------------------------
  // Commit

  /** Writing slots changes neither the header nor any home block. */
  lemma LoggingKeeps(l: Layout, d: Disk, lh: seq<int>, view: Disk, k: nat, b: nat)
    requires l.ValidDisk(d) && l.ValidList(lh) && |view| == |d| && k <= |lh|
    requires b == l.start || l.IsHome(b)
    ensures After(d, LogWrites(l, lh, view), k)[b] == d[b]
  {
    AfterMiss(d, LogWrites(l, lh, view), k, b);
  }

  lemma LoggingKeepsHome(l: Layout, d: Disk, lh: seq<int>, view: Disk, k: nat)
    requires l.ValidDisk(d) && l.ValidList(lh) && |view| == |d| && k <= |lh|
    ensures l.ValidDisk(After(d, LogWrites(l, lh, view), k))
    ensures After(d, LogWrites(l, lh, view), k)[l.start] == d[l.start]
    ensures l.Home(After(d, LogWrites(l, lh, view), k)) == l.Home(d)
  {
    LoggingKeeps(l, d, lh, view, k, l.start);
    forall b: nat | l.IsHome(b) ensures After(d, LogWrites(l, lh, view), k)[b] == d[b] {
      LoggingKeeps(l, d, lh, view, k, b);
    }
  }

  /** At the commit point the header names the list. */
  lemma HeadedDiskHeader(l: Layout, d: Disk, lh: seq<int>, view: Disk)
    requires l.ValidDisk(d) && l.ValidList(lh) && |view| == |d|
    ensures l.ValidDisk(HeadedDisk(l, d, lh, view))
    ensures HeaderList(HeadedDisk(l, d, lh, view)[l.start]) == lh
  {
  }

  /** At the commit point slot i holds block lh[i]. */
  lemma HeadedDiskSlot(l: Layout, d: Disk, lh: seq<int>, view: Disk, i: nat)
    requires l.ValidDisk(d) && l.ValidList(lh) && |view| == |d| && i < |lh|
    ensures HeadedDisk(l, d, lh, view)[l.Slot(i)] == view[lh[i]]
  {
    AfterHit(d, LogWrites(l, lh, view), |lh|, i);
  }

  /** From the commit point on, recovery yields the whole group of updates. */
  lemma {:induction false} HeadedDiskRecovers(l: Layout, d: Disk, lh: seq<int>, view: Disk)
    requires l.ValidDisk(d) && l.ValidList(lh) && |view| == |d|
    ensures l.ValidDisk(HeadedDisk(l, d, lh, view))
    ensures Recovered(l, HeadedDisk(l, d, lh, view)) == Overlay(l, d, lh, view)
  {
    HeadedDiskHeader(l, d, lh, view);
    forall b: nat | l.IsHome(b)
      ensures Recovered(l, HeadedDisk(l, d, lh, view))[b] == Overlay(l, d, lh, view)[b]
    {
      HeadedDiskRecoversAt(l, d, lh, view, b);
    }
  }

  lemma HeadedDiskRecoversAt(l: Layout, d: Disk, lh: seq<int>, view: Disk, b: nat)
    requires l.ValidDisk(d) && l.ValidList(lh) && |view| == |d| && l.IsHome(b)
    ensures l.ValidDisk(HeadedDisk(l, d, lh, view))
    ensures b in Recovered(l, HeadedDisk(l, d, lh, view))
    ensures Recovered(l, HeadedDisk(l, d, lh, view))[b] == if b in lh then view[b] else d[b]
  {
    HeadedDiskHeader(l, d, lh, view);
    RecoveredAt(l, HeadedDisk(l, d, lh, view), b);
    if b in lh {
      var i :| 0 <= i < |lh| && lh[i] == b;
      HeadedDiskSlot(l, d, lh, view, i);
    } else {
      LoggingKeeps(l, d, lh, view, |lh|, b);
    }
  }

  /** The disk at the commit point is the one after |lh| + 1 writes. */
  lemma CommitPoint(l: Layout, d: Disk, lh: seq<int>, view: Disk)
    requires l.ValidDisk(d) && l.ValidList(lh) && |view| == |d|
    ensures After(d, LogAndHeadWrites(l, d, lh, view), |lh| + 1) == HeadedDisk(l, d, lh, view)
  {
    AfterOneMore(d, LogWrites(l, lh, view), HeadWrite(l, LoggedDisk(l, d, lh, view), lh));
  }

  /** After the commit point, a commit does what a recovery would do. */
  lemma CommitSuffix(l: Layout, d: Disk, lh: seq<int>, view: Disk, j: nat)
    requires l.ValidDisk(d) && l.ValidList(lh) && |view| == |d| && lh != [] && j <= |lh| + 1
    ensures var d2 := HeadedDisk(l, d, lh, view);
            && |CommitWrites(l, d, lh, view)| == |lh| + 1 + (|lh| + 1)
            && l.ValidDisk(d2) && |RecoveryWrites(l, d2)| == |lh| + 1
            && CommitCrash(l, d, lh, view, |lh| + 1 + j) == RecoveryCrash(l, d2, j)
  {
    HeadedDiskHeader(l, d, lh, view);
    CommitPoint(l, d, lh, view);
    var d2 := HeadedDisk(l, d, lh, view);
    var a, rs := LogAndHeadWrites(l, d, lh, view), RecoveryWrites(l, d2);
    assert CommitWrites(l, d, lh, view) == a + rs;
    calc {
      CommitCrash(l, d, lh, view, |lh| + 1 + j);
      After(d, a + rs, |a| + j);
      { AfterConcat(d, a, rs, j); }
      After(After(d, a, |a|), rs, j);
      RecoveryCrash(l, d2, j);
    }
  }

  /** Before the commit point, a commit only writes slots. */
  lemma CommitPrefix(l: Layout, d: Disk, lh: seq<int>, view: Disk, k: nat)
    requires l.ValidDisk(d) && l.ValidList(lh) && |view| == |d| && k <= |lh|
    ensures k <= |CommitWrites(l, d, lh, view)|
    ensures CommitCrash(l, d, lh, view, k) == After(d, LogWrites(l, lh, view), k)
  {
    var ws, cw := LogWrites(l, lh, view), CommitWrites(l, d, lh, view);
    assert forall i :: 0 <= i < k ==> cw[i] == ws[i];
    AfterPrefix(d, cw, ws, k);
  }

  /** Cut before the header write, a commit has done nothing. */
  lemma CommitBefore(l: Layout, d: Disk, lh: seq<int>, view: Disk, k: nat)
    requires l.ValidDisk(d) && d[l.start].words[0] == 0
    requires l.ValidList(lh) && |view| == |d| && k <= |lh|
    ensures k <= |CommitWrites(l, d, lh, view)|
    ensures l.ValidDisk(CommitCrash(l, d, lh, view, k))
    ensures Recovered(l, CommitCrash(l, d, lh, view, k)) == l.Home(d)
  {
    CommitPrefix(l, d, lh, view, k);
    LoggingKeepsHome(l, d, lh, view, k);
    RecoveredEmpty(l, After(d, LogWrites(l, lh, view), k));
  }

  /** Cut after the header write, a commit has done everything. */
  lemma CommitAfter(l: Layout, d: Disk, lh: seq<int>, view: Disk, k: nat)
    requires l.ValidDisk(d) && l.ValidList(lh) && |view| == |d|
    requires |lh| < k <= |CommitWrites(l, d, lh, view)|
    ensures l.ValidDisk(CommitCrash(l, d, lh, view, k))
    ensures Recovered(l, CommitCrash(l, d, lh, view, k)) == Overlay(l, d, lh, view)
  {
    var j := k - |lh| - 1;
    CommitSuffix(l, d, lh, view, j);
    RecoveryRestartable(l, HeadedDisk(l, d, lh, view), j);
    HeadedDiskRecovers(l, d, lh, view);
  }

  /**
   Crash atomicity of one commit.  Whatever prefix of its writes reaches the
   disk, the disk stays recoverable; recovery gives the state before the group
   exactly when the header write is not in the prefix, and the state after the
   whole group otherwise.
   */
  lemma CommitAtomic(l: Layout, d: Disk, lh: seq<int>, view: Disk, k: nat)
    requires l.ValidDisk(d) && d[l.start].words[0] == 0
    requires l.ValidList(lh) && |view| == |d|
    requires k <= |CommitWrites(l, d, lh, view)|
    ensures l.ValidDisk(CommitCrash(l, d, lh, view, k))
    ensures Recovered(l, CommitCrash(l, d, lh, view, k)) ==
            if k <= |lh| then l.Home(d) else Overlay(l, d, lh, view)
  {
    if k <= |lh| {
      CommitBefore(l, d, lh, view, k);
    } else {
      CommitAfter(l, d, lh, view, k);
    }
  }

  /** A commit that runs to its end leaves what a recovery at the commit point would. */
  lemma CommittedIsRecovered(l: Layout, d: Disk, lh: seq<int>, view: Disk)
    requires l.ValidDisk(d) && l.ValidList(lh) && |view| == |d| && lh != []
    ensures l.ValidDisk(HeadedDisk(l, d, lh, view))
    ensures CommittedDisk(l, d, lh, view) == RecoveredDisk(l, HeadedDisk(l, d, lh, view))
  {
    CommitSuffix(l, d, lh, view, |lh| + 1);
  }

  /** A commit that runs to its end installs the group and empties the header. */
  lemma CommitComplete(l: Layout, d: Disk, lh: seq<int>, view: Disk)
    requires l.ValidDisk(d) && d[l.start].words[0] == 0
    requires l.ValidList(lh) && |view| == |d|
    ensures l.ValidDisk(CommittedDisk(l, d, lh, view))
    ensures CommittedDisk(l, d, lh, view)[l.start].words[0] == 0
    ensures l.Home(CommittedDisk(l, d, lh, view)) == Overlay(l, d, lh, view)
  {
    if lh == [] {
      assert l.Home(d) == Overlay(l, d, lh, view);
    } else {
      CommittedIsRecovered(l, d, lh, view);
      RecoveryClears(l, HeadedDisk(l, d, lh, view));
      HeadedDiskRecovers(l, d, lh, view);
    }
  }
}
