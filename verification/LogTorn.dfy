/**
 A power failure in the middle of a block write.  The disk writes sectors one by
 one and each of them whole, so a block can be left with some sectors old and
 some new; nothing at all is taken for granted about blocks other than the
 header, whose entries lie in its first sector.
 */
module LogTorn {
  import opened Common
  import opened LogSpec

  /** Words in a sector of 512 bytes. */
  const SECTOR: nat := 128
  const SECTORS: nat := 128

  /** Sector s of t is that of a or that of b. */
  ghost predicate SectorAt(a: Block, b: Block, t: Block, s: nat)
    requires |a.words| == |b.words| == |t.words| == BWORDS
  {
    s < SECTORS ==>
      var lo, hi := SECTOR * s, SECTOR * s + SECTOR;
      t.words[lo..hi] == a.words[lo..hi] || t.words[lo..hi] == b.words[lo..hi]
  }

  /** What the write w may leave at its block when it is cut: for the header a mixture of sectors, else anything. */
  ghost predicate Tears(l: Layout, d: Disk, w: Write, t: Block)
    requires w.block < |d|
  {
    w.block == l.start ==>
      && |d[l.start].words| == |w.data.words| == |t.words| == BWORDS
      && forall s :: SectorAt(d[l.start], w.data, t, s)
  }

  /** Behind the first sector a header write changes nothing. */
  lemma WordBehind(b: Block, lh: seq<int>, t: Block, i: nat)
    requires |b.words| == |t.words| == BWORDS && |lh| < LOGSIZE && SECTOR <= i < BWORDS
    requires SectorAt(b, PutHeader(b, lh), t, i / SECTOR)
    ensures t.words[i] == b.words[i] == PutHeader(b, lh).words[i]
  {
    hide PutHeader;
    var h, lo := PutHeader(b, lh), SECTOR * (i / SECTOR);
    assert h.words[i] == h.words[1 + |lh|..][i - 1 - |lh|] == b.words[1 + |lh|..][i - 1 - |lh|] == b.words[i];
    assert t.words[i] == t.words[lo..lo + SECTOR][i - lo];
    assert b.words[i] == b.words[lo..lo + SECTOR][i - lo];
    assert h.words[i] == h.words[lo..lo + SECTOR][i - lo];
  }

  /** The header is written whole, because only its first sector changes. */
  lemma TornHeader(b: Block, lh: seq<int>, t: Block)
    requires |b.words| == |t.words| == BWORDS && |lh| < LOGSIZE
    requires forall s :: SectorAt(b, PutHeader(b, lh), t, s)
    ensures t == b || t == PutHeader(b, lh)
  {
    hide PutHeader, SectorAt;
    var h := PutHeader(b, lh);
    forall i | SECTOR <= i < BWORDS ensures t.words[i] == b.words[i] == h.words[i] {
      assert SectorAt(b, h, t, i / SECTOR);
      WordBehind(b, lh, t, i);
    }
    assert SectorAt(b, h, t, 0);
    FirstSector(b, h, t);
  }

  lemma FirstSector(b: Block, h: Block, t: Block)
    requires |b.words| == |h.words| == |t.words| == BWORDS && SectorAt(b, h, t, 0)
    requires forall i :: SECTOR <= i < BWORDS ==> t.words[i] == b.words[i] == h.words[i]
    ensures t == b || t == h
  {
    var x := if t.words[..SECTOR] == b.words[..SECTOR] then b else h;
    forall i | 0 <= i < BWORDS ensures t.words[i] == x.words[i] {
      if i < SECTOR {
        assert t.words[i] == t.words[..SECTOR][i] == x.words[..SECTOR][i];
      }
    }
    assert t.words == x.words;
  }

  /** A recovery cut in the middle of its write number k can still be restarted. */
  lemma RecoveryTorn(l: Layout, d: Disk, k: nat, t: Block)
    requires l.ValidDisk(d) && k < |RecoveryWrites(l, d)|
    requires Tears(l, RecoveryCrash(l, d, k), RecoveryWrites(l, d)[k], t)
    ensures var d' := RecoveryCrash(l, d, k)[RecoveryWrites(l, d)[k].block := t];
            l.ValidDisk(d') && Recovered(l, d') == Recovered(l, d)
  {
    hide RecoveryCrash, Recovered, SectorAt, PutHeader;
    var lh, ws, dk := HeaderList(d[l.start]), RecoveryWrites(l, d), RecoveryCrash(l, d, k);
    var d' := dk[ws[k].block := t];
    forall b: nat | l.InLog(b) || (l.IsHome(b) && b !in lh) ensures dk[b] == d[b] {
      InstallKeepsLog(l, d, k, b);
    }
    assert l.InLog(l.start) && dk[l.start] == d[l.start];
    if k < |lh| {
      assert ws[k].block == lh[k];
      SameLogSameRecovery(l, d, d');
    } else {
      assert ws[k] == HeadWrite(l, d, []);
      TornHeader(d[l.start], [], t);
      RecoveryRestartable(l, d, k);
      RecoveryRestartable(l, d, k + 1);
      RecoveryNext(l, d, k);
      assert dk[l.start := dk[l.start]] == dk;
    }
  }

  lemma RecoveryNext(l: Layout, d: Disk, k: nat)
    requires l.ValidDisk(d) && k < |RecoveryWrites(l, d)|
    ensures var w := RecoveryWrites(l, d)[k];
            RecoveryCrash(l, d, k + 1) == RecoveryCrash(l, d, k)[w.block := w.data]
  {
  }

  /** The writes of a commit before its commit point. */
  lemma FirstWrites(l: Layout, d: Disk, lh: seq<int>, view: Disk, k: nat)
    requires l.ValidDisk(d) && l.ValidList(lh) && |view| == |d| && lh != [] && k <= |lh|
    ensures |CommitWrites(l, d, lh, view)| > |lh|
    ensures CommitWrites(l, d, lh, view)[k] ==
            if k < |lh| then Write(l.Slot(k), view[lh[k]]) else HeadWrite(l, LoggedDisk(l, d, lh, view), lh)
  {
    hide HeadWrite, LoggedDisk, RecoveryWrites;
    assert CommitWrites(l, d, lh, view)[k] == LogAndHeadWrites(l, d, lh, view)[k];
  }

  /** Torn while it writes slots, a commit has done nothing. */
  lemma SlotTorn(l: Layout, d: Disk, lh: seq<int>, view: Disk, k: nat, t: Block)
    requires l.ValidDisk(d) && d[l.start].words[0] == 0
    requires l.ValidList(lh) && |view| == |d| && k < |lh|
    ensures k < |CommitWrites(l, d, lh, view)|
    ensures var d' := CommitCrash(l, d, lh, view, k)[CommitWrites(l, d, lh, view)[k].block := t];
            l.ValidDisk(d') && Recovered(l, d') == l.Home(d)
  {
    hide CommitWrites, CommitCrash, Recovered, LogWrites, After;
    FirstWrites(l, d, lh, view, k);
    CommitPrefix(l, d, lh, view, k);
    LoggingKeepsHome(l, d, lh, view, k);
    var dk := CommitCrash(l, d, lh, view, k);
    var d' := dk[l.Slot(k) := t];
    assert l.Home(d') == l.Home(dk);
    RecoveredEmpty(l, d');
  }

  /** Torn in its first header write, it has done nothing or everything. */
  lemma HeadTorn(l: Layout, d: Disk, lh: seq<int>, view: Disk, t: Block)
    requires l.ValidDisk(d) && d[l.start].words[0] == 0
    requires l.ValidList(lh) && |view| == |d| && lh != [] && |CommitWrites(l, d, lh, view)| > |lh|
    requires Tears(l, CommitCrash(l, d, lh, view, |lh|), CommitWrites(l, d, lh, view)[|lh|], t)
    ensures var d' := CommitCrash(l, d, lh, view, |lh|)[CommitWrites(l, d, lh, view)[|lh|].block := t];
            l.ValidDisk(d') && (Recovered(l, d') == l.Home(d) || Recovered(l, d') == Overlay(l, d, lh, view))
  {
    hide CommitWrites, CommitCrash, Recovered, Overlay, LogWrites, After, Layout.Home;
    var dk := CommitCrash(l, d, lh, view, |lh|);
    FirstWrites(l, d, lh, view, |lh|);
    Logged(l, d, lh, view);
    TornHeader(dk[l.start], lh, t);
    CommitBefore(l, d, lh, view, |lh|);
    HeadedDiskRecovers(l, d, lh, view);
    assert dk[l.start := dk[l.start]] == dk;
  }

  lemma Logged(l: Layout, d: Disk, lh: seq<int>, view: Disk)
    requires l.ValidDisk(d) && l.ValidList(lh) && |view| == |d|
    ensures |lh| <= |CommitWrites(l, d, lh, view)|
    ensures CommitCrash(l, d, lh, view, |lh|) == LoggedDisk(l, d, lh, view)
  {
    CommitPrefix(l, d, lh, view, |lh|);
  }

  /** Torn after it, it has done everything. */
  lemma TailTorn(l: Layout, d: Disk, lh: seq<int>, view: Disk, k: nat, t: Block)
    requires l.ValidDisk(d) && l.ValidList(lh) && |view| == |d| && |lh| < k < |CommitWrites(l, d, lh, view)|
    requires Tears(l, CommitCrash(l, d, lh, view, k), CommitWrites(l, d, lh, view)[k], t)
    ensures var d' := CommitCrash(l, d, lh, view, k)[CommitWrites(l, d, lh, view)[k].block := t];
            l.ValidDisk(d') && Recovered(l, d') == Overlay(l, d, lh, view)
  {
    var j, d2 := k - |lh| - 1, HeadedDisk(l, d, lh, view);
    CommitSuffix(l, d, lh, view, j);
    assert CommitWrites(l, d, lh, view)[k] == RecoveryWrites(l, d2)[j];
    hide RecoveryCrash, CommitCrash, Recovered, Overlay, HeadedDisk, Tears;
    RecoveryTorn(l, d2, j, t);
    HeadedDiskRecovers(l, d, lh, view);
  }

  /** A commit cut in the middle of its write number k is still all or nothing. */
  lemma CommitTorn(l: Layout, d: Disk, lh: seq<int>, view: Disk, k: nat, t: Block)
    requires l.ValidDisk(d) && d[l.start].words[0] == 0
    requires l.ValidList(lh) && |view| == |d| && k < |CommitWrites(l, d, lh, view)|
    requires Tears(l, CommitCrash(l, d, lh, view, k), CommitWrites(l, d, lh, view)[k], t)
    ensures var d' := CommitCrash(l, d, lh, view, k)[CommitWrites(l, d, lh, view)[k].block := t];
            && l.ValidDisk(d')
            && (k < |lh| ==> Recovered(l, d') == l.Home(d))
            && (k == |lh| ==> Recovered(l, d') == l.Home(d) || Recovered(l, d') == Overlay(l, d, lh, view))
            && (k > |lh| ==> Recovered(l, d') == Overlay(l, d, lh, view))
  {
    hide CommitWrites, CommitCrash, Recovered, Overlay, Tears;
    CommitEmpty(l, d, view);
    if k < |lh| {
      SlotTorn(l, d, lh, view, k, t);
    } else if k == |lh| {
      HeadTorn(l, d, lh, view, t);
    } else {
      TailTorn(l, d, lh, view, k, t);
    }
  }

  lemma CommitEmpty(l: Layout, d: Disk, view: Disk)
    requires l.ValidDisk(d) && |view| == |d|
    ensures CommitWrites(l, d, [], view) == [] && CommittedDisk(l, d, [], view) == d
  {
  }
}
