/**
 The disk that mkfs makes, read as the kernel reads directories: the bytes of
 the root as entries, and the heads of the inodes as kinds and link counts.
 */
module MkfsLinks {
  import opened Common
  import FileSpec
  import FsSpec
  import LinkSpec
  import Mkfs

  /** The characters before the first NUL. */
  function NameOf(b: seq<Byte>): (s: string)
    ensures |s| <= |b|
  {
    if b == [] || b[0] == 0 then "" else [(b[0] as int) as char] + NameOf(b[1..])
  }

  /** 32 bytes of a directory as an entry. */
  function EntryOf(b: seq<Byte>): (e: LinkSpec.Entry)
    requires |b| == Mkfs.DIRENT
  {
    LinkSpec.Entry(b[0] as int + 256 * b[1] as int, NameOf(b[2..]))
  }

  ghost function EntriesOf(b: seq<Byte>): (e: seq<LinkSpec.Entry>)
    ensures |e| == |b| / Mkfs.DIRENT
  {
    seq(|b| / Mkfs.DIRENT, k requires 0 <= k < |b| / Mkfs.DIRENT => EntryOf(b[k * Mkfs.DIRENT..(k + 1) * Mkfs.DIRENT]))
  }

  function KindOf(t: nat): (k: LinkSpec.Kind) {
    if t == 0 then LinkSpec.Free
    else if t == Mkfs.T_DIR then LinkSpec.Dir
    else if t == Mkfs.T_FILE then LinkSpec.File
    else LinkSpec.Device
  }

  /** All the bytes of file i. */
  ghost function BytesOf(fs: FsSpec.Fs, i: nat): (b: seq<Byte>)
    requires fs.Shape() && i < |fs.inodes| && fs.inodes[i].size <= FsSpec.REACH * BSIZE
    ensures |b| == fs.inodes[i].size
  {
    seq(fs.inodes[i].size, k requires 0 <= k < fs.inodes[i].size => ByteAt(fs, i, k))
  }

  ghost function ByteAt(fs: FsSpec.Fs, i: nat, k: nat): (b: Byte)
    requires fs.Shape() && i < |fs.inodes| && k < FsSpec.REACH * BSIZE
  {
    BelowReach(k);
    FileSpec.ByteOf(fs, i, k)
  }

  lemma BelowReach(k: nat)
    requires k < FsSpec.REACH * BSIZE
    ensures k / BSIZE < FsSpec.REACH
  {
  }

  ghost predicate Readable(fs: FsSpec.Fs, heads: seq<Mkfs.Head>) {
    && fs.Shape() && |fs.inodes| <= |heads|
    && forall i :: 0 <= i < |fs.inodes| && heads[i].kind == Mkfs.T_DIR ==> fs.inodes[i].size <= FsSpec.REACH * BSIZE
  }

  /** The inodes and entries of a disk. */
  ghost function LinksOf(fs: FsSpec.Fs, heads: seq<Mkfs.Head>): (f: LinkSpec.Fs)
    requires Readable(fs, heads)
    ensures |f.inodes| == |f.pend| == |fs.inodes|
  {
    LinkSpec.Fs(seq(|fs.inodes|, i requires 0 <= i < |fs.inodes| && Readable(fs, heads) => InodeAt(fs, heads, i)),
                seq(|fs.inodes|, _ => 0))
  }

  ghost function InodeAt(fs: FsSpec.Fs, heads: seq<Mkfs.Head>, i: nat): (d: LinkSpec.Inode)
    requires Readable(fs, heads) && i < |fs.inodes|
  {
    LinkSpec.Inode(KindOf(heads[i].kind), heads[i].nlink,
                   if heads[i].kind == Mkfs.T_DIR then EntriesOf(BytesOf(fs, i)) else [])
  }

  // ------------------------------------------------------------------
  // What mkfs wrote is read back

  /** A name as the arguments of a program have it: characters of one byte, and no NUL. */
  ghost predicate CString(s: string) { forall i :: 0 <= i < |s| ==> 0 < s[i] as int < 256 }

  lemma CharBack(c: char)
    requires 0 < c as int < 256
    ensures var b := (c as int % 256) as Byte; b != 0 && (b as int) as char == c
  {
    NumberBack(c as int);
  }

  lemma NumberBack(n: nat)
    requires n < 256
    ensures (n as Byte) as int == n && (n > 0 ==> n as Byte != 0)
  {
  }

  lemma {:induction false} NameBack(s: string, n: nat)
    requires CString(s)
    ensures NameOf(Mkfs.AsBytes(s) + seq(n, _ => 0 as Byte)) == s
  {
    var b := Mkfs.AsBytes(s) + seq(n, _ => 0 as Byte);
    if s != "" {
      NameBack(s[1..], n);
      assert Mkfs.AsBytes(s)[1..] == Mkfs.AsBytes(s[1..]);
      assert b[1..] == Mkfs.AsBytes(s[1..]) + seq(n, _ => 0 as Byte);
      CharBack(s[0]);
    }
  }

  lemma EntryBack(inum: nat, name: string)
    requires inum < 0x1_0000 && CString(name)
    ensures EntryOf(Mkfs.Dirent(inum, name)) == LinkSpec.Entry(inum, LinkSpec.Cut(name))
  {
    hide NameOf, Mkfs.AsBytes;
    var n := name[..Least(|name|, DIRSIZ)];
    var e := Mkfs.Dirent(inum, name);
    NumberBack(inum % 256);
    NumberBack(inum / 256 % 256);
    assert e[2..] == Mkfs.AsBytes(n) + seq(DIRSIZ - |n|, _ => 0 as Byte);
    NameBack(n, DIRSIZ - |n|);
  }

  lemma NoEntry(b: seq<Byte>)
    requires |b| == Mkfs.DIRENT && forall k :: 0 <= k < |b| ==> b[k] == 0
    ensures EntryOf(b) == LinkSpec.Entry(0, "")
  {
  }

  /** The k-th entry that main wrote. */
  ghost function Written(names: seq<string>, k: nat): (b: seq<Byte>)
    requires k < 2 + |names|
    ensures |b| == Mkfs.DIRENT
  {
    if k == 0 then Mkfs.Dirent(ROOTINO, DOT)
    else if k == 1 then Mkfs.Dirent(ROOTINO, DOTDOT)
    else Mkfs.Dirent(k, names[k - 2])
  }

  lemma {:induction false} EntryInRoot(names: seq<string>, n: nat, k: nat)
    requires n <= |names| && k < 2 + n
    ensures Mkfs.RootBytes(names, n)[k * Mkfs.DIRENT..(k + 1) * Mkfs.DIRENT] == Written(names, k)
  {
    hide Mkfs.Dirent;
    if n > 0 && k < 1 + n {
      EntryInRoot(names, n - 1, k);
      var r := Mkfs.RootBytes(names, n - 1);
      assert Mkfs.RootBytes(names, n) == r + Mkfs.Dirent(ROOTINO + n, names[n - 1]);
      var lo, hi := k * Mkfs.DIRENT, (k + 1) * Mkfs.DIRENT;
      assert Mkfs.RootBytes(names, n)[lo..hi] == r[lo..hi];
    }
  }

  /** The bytes of the finished root directory are the entries that main wrote, then zeros. */
  lemma RootPart(fs: FsSpec.Fs, names: seq<string>, files: seq<seq<Byte>>, k: nat)
    requires |names| == |files| && Mkfs.Complete(fs, names, files) && fs.inodes[ROOTINO].size <= FsSpec.REACH * BSIZE
    requires k < fs.inodes[ROOTINO].size / Mkfs.DIRENT
    ensures var part := BytesOf(fs, ROOTINO)[k * Mkfs.DIRENT..(k + 1) * Mkfs.DIRENT];
            if k < 2 + |names| then part == Written(names, k) else forall t :: 0 <= t < |part| ==> part[t] == 0
  {
    hide Mkfs.Dirent, Mkfs.RootBytes, FileSpec.ByteOf, Written;
    var lo, hi := k * Mkfs.DIRENT, (k + 1) * Mkfs.DIRENT;
    var part := BytesOf(fs, ROOTINO)[lo..hi];
    if k < 2 + |names| {
      var root := Mkfs.RootBytes(names, |names|);
      forall t | 0 <= t < Mkfs.DIRENT ensures part[t] == root[lo..hi][t] {
        assert FileSpec.ReadAt(fs, ROOTINO, 0, root, lo + t);
      }
      assert part == root[lo..hi];
      EntryInRoot(names, |names|, k);
    } else {
      forall t | 0 <= t < Mkfs.DIRENT ensures part[t] == 0 {
        BelowReach(lo + t);
        assert Mkfs.EndAt(fs, ROOTINO, Mkfs.DIRENT * (2 + |files|), lo + t);
      }
    }
  }

  /** Every entry of the finished root directory, up to its rounded end. */
  lemma RootEntry(fs: FsSpec.Fs, names: seq<string>, files: seq<seq<Byte>>, k: nat)
    requires |names| == |files| && Mkfs.Complete(fs, names, files) && 2 + |files| <= 0x1_0000
    requires (forall j :: 0 <= j < |names| ==> CString(names[j])) && fs.inodes[ROOTINO].size <= FsSpec.REACH * BSIZE
    requires k < fs.inodes[ROOTINO].size / Mkfs.DIRENT
    ensures var e := EntriesOf(BytesOf(fs, ROOTINO)); LinkSpec.FirstEntryAt(e, names, k)
  {
    hide LinkSpec.Cut, EntryOf, BytesOf, FileSpec.Reads, Mkfs.EndsAt, Mkfs.HoldsAt, Mkfs.Dirent;
    RootPart(fs, names, files, k);
    if k < 2 + |names| {
      DotsAreStrings();
      EntryBack(if k < 2 then ROOTINO else k, if k == 0 then DOT else if k == 1 then DOTDOT else names[k - 2]);
      LinkSpec.CutDots();
    } else {
      NoEntry(BytesOf(fs, ROOTINO)[k * Mkfs.DIRENT..(k + 1) * Mkfs.DIRENT]);
    }
  }

  lemma DotsAreStrings()
    ensures CString(DOT) && CString(DOTDOT)
  {
  }

  /**
   A disk that mkfs has finished with all its files has right link counts, if
   and only if the names of the files are good: mkfs does not look at them.
   */
  lemma ImageLinks(fs: FsSpec.Fs, heads: seq<Mkfs.Head>, names: seq<string>, files: seq<seq<Byte>>)
    requires |names| == |files| && Mkfs.Complete(fs, names, files) && 2 + |files| <= 0x1_0000
    requires (forall j :: 0 <= j < |names| ==> CString(names[j])) && |fs.inodes| <= |heads|
    requires heads == Mkfs.Kinds(|files|, |heads|)
    ensures Readable(fs, heads) && (LinksOf(fs, heads).Valid() <==> LinkSpec.GoodNames(names))
  {
    hide Mkfs.Kinds, LinkSpec.GoodNames, EntriesOf, LinkSpec.FirstEntryAt, LinkSpec.Fs.Valid;
    RootShort(2 + |files|);
    var f := LinksOf(fs, heads);
    forall i | 0 <= i < |f.inodes| ensures LinkSpec.FirstInodeAt(f, names, i) {
      assert f.inodes[i] == InodeAt(fs, heads, i);
    }
    assert f.inodes[ROOTINO] == InodeAt(fs, heads, ROOTINO);
    forall k | 0 <= k < |f.inodes[ROOTINO].ents| ensures LinkSpec.FirstEntryAt(f.inodes[ROOTINO].ents, names, k) {
      RootEntry(fs, names, files, k);
    }
    LinkSpec.FirstDiskValid(f, names);
  }

  /** The root of a disk with 16-bit inode numbers is far from too long, and has room for its entries. */
  lemma RootShort(n: nat)
    requires n <= 0x1_0000
    ensures var size := (Mkfs.DIRENT * n / BSIZE + 1) * BSIZE;
            size <= FsSpec.REACH * BSIZE && n <= size / Mkfs.DIRENT
  {
  }

  /** mkfs with its own sizes: the disk it finishes with all its files, and the directories the kernel finds on it. */
  method MakeDirectories(names: seq<string>, files: seq<seq<Byte>>)
      returns (r: Mkfs.Result, image: Mkfs.Image, ghost f: LinkSpec.Fs)
    requires |names| == |files| && forall j :: 0 <= j < |names| ==> CString(names[j])
    ensures r.Built? <==> Mkfs.NMETA + Mkfs.Need(files) <= Mkfs.FSSIZE && 2 + |files| <= 2 * IPB
    ensures r.Built? && 2 + |files| <= IPB ==>
              && image.Sized() && Readable(image.Disk(r.bits), image.heads)
              && f == LinksOf(image.Disk(r.bits), image.heads)
              && (f.Valid() <==> LinkSpec.GoodNames(names))
  {
    hide Mkfs.Complete, Mkfs.Need, LinkSpec.GoodNames, Readable, LinkSpec.Fs.Valid, Mkfs.Image.KeepsAll;
    hide Mkfs.Image.KeepsThose;
    hide FsSpec.Fs.Owned, FsSpec.Fs.HoleFree;
    f := LinkSpec.Fs([], []);
    r, image := Mkfs.MakeDisk(names, files);
    if r.Built? && 2 + |files| <= IPB {
      ImageLinks(image.Disk(r.bits), image.heads, names, files);
      f := LinksOf(image.Disk(r.bits), image.heads);
    }
  }
}
