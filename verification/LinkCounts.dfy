/**
 The operations of kernel/sysfile.c and kernel/fs.c on directories: dirlookup,
 dirlink, ialloc, create, the two halves of sys_link, sys_unlink and iput.
 Paths have been resolved: an operation gets the directory and the last name.
 */
module LinkCounts {
  import opened Common
  import opened LinkSpec

  /** create: an existing file, a new inode, a refusal, or ialloc's panic. */
  datatype Creation = Existing(ip: nat) | Made(ip: nat) | Refused | NoInodes

  class Directories {
    const ninodes: nat
    var inodes: seq<Inode>
    ghost var pend: seq<nat>

    ghost function S(): (f: Fs)
      reads this
    {
      Fs(inodes, pend)
    }

    /** The kernel takes over a disk with right counts; its super block says how many inodes ialloc may use. */
    constructor (f: Fs, ninodes: nat)
      requires f.Valid() && 0 < ninodes <= |f.inodes|
      ensures S() == f && this.ninodes == ninodes
    {
      this.ninodes, inodes, pend := ninodes, f.inodes, f.pend;
    }

    /** dirlookup: the first entry with the name, as far as names are kept. */
    method DirLookup(dp: nat, name: string) returns (inum: nat, slot: nat)
      requires dp < |inodes|
      ensures inum == 0 ==> S().Fresh(dp, Cut(name))
      ensures inum != 0 ==> slot < |inodes[dp].ents| && inodes[dp].ents[slot] == Entry(inum, Cut(name))
    {
      var e := inodes[dp].ents;
      slot := 0;
      while slot < |e|
        invariant slot <= |e| && forall k :: 0 <= k < slot && e[k].inum != 0 ==> e[k].name != Cut(name)
      {
        if e[slot].inum != 0 && e[slot].name == Cut(name) {
          return e[slot].inum, slot;
        }
        slot := slot + 1;
      }
      inum := 0;
    }

    /** dirlink: into the first free entry or a new one, unless the name is taken. */
    method DirLink(dp: nat, name: string, inum: nat) returns (ok: bool, ghost k: nat)
      requires dp < |inodes|
      modifies `inodes
      ensures ok <==> old(S()).Fresh(dp, Cut(name))
      ensures !ok ==> inodes == old(inodes)
      ensures ok ==>
                && k <= |old(inodes)[dp].ents| && (k < |old(inodes)[dp].ents| ==> old(inodes)[dp].ents[k].inum == 0)
                && (forall j :: 0 <= j < k ==> old(inodes)[dp].ents[j].inum != 0)
                && S() == old(S()).WithEntry(dp, k, Entry(inum, Cut(name)))
    {
      var found, slot := DirLookup(dp, name);
      k := 0;
      if found != 0 {
        return false, 0;
      }
      var e, off := inodes[dp].ents, 0;
      while off < |e| && e[off].inum != 0
        invariant 0 <= off <= |e| && forall j :: 0 <= j < off ==> e[j].inum != 0
      {
        off := off + 1;
      }
      k := off;
      e := if off < |e| then e[off := Entry(inum, Cut(name))] else e + [Entry(inum, Cut(name))];
      inodes := inodes[dp := inodes[dp].(ents := e)];
      ok := true;
    }

    /** ialloc: the first free inode; 0 stands for its panic. */
    method Ialloc() returns (i: nat)
      requires 0 < ninodes <= |inodes|
      ensures i < ninodes && (i != 0 ==> inodes[i].kind == Free)
      ensures forall j :: 0 < j < (if i == 0 then ninodes else i) ==> inodes[j].kind != Free
    {
      i := 1;
      while i < ninodes
        invariant 1 <= i && forall j :: 0 < j < i && j < ninodes ==> inodes[j].kind != Free
      {
        if inodes[i].kind == Free {
          return;
        }
        i := i + 1;
      }
      i := 0;
    }

    /** A new file or device with its name. */
    method MakeFile(dp: nat, name: string, kind: Kind, i: nat) returns (ghost k: nat)
      requires S().Valid() && dp < |inodes| && inodes[dp].kind == Dir && S().Fresh(dp, Cut(name))
      requires (kind == File || kind == Device) && 0 < i < |inodes| && inodes[i].kind == Free
      modifies `inodes, `pend
      ensures S().Valid() <==> old(S()).Linked(dp)
      ensures old(S()).Born(i, kind).Vacant(dp, k)
      ensures S() == old(S()).Born(i, kind).Entered(dp, k, i, Cut(name))
      ensures old(S()).Creates(S(), dp, Cut(name), i, kind)
    {
      hide Fs.Creates;
      ghost var f := S();
      f.BornKeeps(i, kind);
      f.FreeUnnamed(i);
      assert f.PendAt(i);
      inodes, pend := inodes[i := Inode(kind, 1, [])], pend[i := 1];
      ghost var f1 := S();
      assert f1 == f.Born(i, kind);
      var ok;
      ok, k := DirLink(dp, name, i);
      f1.FirstFree(dp, k);
      f1.EnteredNeedsLinked(dp, k, i, Cut(name));
      pend := pend[i := pend[i] - 1];
      assert S() == f1.Entered(dp, k, i, Cut(name));
      f.BornCreates(dp, k, i, Cut(name), kind);
    }

    /** mkdir's dots in a directory without entries. */
    method MakeDots(i: nat, dp: nat)
      requires 0 < i < |inodes| && inodes[i].ents == []
      modifies `inodes
      ensures inodes == old(inodes)[i := old(inodes)[i].(ents := [Entry(i, DOT), Entry(dp, DOTDOT)])]
    {
      hide Cut;
      var ok;
      ghost var k;
      CutDots();
      ok, k := DirLink(i, DOT, i);
      assert inodes[i].ents == [Entry(i, DOT)];
      ok, k := DirLink(i, DOTDOT, dp);
      assert inodes[i].ents == [Entry(i, DOT), Entry(dp, DOTDOT)];
    }

    /** A new directory with its dots and its name. */
    method MakeDir(dp: nat, name: string, i: nat) returns (ghost k: nat)
      requires S().Valid() && dp < |inodes| && inodes[dp].kind == Dir && S().Fresh(dp, Cut(name))
      requires 0 < i < |inodes| && inodes[i].kind == Free
      modifies `inodes
      ensures S().Valid() <==> old(S()).Linked(dp)
      ensures old(S()).Vacant(dp, k) && i != dp && S() == old(S()).MadeDir(dp, k, i, Cut(name))
      ensures old(S()).Creates(S(), dp, Cut(name), i, Dir)
    {
      hide Fs.Valid, Fs.WithEntry, Cut, Fs.Creates;
      NoneAtZero(S());
      ghost var f := S();
      f.FreeUnnamed(i);
      inodes := inodes[i := Inode(Dir, 1, [])];
      inodes := inodes[dp := inodes[dp].(nlink := inodes[dp].nlink + 1)];
      MakeDots(i, dp);
      assert inodes == f.inodes[i := Inode(Dir, 1, [Entry(i, DOT), Entry(dp, DOTDOT)])]
                               [dp := f.inodes[dp].(nlink := f.inodes[dp].nlink + 1)];
      assert inodes[dp].ents == f.inodes[dp].ents;
      var ok;
      ok, k := DirLink(dp, name, i);
      f.FirstFree(dp, k);
      f.MadeDirNeedsLinked(dp, k, i, Cut(name));
      f.MadeDirCreates(dp, k, i, Cut(name));
    }

    /** create in any directory: the counts stay right exactly if a new name does not go to an unlinked one. */
    method Create(dp: nat, name: string, kind: Kind) returns (r: Creation, ghost k: nat)
      requires S().Valid() && dp < |inodes| && inodes[dp].kind == Dir && kind != Free && 0 < ninodes <= |inodes|
      modifies `inodes, `pend
      ensures S().Valid() <==> old(S()).Linked(dp) || !r.Made?
      ensures !r.Made? ==> S() == old(S())
      ensures r.Made? <==> old(S()).Fresh(dp, Cut(name)) && !r.NoInodes?
      ensures r.NoInodes? ==> forall j :: 0 < j < ninodes ==> inodes[j].kind != Free
      ensures r.Made? ==> 0 < r.ip < |old(inodes)| && old(inodes)[r.ip].kind == Free && r.ip != dp
      ensures r.Made? ==> old(S()).Creates(S(), dp, Cut(name), r.ip, kind)
      ensures r.Existing? || r.Refused? ==>
                && k < |inodes[dp].ents| && inodes[dp].ents[k].name == Cut(name)
                && 0 < inodes[dp].ents[k].inum < |inodes|
                && var ip := inodes[dp].ents[k].inum;
                   var opens := kind == File && (inodes[ip].kind == File || inodes[ip].kind == Device);
                   r == if opens then Existing(ip) else Refused
    {
      hide Fs.Shape, Fs.CountAt, Fs.Creates;
      var ip, slot := DirLookup(dp, name);
      if ip != 0 {
        S().EntryExists(dp, slot);
        if kind == File && (inodes[ip].kind == File || inodes[ip].kind == Device) {
          return Existing(ip), slot;
        }
        return Refused, slot;
      }
      ip := Ialloc();
      if ip == 0 {
        return NoInodes, 0;
      }
      S().FreeUnnamed(ip);
      if kind == Dir {
        k := MakeDir(dp, name, ip);
      } else {
        k := MakeFile(dp, name, kind, ip);
      }
      r := Made(ip);
    }

    /** sys_link up to the lookup of the new name: a link is promised to anything but a directory. */
    method LinkBegin(ip: nat) returns (ok: bool)
      requires S().Valid() && ip < |inodes| && inodes[ip].kind != Free
      modifies `inodes, `pend
      ensures S().Valid() && ok == (old(inodes)[ip].kind != Dir)
      ensures S() == if ok then old(S()).Counted(ip, old(inodes)[ip].nlink + 1, old(pend)[ip] + 1) else old(S())
      ensures ok ==>
                && inodes == old(inodes)[ip := old(inodes)[ip].(nlink := old(inodes)[ip].nlink + 1)]
                && pend == old(pend)[ip := old(pend)[ip] + 1]
    {
      ok := inodes[ip].kind != Dir;
      if ok {
        ghost var f := S();
        f.CountedKeeps(ip, inodes[ip].nlink + 1, pend[ip] + 1);
        inodes := inodes[ip := inodes[ip].(nlink := inodes[ip].nlink + 1)];
        pend := pend[ip := pend[ip] + 1];
        assert S() == f.Counted(ip, f.inodes[ip].nlink + 1, f.pend[ip] + 1);
      }
    }

    /** The rest of sys_link: the name is entered, or the promise taken back. */
    method LinkEnd(found: bool, dp: nat, name: string, ip: nat) returns (ok: bool, ghost k: nat)
      requires S().Valid() && ip < |inodes| && pend[ip] > 0 && (found ==> dp < |inodes| && inodes[dp].kind == Dir)
      modifies `inodes, `pend
      ensures S().Valid() <==> old(S()).Linked(dp) || !ok
      ensures ok == (found && old(S()).Fresh(dp, Cut(name)))
      ensures ok ==> old(S()).Enters(S(), dp, Cut(name), ip)
      ensures !ok ==> inodes == old(inodes)[ip := old(inodes)[ip].(nlink := old(inodes)[ip].nlink - 1)]
      ensures pend == old(pend)[ip := old(pend)[ip] - 1]
    {
      hide Fs.Enters;
      ghost var f := S();
      assert f.PendAt(ip) && f.PendAt(0);
      ok, k := false, 0;
      if found {
        ok, k := DirLink(dp, name, ip);
      }
      if ok {
        f.FirstFree(dp, k);
        f.EnteredNeedsLinked(dp, k, ip, Cut(name));
        pend := pend[ip := pend[ip] - 1];
        assert S() == f.Entered(dp, k, ip, Cut(name));
        f.EnteredEnters(dp, k, ip, Cut(name));
      } else {
        f.CountedKeeps(ip, inodes[ip].nlink - 1, pend[ip] - 1);
        inodes := inodes[ip := inodes[ip].(nlink := inodes[ip].nlink - 1)];
        pend := pend[ip := pend[ip] - 1];
        assert S() == f.Counted(ip, f.inodes[ip].nlink - 1, f.pend[ip] - 1);
      }
    }

    /** sys_link with nothing in between: the name and its link, or nothing at all. */
    method Link(ip: nat, found: bool, dp: nat, name: string) returns (ok: bool)
      requires S().Valid() && ip < |inodes| && inodes[ip].kind != Free
      requires found ==> dp < |inodes| && inodes[dp].kind == Dir
      modifies `inodes, `pend
      ensures ok <==> old(inodes)[ip].kind != Dir && found && old(S()).Fresh(dp, Cut(name))
      ensures S().Valid() <==> old(S()).Linked(dp) || !ok
      ensures !ok ==> S() == old(S())
      ensures ok ==>
                && pend == old(pend)
                && old(S()).(inodes := old(inodes)[ip := old(inodes)[ip].(nlink := old(inodes)[ip].nlink + 1)])
                           .Enters(S(), dp, Cut(name), ip)
    {
      hide Fs.Valid, Fs.Lists;
      NoneAtZero(S());
      ok := LinkBegin(ip);
      if ok {
        ghost var f, k := S(), 0;
        ok, k := LinkEnd(found, dp, name, ip);
        assert pend == old(pend);
        assert !ok ==> inodes == old(inodes);
        if ok {
          f.EntersPend(S(), old(pend), dp, Cut(name), ip);
        }
      }
    }

    /** isdirempty: nothing behind the dots. */
    method IsDirEmpty(i: nat) returns (empty: bool)
      requires i < |inodes| && inodes[i].kind == Dir
      ensures empty <==> S().EmptyDir(i)
    {
      var off := 2;
      while off < |inodes[i].ents|
        invariant 2 <= off && forall j :: 2 <= j < off && j < |inodes[i].ents| ==> inodes[i].ents[j].inum == 0
      {
        if inodes[i].ents[off].inum != 0 {
          return false;
        }
        off := off + 1;
      }
      empty := true;
    }

    /** sys_unlink: the name goes, and with it a link; a directory must be empty. */
    method Unlink(dp: nat, name: string) returns (ok: bool, ghost k: nat, i: nat)
      requires S().Valid() && dp < |inodes| && inodes[dp].kind == Dir
      modifies `inodes
      ensures S().Valid()
      ensures !ok ==>
                && S() == old(S())
                && (Cut(name) == DOT || Cut(name) == DOTDOT || old(S()).Fresh(dp, Cut(name))
                    || (old(S()).NamedAt(dp, k, i) && inodes[dp].ents[k].name == Cut(name)
                        && i < |inodes| && inodes[i].kind == Dir && !old(S()).EmptyDir(i)))
      ensures ok ==>
                && k >= 2 && old(S()).NamedAt(dp, k, i) && i < |old(inodes)|
                && old(inodes)[dp].ents[k].name == Cut(name)
                && (old(inodes)[i].kind == Dir ==> old(S()).EmptyDir(i))
      ensures ok ==> i != dp && old(inodes)[i].kind != Free && old(S()).Unlinks(S(), dp, Cut(name), i)
    {
      hide Fs.Unlinks;
      ghost var f := S();
      k, i := 0, 0;
      if Cut(name) == DOT || Cut(name) == DOTDOT {
        return false, 0, 0;
      }
      var ip, slot := DirLookup(dp, name);
      if ip == 0 {
        return false, 0, 0;
      }
      k, i := slot, ip;
      assert f.DirAt(dp) && f.EmptiedAt(dp);
      assert f.NamedAt(dp, slot, ip) && f.NameAt(dp, slot, ip);
      f.NamedHasLinks(dp, slot, ip);
      if inodes[ip].kind == Dir {
        var empty := IsDirEmpty(ip);
        if !empty {
          return false, k, i;
        }
        RemoveDir(dp, slot, ip);
      } else {
        RemoveFile(dp, slot, ip);
      }
      ok := true;
    }

    method RemoveDir(dp: nat, slot: nat, ip: nat)
      requires S().Valid() && S().NamedAt(dp, slot, ip) && slot >= 2 && S().EmptyDir(ip)
      modifies `inodes
      ensures S().Valid() && ip < |inodes| && ip != dp && old(S()).Unlinks(S(), dp, old(inodes)[dp].ents[slot].name, ip)
    {
      hide Fs.Unlinks;
      ghost var f := S();
      f.RemovedKeeps(dp, slot, ip);
      f.HolderStaysLinked(dp, slot, ip);
      inodes := inodes[dp := inodes[dp].(ents := inodes[dp].ents[slot := Entry(0, "")])];
      inodes := inodes[dp := inodes[dp].(nlink := inodes[dp].nlink - 1)];
      inodes := inodes[ip := inodes[ip].(nlink := inodes[ip].nlink - 1)];
      assert S() == f.Removed(dp, slot, ip);
      f.RemovedUnlinks(dp, slot, ip);
    }

    method RemoveFile(dp: nat, slot: nat, ip: nat)
      requires S().Valid() && S().NamedAt(dp, slot, ip) && slot >= 2 && ip < |inodes| && inodes[ip].kind != Dir
      modifies `inodes
      ensures S().Valid() && old(S()).Unlinks(S(), dp, old(inodes)[dp].ents[slot].name, ip)
    {
      hide Fs.Unlinks;
      ghost var f := S();
      f.LeftKeeps(dp, slot, ip);
      ghost var g := f.Left(dp, slot);
      assert f.NameAt(dp, slot, ip);
      g.CountedKeeps(ip, f.inodes[ip].nlink - 1, f.pend[ip]);
      inodes := inodes[dp := inodes[dp].(ents := inodes[dp].ents[slot := Entry(0, "")])];
      inodes := inodes[ip := inodes[ip].(nlink := inodes[ip].nlink - 1)];
      assert S() == g.Counted(ip, f.inodes[ip].nlink - 1, f.pend[ip]);
      f.LeftUnlinks(dp, slot, ip);
    }

    /** iput by the last holder frees an inode exactly if nothing links to it. */
    method Iput(i: nat, last: bool)
      requires S().Valid() && i < |inodes|
      modifies `inodes
      ensures S().Valid()
      ensures if last && old(inodes)[i].nlink == 0 then
                && old(S()).Names(i) == {} && inodes[i] == Inode(Free, 0, []) && |inodes| == |old(inodes)|
                && forall j :: 0 <= j < |inodes| && j != i ==> inodes[j] == old(inodes)[j]
              else inodes == old(inodes)
    {
      if last && inodes[i].nlink == 0 {
        S().FreedKeeps(i);
        inodes := inodes[i := Inode(Free, 0, [])];
        assert S() == old(S()).Freed(i);
      }
    }

    /**
     sys_unlink with its iput, and the next ialloc: the last name of an inode
     that nobody else holds makes it free, and ialloc may give it out again.
     */
    method UnlinkLast(dp: nat, name: string, last: bool) returns (ok: bool, i: nat, free: nat)
      requires S().Valid() && dp < |inodes| && inodes[dp].kind == Dir && 0 < ninodes <= |inodes|
      modifies `inodes
      ensures S().Valid() && |inodes| == |old(inodes)| && (!ok ==> inodes == old(inodes))
      ensures ok ==>
                && i < |inodes| && old(S()).Lists(dp, Cut(name), i)
                && (inodes[i].kind == Free <==> last && old(inodes)[i].nlink == 1)
                && (inodes[i].kind == Free && i < ninodes ==> 0 < free <= i && inodes[free].kind == Free)
    {
      hide Fs.Valid;
      ghost var k;
      ok, k, i := Unlink(dp, name);
      if ok {
        Iput(i, last);
      }
      free := Ialloc();
    }
  }

  lemma NoneAtZero(f: Fs)
    requires f.Valid()
    ensures f.inodes[0].kind != Dir && |f.inodes| == |f.pend|
  {
  }

  /** A root, and in it a directory that is made and removed while a process is still in it. */
  lemma UnlinkedDirectory() returns (f: Fs)
    ensures f.Valid() && |f.inodes| == 5 && f.inodes[2].kind == Dir && !f.Linked(2)
    ensures f.Vacant(2, 2) && f.Fresh(2, "x") && f.inodes[3].kind == Free
  {
    var root := Inode(Dir, 1, [Entry(ROOTINO, DOT), Entry(ROOTINO, DOTDOT)]);
    var none := Inode(Free, 0, []);
    var f0 := Fs([none, root, none, none, none], [0, 0, 0, 0, 0]);
    assert FirstDisk(f0, []) && GoodNames([]);
    FirstDiskValid(f0, []);
    f0.MadeDirKeeps(1, 2, 2, "d");
    var f1 := f0.MadeDir(1, 2, 2, "d");
    assert f1.inodes[2] == Inode(Dir, 1, [Entry(2, DOT), Entry(1, DOTDOT)]);
    assert f1.NamedAt(1, 2, 2) && f1.EmptyDir(2);
    f1.RemovedKeeps(1, 2, 2);
    f := f1.Removed(1, 2, 2);
    assert f.inodes[2] == Inode(Dir, 0, [Entry(2, DOT), Entry(1, DOTDOT)]);
  }

  /** In such a directory sys_link, create of a file and mkdir all leave a count wrong. */
  lemma UnlinkedParentMiscounts() returns (f: Fs)
    ensures f.Valid() && |f.inodes| == 5 && 2 <= |f.inodes[2].ents|
    ensures f.Born(3, File).Valid() && !f.Born(3, File).Entered(2, 2, 3, "x").Valid()
    ensures !f.MadeDir(2, 2, 3, "x").Valid()
  {
    f := UnlinkedDirectory();
    f.BornKeeps(3, File);
    f.Born(3, File).EnteredNeedsLinked(2, 2, 3, "x");
    f.MadeDirNeedsLinked(2, 2, 3, "x");
  }
}
