/**
 The buffer cache of kernel/bio.c under any interleaving of processes.  Each
 method is one critical section (under bcache.lock, or while holding the
 buffer's sleep lock), so brelse is two of them.  `view` is the plain map from
 blocks to contents that the cache stands for: the last logged or written
 contents of each block.
 */
module BufferCache {
  import opened Common
  import opened BufferList
  import opened LogSpec
  import Sets

  datatype Key = Key(dev: nat, blockno: nat)
  datatype Buf = Buf(key: Key, valid: bool, refcnt: nat, data: Block)
  datatype SleepLock = Free | Held(pid: nat)
  datatype Found = NoBuffers | Got(b: nat)

  /**
   Everything but the list: buffers, their sleep locks, the processes waiting
   for each and those that have unlocked it but not yet given up their
   reference, the buffer in which the log pinned each logged block, the buffers
   being changed by their holders, the disk, and the map the cache stands for.
   */
  datatype Contents = Contents(bufs: seq<Buf>, locks: seq<SleepLock>, waiting: seq<set<nat>>,
                               leaving: seq<set<nat>>, logged: map<Key, nat>, dirty: set<nat>,
                               disk: map<Key, Block>, view: map<Key, Block>)
  {
    /** No block of a real device has two buffers; dev 0 marks buffers never used. */
    ghost predicate Unique() {
      forall i: nat, j: nat :: i < j < |bufs| ==> DifferAt(i, j)
    }

    ghost predicate DifferAt(i: nat, j: nat)
      requires i < |bufs| && j < |bufs|
    {
      bufs[i].key.dev != 0 ==> bufs[i].key != bufs[j].key
    }

    /** The buffer holds a logged block, and the log has pinned it. */
    ghost predicate Pinned(b: nat)
      requires b < |bufs|
    {
      bufs[b].key in logged && logged[bufs[b].key] == b
    }

    /** The processes that have a reference to the buffer. */
    ghost function Handles(b: nat): (n: nat)
      requires b < |locks| == |waiting| == |leaving|
    {
      |waiting[b]| + |leaving[b]| + if locks[b].Held? then 1 else 0
    }

    /** The processes waiting for, holding or leaving the buffer, plus the pin. */
    ghost function Users(b: nat): (n: nat)
      requires b < |bufs| == |locks| == |waiting| == |leaving|
    {
      Handles(b) + (if Pinned(b) then 1 else 0)
    }

    /** The reference count is right, and a buffer nobody changes holds what the map says. */
    ghost predicate BufAt(b: nat)
      requires b < |bufs| == |locks| == |waiting| == |leaving|
    {
      && bufs[b].refcnt == Users(b)
      && (b in dirty ==> locks[b].Held? && bufs[b].valid)
      && (bufs[b].valid && bufs[b].key.dev != 0 ==>
            bufs[b].key in view && (b !in dirty ==> bufs[b].data == view[bufs[b].key]))
    }

    /** Every logged block is, valid, in the buffer the log pinned. */
    ghost predicate PinAt(k: Key)
      requires k in logged
    {
      k.dev != 0 && logged[k] < |bufs| && bufs[logged[k]].key == k && bufs[logged[k]].valid
    }

    ghost predicate Consistent() {
      && |bufs| == |locks| == |waiting| == |leaving| && disk.Keys == view.Keys && Unique()
      && (forall b: nat :: b < |bufs| ==> BufAt(b))
      && (forall b: nat :: b in dirty ==> b < |bufs|)
      && (forall k :: k in logged ==> PinAt(k))
      && (forall k :: k in disk && k !in logged ==> view[k] == disk[k])
    }

    /** One buffer's count, lock, waiters and leavers changed. */
    function Recounted(b: nat, r: nat, lock: SleepLock, w: set<nat>, v: set<nat>): (c: Contents)
      requires b < |bufs| == |locks| == |waiting| == |leaving|
    {
      this.(bufs := bufs[b := bufs[b].(refcnt := r)], locks := locks[b := lock],
            waiting := waiting[b := w], leaving := leaving[b := v])
    }

    lemma RecountKeeps(b: nat, r: nat, lock: SleepLock, w: set<nat>, v: set<nat>)
      requires Consistent() && b < |bufs| && (b in dirty ==> lock.Held?)
      requires r == |w| + |v| + (if lock.Held? then 1 else 0) + (if Pinned(b) then 1 else 0)
      ensures Recounted(b, r, lock, w, v).Consistent()
    {
      var c := Recounted(b, r, lock, w, v);
      forall i: nat, j: nat | i < j < |bufs| ensures c.DifferAt(i, j) {
        assert DifferAt(i, j);
      }
      forall i: nat | i < |bufs| ensures c.BufAt(i) {
        assert BufAt(i);
      }
      forall k | k in logged ensures c.PinAt(k) {
        assert PinAt(k);
      }
    }

    /** The count of a buffer, and what its holder may rely on. */
    lemma Counted(b: nat)
      requires Consistent() && b < |bufs|
      ensures |bufs| == |locks| == |waiting| == |leaving| && bufs[b].refcnt == Users(b)
      ensures b in dirty ==> locks[b].Held? && bufs[b].valid
      ensures bufs[b].valid && bufs[b].key.dev != 0 ==> bufs[b].key in view
      ensures bufs[b].valid && bufs[b].key.dev != 0 && b !in dirty ==> bufs[b].data == view[bufs[b].key]
    {
      assert BufAt(b);
    }

    /** A process that has let go of the lock gives up its reference. */
    lemma LeaveKeeps(b: nat, pid: nat)
      requires Consistent() && b < |bufs| && b < |leaving| && pid in leaving[b]
      ensures bufs[b].refcnt > 0
      ensures this.(bufs := bufs[b := bufs[b].(refcnt := bufs[b].refcnt - 1)],
                    leaving := leaving[b := leaving[b] - {pid}]).Consistent()
    {
      Counted(b);
      RecountKeeps(b, bufs[b].refcnt - 1, locks[b], waiting[b], leaving[b] - {pid});
      assert waiting[b := waiting[b]] == waiting && locks[b := locks[b]] == locks;
    }

    /** A logged block is in no buffer but the pinned one. */
    lemma OnlyOne(b: nat)
      requires Consistent() && b < |bufs| && bufs[b].key in logged
      ensures logged[bufs[b].key] == b && bufs[b].valid
    {
      assert PinAt(bufs[b].key);
      var p := logged[bufs[b].key];
      assert p < b ==> DifferAt(p, b);
      assert b < p ==> DifferAt(b, p);
    }

    /** Reading an invalid buffer of a block that is not logged. */
    lemma FillKeeps(b: nat)
      requires Consistent() && b < |bufs| && !bufs[b].valid && bufs[b].key in disk
      ensures bufs[b].key !in logged && view[bufs[b].key] == disk[bufs[b].key]
      ensures this.(bufs := bufs[b := bufs[b].(valid := true, data := disk[bufs[b].key])]).Consistent()
    {
      var c := this.(bufs := bufs[b := bufs[b].(valid := true, data := disk[bufs[b].key])]);
      assert BufAt(b);
      if bufs[b].key in logged {
        OnlyOne(b);
      }
      KeepsAll(c, b);
    }

    lemma ModifyKeeps(b: nat, data: Block)
      requires Consistent() && b < |bufs| && locks[b].Held? && bufs[b].valid
      ensures this.(bufs := bufs[b := bufs[b].(data := data)], dirty := dirty + {b}).Consistent()
    {
      assert BufAt(b);
      KeepsAll(this.(bufs := bufs[b := bufs[b].(data := data)], dirty := dirty + {b}), b);
    }

    lemma LogKeeps(b: nat, r: nat)
      requires Consistent() && b < |bufs| && locks[b].Held? && bufs[b].valid && bufs[b].key.dev != 0
      requires r == bufs[b].refcnt + if bufs[b].key in logged then 0 else 1
      ensures bufs[b].key in logged ==> Pinned(b)
      ensures this.(bufs := bufs[b := bufs[b].(refcnt := r)], dirty := dirty - {b},
                    view := view[bufs[b].key := bufs[b].data], logged := logged[bufs[b].key := b]).Consistent()
    {
      var key := bufs[b].key;
      assert BufAt(b);
      if key in logged {
        OnlyOne(b);
      }
      KeepsAll(this.(bufs := bufs[b := bufs[b].(refcnt := r)], dirty := dirty - {b},
                     view := view[key := bufs[b].data], logged := logged[key := b]), b);
    }

    lemma WriteKeeps(b: nat)
      requires Consistent() && b < |bufs| && locks[b].Held? && bufs[b].valid && bufs[b].key.dev != 0
      ensures this.(disk := disk[bufs[b].key := bufs[b].data], view := view[bufs[b].key := bufs[b].data],
                    dirty := dirty - {b}).Consistent()
    {
      assert BufAt(b);
      KeepsAll(this.(disk := disk[bufs[b].key := bufs[b].data], view := view[bufs[b].key := bufs[b].data],
                     dirty := dirty - {b}), b);
    }

    lemma UnpinKeeps(b: nat)
      requires Consistent() && b < |bufs| && locks[b].Held? && Pinned(b)
      requires bufs[b].key in disk && disk[bufs[b].key] == view[bufs[b].key]
      ensures bufs[b].refcnt > 1
      ensures var nb := bufs[b].(refcnt := bufs[b].refcnt - 1);
              this.(bufs := bufs[b := nb], logged := logged - {bufs[b].key}).Consistent()
    {
      assert BufAt(b);
      KeepsAll(this.(bufs := bufs[b := bufs[b].(refcnt := bufs[b].refcnt - 1)], logged := logged - {bufs[b].key}), b);
    }

    /** A change that concerns buffer b and its block only. */
    lemma KeepsAll(c: Contents, b: nat)
      requires Consistent() && b < |bufs|
      requires |c.bufs| == |bufs| && c.locks == locks && c.waiting == waiting && c.leaving == leaving
      requires c.disk.Keys == c.view.Keys
      requires c.bufs == bufs[b := c.bufs[b]] && c.bufs[b].key == bufs[b].key && c.dirty <= dirty + {b}
      requires dirty <= c.dirty + {b}
      requires forall k :: k in view && k != bufs[b].key ==> k in c.view && c.view[k] == view[k]
      requires forall k :: k in c.disk && k !in c.logged ==> c.view[k] == c.disk[k]
      requires forall k :: k != bufs[b].key ==>
                  (k in c.logged <==> k in logged) && (k in logged ==> c.logged[k] == logged[k])
      requires bufs[b].key in c.logged ==> c.PinAt(bufs[b].key)
      requires c.BufAt(b)
      ensures c.Consistent()
    {
      forall i: nat, j: nat | i < j < |bufs| ensures c.DifferAt(i, j) {
        assert DifferAt(i, j);
      }
      forall i: nat | i < |bufs| ensures c.BufAt(i) {
        assert BufAt(i);
        assert i < b ==> DifferAt(i, b);
        assert b < i ==> DifferAt(b, i);
      }
      forall k | k in c.logged ensures c.PinAt(k) {
        if k != bufs[b].key {
          assert PinAt(k);
        }
      }
    }

    /** Giving an unused buffer another block disturbs no other buffer. */
    lemma RecycleKeeps(b: nat, nb: Buf, w: set<nat>)
      requires Consistent() && b < |bufs| && bufs[b].refcnt == 0
      requires !nb.valid && nb.refcnt == 1 == |w|
      requires forall i :: 0 <= i < |bufs| ==> bufs[i].key != nb.key
      ensures this.(bufs := bufs[b := nb], waiting := waiting[b := w]).Consistent()
      ensures nb.key !in logged && !Pinned(b)
    {
      var c := this.(bufs := bufs[b := nb], waiting := waiting[b := w]);
      assert BufAt(b);
      forall i: nat, j: nat | i < j < |bufs| ensures c.DifferAt(i, j) {
        assert DifferAt(i, j);
      }
      forall k | k in logged ensures c.PinAt(k) && k != nb.key {
        assert PinAt(k);
      }
      forall i: nat | i < |bufs| ensures c.BufAt(i) {
        assert BufAt(i);
      }
    }
  }

  /** All references that processes have to the first n buffers. */
  ghost function AllHandles(c: Contents, n: nat): (h: nat)
    requires n <= |c.locks| == |c.waiting| == |c.leaving|
  {
    if n == 0 then 0 else AllHandles(c, n - 1) + c.Handles(n - 1)
  }

  /** The blocks pinned in the first n buffers. */
  ghost function PinnedBelow(c: Contents, n: nat): (s: set<Key>) { set k | k in c.logged && c.logged[k] < n }

  /** If the first n buffers are all in use, each has a pin or a process. */
  lemma {:induction false} InUse(c: Contents, n: nat)
    requires c.Consistent() && n <= |c.bufs| && forall b :: 0 <= b < n ==> c.bufs[b].refcnt > 0
    ensures n <= |PinnedBelow(c, n)| + AllHandles(c, n)
  {
    if n > 0 {
      InUse(c, n - 1);
      var b, k := n - 1, c.bufs[n - 1].key;
      assert c.BufAt(b);
      if c.Pinned(b) {
        assert PinnedBelow(c, n - 1) + {k} <= PinnedBelow(c, n);
        Sets.SubsetSize(PinnedBelow(c, n - 1) + {k}, PinnedBelow(c, n));
      } else {
        Sets.SubsetSize(PinnedBelow(c, n - 1), PinnedBelow(c, n));
      }
    }
  }

  /**
   bget's panic takes as many logged blocks and references together as there
   are buffers; while they are fewer it cannot happen.
   */
  lemma PanicNeeds(c: Contents)
    requires c.Consistent() && forall b :: 0 <= b < |c.bufs| ==> c.bufs[b].refcnt > 0
    ensures |c.bufs| <= |c.logged| + AllHandles(c, |c.bufs|)
  {
    InUse(c, |c.bufs|);
    assert PinnedBelow(c, |c.bufs|) <= c.logged.Keys;
    Sets.SubsetSize(PinnedBelow(c, |c.bufs|), c.logged.Keys);
  }

  /** Along the list, free buffers became free ever longer ago. */
  ghost predicate Lru(bufs: seq<Buf>, order: seq<nat>, stamp: seq<nat>, clock: nat) {
    && |stamp| == |bufs|
    && (forall b :: 0 <= b < |bufs| ==> stamp[b] < clock)
    && (forall i :: 0 <= i < |order| ==> order[i] < |bufs|)
    && forall i, j :: 0 <= i < j < |order| ==> NewerAt(bufs, order, stamp, i, j)
  }

  ghost predicate NewerAt(bufs: seq<Buf>, order: seq<nat>, stamp: seq<nat>, i: int, j: int)
    requires 0 <= i < |order| && 0 <= j < |order| && order[i] < |bufs| == |stamp| && order[j] < |bufs|
  {
    bufs[order[i]].refcnt == 0 && bufs[order[j]].refcnt == 0 ==> stamp[order[i]] > stamp[order[j]]
  }

  /** The free buffer nearest the tail is the one that became free longest ago. */
  lemma OldestFree(n: nat, bufs: seq<Buf>, order: seq<nat>, stamp: seq<nat>, clock: nat, i: nat, b: nat)
    requires Distinct(n, order) && |order| == n == |bufs| && Lru(bufs, order, stamp, clock)
    requires i < n && bufs[order[i]].refcnt == 0
    requires forall j :: i < j < n ==> bufs[order[j]].refcnt > 0
    requires b < n && bufs[b].refcnt == 0
    ensures stamp[order[i]] <= stamp[b]
  {
    Sets.Covers(n, order, b);
    var j :| 0 <= j < |order| && order[j] == b;
    assert j < i ==> NewerAt(bufs, order, stamp, j, i);
  }

  /** A buffer in use may stand anywhere in the list. */
  lemma BusyKeepsLru(bufs: seq<Buf>, order: seq<nat>, stamp: seq<nat>, clock: nat, b: nat, nb: Buf)
    requires Lru(bufs, order, stamp, clock) && b < |bufs| && nb.refcnt > 0
    ensures Lru(bufs[b := nb], order, stamp, clock)
  {
    var bufs' := bufs[b := nb];
    forall i, j | 0 <= i < j < |order| ensures NewerAt(bufs', order, stamp, i, j) {
      assert NewerAt(bufs, order, stamp, i, j);
    }
  }

  /** A buffer that becomes free goes to the front with the newest stamp. */
  lemma ReleaseKeepsLru(bufs: seq<Buf>, order: seq<nat>, stamp: seq<nat>, clock: nat, k: nat, nb: Buf)
    requires Lru(bufs, order, stamp, clock) && k < |order|
    requires forall i, j :: 0 <= i < j < |order| ==> order[i] != order[j]
    ensures var b := order[k];
            Lru(bufs[b := nb], [b] + Without(order, k), stamp[b := clock], clock + 1)
  {
    var b, order' := order[k], [order[k]] + Without(order, k);
    var bufs', stamp' := bufs[b := nb], stamp[b := clock];
    forall i, j | 0 <= i < j < |order'| ensures NewerAt(bufs', order', stamp', i, j) {
      var j0 := if j - 1 < k then j - 1 else j;
      assert order'[j] == order[j0];
      if i > 0 {
        var i0 := if i - 1 < k then i - 1 else i;
        assert order'[i] == order[i0];
        assert NewerAt(bufs, order, stamp, i0, j0);
      }
    }
  }

  lemma PositionOf(h: nat, next: seq<nat>, prev: seq<nat>, order: seq<nat>, b: nat) returns (k: nat)
    requires Linked(h, next, prev, order) && |order| == h && b < h
    ensures k < h && order[k] == b && forall i, j :: 0 <= i < j < |order| ==> order[i] != order[j]
  {
    hide ArcAt;
    Sets.Covers(h, order, b);
    k :| 0 <= k < h && order[k] == b;
  }

  class Cache {
    const nbuf: nat
    var bufs: seq<Buf>
    var next: seq<nat>
    var prev: seq<nat>
    var locks: seq<SleepLock>
    var disk: map<Key, Block>
    ghost var order: seq<nat>
    ghost var stamp: seq<nat>
    ghost var clock: nat
    ghost var waiting: seq<set<nat>>
    ghost var leaving: seq<set<nat>>
    ghost var logged: map<Key, nat>
    ghost var dirty: set<nat>
    ghost var view: map<Key, Block>

    ghost function C(): (c: Contents)
      reads this
    {
      Contents(bufs, locks, waiting, leaving, logged, dirty, disk, view)
    }

    ghost predicate Valid()
      reads this
    {
      && |bufs| == nbuf == |order| == |locks| == |waiting| == |leaving|
      && Linked(nbuf, next, prev, order)
      && Lru(bufs, order, stamp, clock)
      && C().Consistent()
    }

    /** binit: all buffers in one circular list, none in use. */
    constructor (nbuf: nat, disk: map<Key, Block>)
      ensures Valid() && this.nbuf == nbuf && this.disk == disk == view && logged == map[]
      ensures forall b :: 0 <= b < nbuf ==> bufs[b].refcnt == 0 && !bufs[b].valid && locks[b] == Free
    {
      var nx: seq<nat>, pv: seq<nat> := seq(nbuf + 1, _ => nbuf), seq(nbuf + 1, _ => nbuf);
      ghost var o: seq<nat> := [];
      var b: nat := 0;
      while b < nbuf
        invariant 0 <= b <= nbuf && Linked(nbuf, nx, pv, o) && |o| == b
        invariant forall i :: 0 <= i < b ==> o[i] == b - 1 - i
      {
        PushKeepsLinked(nbuf, nx, pv, o, b);
        nx, pv := nx[b := nx[nbuf]][nbuf := b], pv[b := nbuf][nx[nbuf] := b];
        o := [b] + o;
        b := b + 1;
      }
      this.nbuf, this.disk, this.view := nbuf, disk, disk;
      this.bufs := seq(nbuf, _ => Buf(Key(0, 0), false, 0, Block([])));
      this.next, this.prev, this.order := nx, pv, o;
      this.locks, this.waiting, this.leaving := seq(nbuf, _ => Free), seq(nbuf, _ => {}), seq(nbuf, _ => {});
      this.stamp, this.clock := seq(nbuf, i => i), nbuf;
      this.logged, this.dirty := map[], {};
    }

    /** bget's first loop: along next, looking for the block. */
    method FindCached(key: Key) returns (r: Found)
      requires Valid() && key.dev != 0
      ensures r.Got? ==> r.b < nbuf && bufs[r.b].key == key
      ensures r.NoBuffers? ==> forall b :: 0 <= b < nbuf ==> bufs[b].key != key
    {
      ghost var c := Circle(nbuf, order);
      ghost var i := 1;
      assert ArcAt(nbuf, next, prev, order, 0);
      var b := next[nbuf];
      while b != nbuf
        invariant 1 <= i <= nbuf + 1 && b == c[i]
        invariant forall j :: 0 <= j < i - 1 ==> bufs[order[j]].key != key
        decreases nbuf + 1 - i
      {
        if bufs[b].key == key {
          return Got(b);
        }
        assert ArcAt(nbuf, next, prev, order, i);
        b := next[b];
        i := i + 1;
      }
      forall b | 0 <= b < nbuf ensures bufs[b].key != key {
        Sets.Covers(nbuf, order, b);
        var j :| 0 <= j < |order| && order[j] == b;
      }
      return NoBuffers;
    }

    /** bget's second loop: along prev, looking for a buffer not in use. */
    method FindUnused() returns (r: Found)
      requires Valid()
      ensures r.Got? ==>
                && r.b < nbuf && bufs[r.b].refcnt == 0
                && forall b :: 0 <= b < nbuf && bufs[b].refcnt == 0 ==> stamp[r.b] <= stamp[b]
      ensures r.NoBuffers? ==> forall b :: 0 <= b < nbuf ==> bufs[b].refcnt > 0
    {
      ghost var c := Circle(nbuf, order);
      ghost var i := nbuf;
      assert ArcAt(nbuf, next, prev, order, nbuf);
      var b := prev[nbuf];
      while b != nbuf
        invariant 0 <= i <= nbuf && b == c[i]
        invariant forall j :: i <= j < nbuf ==> bufs[order[j]].refcnt > 0
        decreases i
      {
        if bufs[b].refcnt == 0 {
          forall b' | 0 <= b' < nbuf && bufs[b'].refcnt == 0 ensures stamp[b] <= stamp[b'] {
            OldestFree(nbuf, bufs, order, stamp, clock, i - 1, b');
          }
          return Got(b);
        }
        assert ArcAt(nbuf, next, prev, order, i - 1);
        b := prev[b];
        i := i - 1;
      }
      forall b | 0 <= b < nbuf ensures bufs[b].refcnt > 0 {
        Sets.Covers(nbuf, order, b);
        var j :| 0 <= j < |order| && order[j] == b;
      }
      return NoBuffers;
    }

    /**
     bget up to the point where it waits for the sleep lock: pid now has a
     reference.  A cached block is found in its own buffer; otherwise the
     recycled buffer is the one that became free longest ago.  NoBuffers is the
     kernel's panic, which happens exactly when every buffer is in use and none
     holds the block.
     */
    method Bget(key: Key, pid: nat) returns (r: Found)
      requires Valid() && key.dev != 0 && key in disk
      requires forall b :: 0 <= b < nbuf ==> pid !in waiting[b]
      modifies this`bufs, this`waiting
      ensures Valid()
      ensures r.NoBuffers? <==> forall b :: 0 <= b < nbuf ==> old(bufs)[b].key != key && old(bufs)[b].refcnt > 0
      ensures r.NoBuffers? ==> bufs == old(bufs) && waiting == old(waiting) && nbuf <= |logged| + AllHandles(C(), nbuf)
      ensures r.Got? ==> r.b < nbuf && waiting == old(waiting)[r.b := old(waiting)[r.b] + {pid}]
      ensures r.Got? ==>
                var was := old(bufs)[r.b];
                if was.key == key then bufs == old(bufs)[r.b := was.(refcnt := was.refcnt + 1)]
                else
                  && bufs == old(bufs)[r.b := Buf(key, false, 1, was.data)]
                  && (forall b :: 0 <= b < nbuf ==> old(bufs)[b].key != key)
                  && was.refcnt == 0
                  && forall b :: 0 <= b < nbuf && old(bufs)[b].refcnt == 0 ==> stamp[r.b] <= stamp[b]
    {
      hide Contents.Consistent, Linked, Lru;
      r := FindCached(key);
      if r.Got? {
        Reference(r.b, pid);
        return;
      }
      r := FindUnused();
      if r.Got? {
        Recycle(r.b, key, pid);
      } else {
        PanicNeeds(C());
      }
    }

    /** bget, block found: one more user of the buffer. */
    method Reference(b: nat, pid: nat)
      requires Valid() && b < nbuf && pid !in waiting[b]
      modifies this`bufs, this`waiting
      ensures Valid() && waiting == old(waiting)[b := old(waiting)[b] + {pid}]
      ensures bufs == old(bufs)[b := old(bufs)[b].(refcnt := old(bufs)[b].refcnt + 1)]
    {
      hide Contents.Consistent, Linked, Lru;
      ghost var nb := bufs[b].(refcnt := bufs[b].refcnt + 1);
      C().Counted(b);
      C().RecountKeeps(b, nb.refcnt, locks[b], waiting[b] + {pid}, leaving[b]);
      BusyKeepsLru(bufs, order, stamp, clock, b, nb);
      assert locks[b := locks[b]] == locks && leaving[b := leaving[b]] == leaving;
      bufs := bufs[b := bufs[b].(refcnt := bufs[b].refcnt + 1)];
      waiting := waiting[b := waiting[b] + {pid}];
    }

    /** bget, block not found: an unused buffer becomes the block's. */
    method Recycle(b: nat, key: Key, pid: nat)
      requires Valid() && b < nbuf && bufs[b].refcnt == 0
      requires forall i :: 0 <= i < nbuf ==> bufs[i].key != key
      modifies this`bufs, this`waiting
      ensures Valid() && waiting == old(waiting)[b := old(waiting)[b] + {pid}]
      ensures bufs == old(bufs)[b := Buf(key, false, 1, old(bufs)[b].data)]
    {
      hide Contents.Consistent, Linked, Lru;
      ghost var nb := Buf(key, false, 1, bufs[b].data);
      C().Counted(b);
      assert waiting[b] == {};
      C().RecycleKeeps(b, nb, waiting[b] + {pid});
      BusyKeepsLru(bufs, order, stamp, clock, b, nb);
      bufs := bufs[b := Buf(key, false, 1, bufs[b].data)];
      waiting := waiting[b := waiting[b] + {pid}];
    }

    /**
     acquiresleep at the end of bget, and bread's read if the buffer is not
     valid: whoever gets the lock sees the map's contents of the block.
     */
    method LockAndRead(b: nat, pid: nat)
      requires Valid() && b < nbuf && pid in waiting[b] && locks[b] == Free
      requires bufs[b].key.dev != 0 && bufs[b].key in disk
      modifies this`bufs, this`locks, this`waiting
      ensures Valid() && locks == old(locks)[b := Held(pid)]
      ensures waiting == old(waiting)[b := old(waiting)[b] - {pid}]
      ensures old(bufs)[b].key in view
      ensures bufs == old(bufs)[b := old(bufs)[b].(valid := true, data := view[old(bufs)[b].key])]
    {
      hide Contents.Consistent, Linked, Lru;
      ghost var c0 := C();
      c0.Counted(b);
      locks := locks[b := Held(pid)];
      waiting := waiting[b := waiting[b] - {pid}];
      c0.RecountKeeps(b, bufs[b].refcnt, Held(pid), waiting[b], leaving[b]);
      assert bufs[b := bufs[b].(refcnt := bufs[b].refcnt)] == bufs && leaving[b := leaving[b]] == leaving;
      if !bufs[b].valid {
        C().FillKeeps(b);
        BusyKeepsLru(bufs, order, stamp, clock, b, bufs[b].(valid := true, data := disk[bufs[b].key]));
        bufs := bufs[b := bufs[b].(valid := true, data := disk[bufs[b].key])];
      }
    }

    /** The holder changes the data of its buffer. */
    method Modify(b: nat, pid: nat, data: Block)
      requires Valid() && b < nbuf && locks[b] == Held(pid) && bufs[b].valid
      modifies this`bufs, this`dirty
      ensures Valid() && bufs == old(bufs)[b := old(bufs)[b].(data := data)] && dirty == old(dirty) + {b}
    {
      hide Contents.Consistent, Linked, Lru;
      C().Counted(b);
      C().ModifyKeeps(b, data);
      BusyKeepsLru(bufs, order, stamp, clock, b, bufs[b].(data := data));
      bufs := bufs[b := bufs[b].(data := data)];
      dirty := dirty + {b};
    }

    /**
     log_write by the holder: from now on the map holds the buffer's data, and
     the buffer is pinned, once, until the log installs the block.  `list` is
     the log's list of blocks.
     */
    method LogWrite(b: nat, pid: nat, list: seq<Key>)
      requires Valid() && forall k :: k in list <==> k in logged
      requires b < nbuf && locks[b] == Held(pid) && bufs[b].valid && bufs[b].key.dev != 0
      modifies this`bufs, this`dirty, this`view, this`logged
      ensures Valid() && dirty == old(dirty) - {b}
      ensures view == old(view)[bufs[b].key := bufs[b].data] && logged == old(logged)[bufs[b].key := b]
      ensures bufs == old(bufs)[b := old(bufs)[b].(refcnt := bufs[b].refcnt)]
      ensures bufs[b].refcnt == old(bufs)[b].refcnt + if bufs[b].key in old(logged) then 0 else 1
    {
      hide Contents.Consistent, Linked, Lru;
      ghost var key := bufs[b].key;
      C().Counted(b);
      ghost var nb := bufs[b].(refcnt := bufs[b].refcnt + if key in logged then 0 else 1);
      C().LogKeeps(b, nb.refcnt);
      BusyKeepsLru(bufs, order, stamp, clock, b, nb);
      var i := 0;
      while i < |list| && list[i] != bufs[b].key
        invariant 0 <= i <= |list| && bufs[b].key !in list[..i]
      {
        i := i + 1;
      }
      if i == |list| {
        bufs := bufs[b := bufs[b].(refcnt := bufs[b].refcnt + 1)];
      }
      logged, view, dirty := logged[key := b], view[key := bufs[b].data], dirty - {b};
      assert bufs == old(bufs)[b := nb];
    }

    /** bwrite by the holder: disk and map both hold the buffer's data. */
    method Bwrite(b: nat, pid: nat)
      requires Valid() && b < nbuf && locks[b] == Held(pid) && bufs[b].valid && bufs[b].key.dev != 0
      modifies this`disk, this`view, this`dirty
      ensures Valid() && dirty == old(dirty) - {b}
      ensures disk == old(disk)[bufs[b].key := bufs[b].data] && view == old(view)[bufs[b].key := bufs[b].data]
    {
      hide Contents.Consistent, Linked, Lru;
      C().Counted(b);
      C().WriteKeeps(b);
      disk := disk[bufs[b].key := bufs[b].data];
      view, dirty := view[bufs[b].key := bufs[b].data], dirty - {b};
    }

    /** bunpin, as install_trans calls it: the holder has just written the block home. */
    method Bunpin(b: nat, pid: nat)
      requires Valid() && b < nbuf && locks[b] == Held(pid) && C().Pinned(b)
      requires bufs[b].key in disk && disk[bufs[b].key] == view[bufs[b].key]
      modifies this`bufs, this`logged
      ensures Valid() && logged == old(logged) - {bufs[b].key}
      ensures bufs == old(bufs)[b := old(bufs)[b].(refcnt := bufs[b].refcnt)]
      ensures bufs[b].refcnt == old(bufs)[b].refcnt - 1 > 0
    {
      hide Contents.Consistent, Linked, Lru;
      C().Counted(b);
      C().UnpinKeeps(b);
      BusyKeepsLru(bufs, order, stamp, clock, b, bufs[b].(refcnt := bufs[b].refcnt - 1));
      logged := logged - {bufs[b].key};
      bufs := bufs[b := bufs[b].(refcnt := bufs[b].refcnt - 1)];
    }

    /** The first half of brelse: the sleep lock is given up, the reference not yet. */
    method ReleaseSleep(b: nat, pid: nat)
      requires Valid() && b < nbuf && locks[b] == Held(pid) && b !in dirty && pid !in leaving[b]
      modifies this`locks, this`leaving
      ensures Valid() && locks == old(locks)[b := Free] && leaving == old(leaving)[b := old(leaving)[b] + {pid}]
    {
      hide Contents.Consistent, Linked, Lru;
      C().Counted(b);
      ghost var c := C();
      c.RecountKeeps(b, bufs[b].refcnt, Free, waiting[b], leaving[b] + {pid});
      locks := locks[b := Free];
      leaving := leaving[b := leaving[b] + {pid}];
      assert bufs[b := bufs[b].(refcnt := bufs[b].refcnt)] == bufs && waiting[b := waiting[b]] == waiting;
    }

    /**
     The second half of brelse, under bcache.lock; others may have taken the
     buffer in between.  A buffer that nobody needs any more moves to the front
     of the list; otherwise the list stays as it is.
     */
    method DropReference(b: nat, pid: nat) returns (ghost k: nat)
      requires Valid() && b < nbuf && pid in leaving[b]
      modifies this`bufs, this`leaving, this`next, this`prev, this`order, this`stamp, this`clock
      ensures Valid() && leaving == old(leaving)[b := old(leaving)[b] - {pid}]
      ensures bufs == old(bufs)[b := old(bufs)[b].(refcnt := bufs[b].refcnt)]
      ensures bufs[b].refcnt == old(bufs)[b].refcnt - 1
      ensures bufs[b].refcnt > 0 ==> order == old(order)
      ensures bufs[b].refcnt == 0 ==> k < nbuf && old(order)[k] == b && order == [b] + Without(old(order), k)
    {
      hide Contents.Consistent, Linked, Lru, Without;
      C().LeaveKeeps(b, pid);
      ghost var nb := bufs[b].(refcnt := bufs[b].refcnt - 1);
      if bufs[b].refcnt == 1 {
        k := Retire(b, nb);
      } else {
        k := 0;
        BusyKeepsLru(bufs, order, stamp, clock, b, nb);
      }
      bufs := bufs[b := bufs[b].(refcnt := bufs[b].refcnt - 1)];
      leaving := leaving[b := leaving[b] - {pid}];
    }

    /** brelse's last user is gone: to the front of the list, with the newest stamp. */
    method Retire(b: nat, ghost nb: Buf) returns (ghost k: nat)
      requires Linked(nbuf, next, prev, order) && |order| == |bufs| == nbuf && b < nbuf
      requires Lru(bufs, order, stamp, clock)
      modifies this`next, this`prev, this`order, this`stamp, this`clock
      ensures Linked(nbuf, next, prev, order) && |order| == nbuf && Lru(bufs[b := nb], order, stamp, clock)
      ensures k < nbuf && old(order)[k] == b && order == [b] + Without(old(order), k)
    {
      hide NewerAt, Linked;
      k := PositionOf(nbuf, next, prev, order, b);
      MoveToFront(b, k);
      ReleaseKeepsLru(bufs, order, stamp, clock, k, nb);
      order := [b] + Without(order, k);
      stamp, clock := stamp[b := clock], clock + 1;
    }

    /** The six assignments with which brelse moves a buffer to the front. */
    method MoveToFront(b: nat, ghost k: nat)
      requires Linked(nbuf, next, prev, order) && k < |order| && order[k] == b
      modifies this`next, this`prev
      ensures Linked(nbuf, next, prev, [b] + Without(order, k))
    {
      UnlinkKeepsLinked(nbuf, next, prev, order, k);
      assert ArcAt(nbuf, next, prev, order, k + 1);
      prev := prev[next[b] := prev[b]];
      next := next[prev[b] := next[b]];
      ghost var rest := Without(order, k);
      PushKeepsLinked(nbuf, next, prev, rest, b);
      next := next[b := next[nbuf]];
      prev := prev[b := nbuf];
      prev := prev[next[nbuf] := b];
      next := next[nbuf := b];
    }
  }
}
