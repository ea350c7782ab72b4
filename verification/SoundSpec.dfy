/**
 The audio path on values: three 64 KiB nodes (kernel/sound_card.c) that cycle
 between the system calls that fill them and the interrupt that frees them, and
 the linked queue between the two (kernel/pci.c).
 */
module SoundSpec {
  import opened Common
  import Sets

  const BUFFER_NODE_NUM: nat := 3
  const DMA_BUFFER_NUM: nat := 32
  const DMA_SAMPLE_NUM: nat := 1024
  const DMA_BUFFER_SIZE: nat := DMA_SAMPLE_NUM * 2
  const BUFSIZE: nat := 65536 // DMA_BUFFER_NUM * DMA_BUFFER_SIZE

  type Bytes = seq<Byte>

  /** flag 0: may be overwritten, 1: being filled, 3: sent.  next -1 is null. */
  datatype Node = Node(flag: nat, next: int, data: Bytes)

  /** One entry of the buffer descriptor list: where in a node, how many samples. */
  datatype Descriptor = Descriptor(node: nat, offset: nat, samples: nat)

  /** Between system calls, or looking at node i for room for the rest of the data. */
  datatype Writer = Ready | Scanning(i: nat, rest: Bytes)

  function Zeros(n: nat): (z: Bytes)
    ensures |z| == n && forall i :: 0 <= i < n ==> z[i] == 0
  {
    seq(n, _ => 0)
  }

  function Cleared(): (n: Node) { Node(0, -1, Zeros(BUFSIZE)) }

  // ------------------------------------------------------------------
  // The queue

  ghost predicate WellFormed(nodes: seq<Node>) {
    |nodes| == BUFFER_NODE_NUM && forall i :: 0 <= i < |nodes| ==> |nodes[i].data| == BUFSIZE
  }

  /** Three different nodes are all there are. */
  lemma AllQueued(q: seq<nat>)
    requires |q| <= BUFFER_NODE_NUM && forall i :: 0 <= i < |q| ==> q[i] < BUFFER_NODE_NUM
    requires forall i, j :: 0 <= i < j < |q| ==> q[i] != q[j]
    ensures |q| == BUFFER_NODE_NUM <==> 0 in q && 1 in q && 2 in q
  {
    if |q| == BUFFER_NODE_NUM {
      Sets.Covers(BUFFER_NODE_NUM, q, 0);
      Sets.Covers(BUFFER_NODE_NUM, q, 1);
      Sets.Covers(BUFFER_NODE_NUM, q, 2);
    } else if 0 in q && 1 in q && 2 in q {
      var s := set x | x in q;
      Sets.DistinctSize(q);
      Sets.SubsetSize({0, 1, 2}, s);
    }
  }

  /** The nodes reached from `head` along `next` are q, each once. */
  ghost predicate Chain(nodes: seq<Node>, head: int, q: seq<nat>) {
    && (forall i :: 0 <= i < |q| ==> q[i] < |nodes|)
    && (forall i, j :: 0 <= i < j < |q| ==> q[i] != q[j])
    && head == (if q == [] then -1 else q[0])
    && forall i :: 0 <= i < |q| ==> LinkAt(nodes, q, i)
  }

  ghost predicate LinkAt(nodes: seq<Node>, q: seq<nat>, i: int)
    requires 0 <= i < |q| && q[i] < |nodes|
  {
    nodes[q[i]].next == if i + 1 < |q| then q[i + 1] else -1
  }

  lemma ChainFacts(nodes: seq<Node>, head: int, q: seq<nat>)
    requires Chain(nodes, head, q)
    ensures (head == -1 <==> q == []) && (forall i :: 0 <= i < |q| ==> q[i] < |nodes|)
    ensures q != [] ==> head == q[0] < |nodes| && nodes[head].next == if |q| > 1 then q[1] else -1
    ensures q != [] ==> nodes[q[|q| - 1]].next == -1
  {
    assert q != [] ==> LinkAt(nodes, q, 0) && LinkAt(nodes, q, |q| - 1);
  }

  lemma ChainOne(nodes: seq<Node>, n: nat)
    requires n < |nodes| && nodes[n].next == -1
    ensures Chain(nodes, n, [n])
  {
    assert LinkAt(nodes, [n], 0);
  }

  /** Linking a new last node behind the old one. */
  lemma AppendKeepsChain(nodes: seq<Node>, head: int, q: seq<nat>, n: nat)
    requires Chain(nodes, head, q) && q != [] && n < |nodes| && n !in q && nodes[n].next == -1
    ensures var t := q[|q| - 1];
            Chain(nodes[t := nodes[t].(next := n)], head, q + [n])
  {
    var t, q' := q[|q| - 1], q + [n];
    var nodes' := nodes[t := nodes[t].(next := n)];
    forall i | 0 <= i < |q'| ensures LinkAt(nodes', q', i) {
      if i < |q| {
        assert LinkAt(nodes, q, i);
      }
    }
  }

  /** Taking the first node off. */
  lemma PopKeepsChain(nodes: seq<Node>, head: int, q: seq<nat>)
    requires Chain(nodes, head, q) && q != []
    ensures Chain(nodes, nodes[q[0]].next, q[1..])
  {
    assert LinkAt(nodes, q, 0);
    forall i | 0 <= i < |q| - 1 ensures LinkAt(nodes, q[1..], i) {
      assert LinkAt(nodes, q, i + 1);
    }
  }

  /** Only the links of queued nodes matter. */
  lemma ChainFrame(nodes: seq<Node>, nodes': seq<Node>, head: int, q: seq<nat>)
    requires Chain(nodes, head, q) && |nodes'| == |nodes|
    requires forall i :: 0 <= i < |q| ==> nodes'[q[i]].next == nodes[q[i]].next
    ensures Chain(nodes', head, q)
  {
    forall i | 0 <= i < |q| ensures LinkAt(nodes', q, i) {
      assert LinkAt(nodes, q, i);
    }
  }

  /** The bytes waiting in the queue, in order. */
  ghost function Queued(nodes: seq<Node>, q: seq<nat>): (s: Bytes)
    requires forall i :: 0 <= i < |q| ==> q[i] < |nodes|
    decreases |q|
  {
    if q == [] then [] else Queued(nodes, q[..|q| - 1]) + nodes[q[|q| - 1]].data
  }

  lemma {:induction false} QueuedFrame(nodes: seq<Node>, nodes': seq<Node>, q: seq<nat>)
    requires |nodes| == |nodes'| && forall i :: 0 <= i < |q| ==> q[i] < |nodes|
    requires forall i :: 0 <= i < |q| ==> nodes[q[i]].data == nodes'[q[i]].data
    ensures Queued(nodes, q) == Queued(nodes', q)
    decreases |q|
  {
    if q != [] {
      QueuedFrame(nodes, nodes', q[..|q| - 1]);
    }
  }

  lemma QueuedAppend(nodes: seq<Node>, nodes': seq<Node>, q: seq<nat>, n: nat)
    requires |nodes| == |nodes'| && n < |nodes| && forall i :: 0 <= i < |q| ==> q[i] < |nodes|
    requires forall i :: 0 <= i < |q| ==> nodes[q[i]].data == nodes'[q[i]].data
    ensures Queued(nodes', q + [n]) == Queued(nodes, q) + nodes'[n].data
  {
    QueuedFrame(nodes, nodes', q);
    assert (q + [n])[..|q|] == q;
  }

  lemma {:induction false} QueuedFront(nodes: seq<Node>, q: seq<nat>)
    requires q != [] && forall i :: 0 <= i < |q| ==> q[i] < |nodes|
    ensures Queued(nodes, q) == nodes[q[0]].data + Queued(nodes, q[1..])
    decreases |q|
  {
    if |q| == 1 {
      assert q[..0] == [] && q[1..] == [];
    } else {
      var p, last := q[..|q| - 1], nodes[q[|q| - 1]].data;
      QueuedFront(nodes, p);
      assert q[1..][..|q[1..]| - 1] == p[1..];
      Assoc(nodes[q[0]].data, Queued(nodes, p[1..]), last);
    }
  }

  // ------------------------------------------------------------------
  // The descriptor list

  ghost predicate ValidDescriptor(nodes: seq<Node>, d: Descriptor) {
    d.node < |nodes| && d.offset + 2 * d.samples <= |nodes[d.node].data|
  }

  /** The bytes the device fetches through a descriptor list. */
  ghost function Fetched(nodes: seq<Node>, ds: seq<Descriptor>): (s: Bytes)
    requires forall i :: 0 <= i < |ds| ==> ValidDescriptor(nodes, ds[i])
    decreases |ds|
  {
    if ds == [] then []
    else
      var d := ds[|ds| - 1];
      assert ValidDescriptor(nodes, d);
      Fetched(nodes, ds[..|ds| - 1]) + nodes[d.node].data[d.offset..d.offset + 2 * d.samples]
  }

  /** play and soundintr program descriptor i with the i-th piece of the node. */
  ghost predicate Programs(ds: seq<Descriptor>, n: nat) {
    |ds| == DMA_BUFFER_NUM &&
    forall i :: 0 <= i < |ds| ==> ds[i] == Descriptor(n, i * DMA_BUFFER_SIZE, DMA_SAMPLE_NUM)
  }

  lemma Pieces(d: Bytes, a: nat, b: nat)
    requires a <= b <= |d|
    ensures d[..a] + d[a..b] == d[..b]
  {
  }

  lemma PiecesInside(nodes: seq<Node>, ds: seq<Descriptor>, n: nat)
    requires n < |nodes| && |nodes[n].data| == BUFSIZE && Programs(ds, n)
    ensures |ds| == DMA_BUFFER_NUM
    ensures forall i :: 0 <= i < |ds| ==>
              ds[i] == Descriptor(n, i * DMA_BUFFER_SIZE, DMA_SAMPLE_NUM) && ValidDescriptor(nodes, ds[i])
  {
  }

  lemma {:induction false} FetchedNext(nodes: seq<Node>, ds: seq<Descriptor>, k: nat)
    requires 0 < k <= |ds| && forall i :: 0 <= i < |ds| ==> ValidDescriptor(nodes, ds[i])
    ensures var d := ds[k - 1];
            && ValidDescriptor(nodes, d)
            && var piece := nodes[d.node].data[d.offset..d.offset + 2 * d.samples];
               Fetched(nodes, ds[..k]) == Fetched(nodes, ds[..k - 1]) + piece
  {
    assert ds[..k][..k - 1] == ds[..k - 1];
  }

  lemma {:induction false} FetchedPrefix(nodes: seq<Node>, ds: seq<Descriptor>, n: nat, k: nat)
    requires n < |nodes| && |nodes[n].data| == BUFSIZE && Programs(ds, n) && k <= DMA_BUFFER_NUM
    ensures forall i :: 0 <= i < k ==> ValidDescriptor(nodes, ds[..k][i])
    ensures Fetched(nodes, ds[..k]) == nodes[n].data[..k * DMA_BUFFER_SIZE]
  {
    hide Programs;
    PiecesInside(nodes, ds, n);
    if k > 0 {
      FetchedPrefix(nodes, ds, n, k - 1);
      FetchedNext(nodes, ds, k);
      Pieces(nodes[n].data, (k - 1) * DMA_BUFFER_SIZE, k * DMA_BUFFER_SIZE);
    }
  }

  /** The programmed pieces tile the node: the device fetches exactly its data. */
  lemma DescriptorsTile(nodes: seq<Node>, ds: seq<Descriptor>, n: nat)
    requires n < |nodes| && |nodes[n].data| == BUFSIZE && Programs(ds, n)
    ensures forall i :: 0 <= i < |ds| ==> ValidDescriptor(nodes, ds[i])
    ensures Fetched(nodes, ds) == nodes[n].data
  {
    FetchedPrefix(nodes, ds, n, DMA_BUFFER_NUM);
    assert ds[..DMA_BUFFER_NUM] == ds;
  }

  lemma Assoc(a: Bytes, b: Bytes, c: Bytes)
    ensures (a + b) + c == a + (b + c)
  {
  }

  lemma NoMore(z: Bytes)
    ensures z + [] == z && [] + z == z
  {
  }

  /** A node that is zero beyond what it holds. */
  ghost predicate ZeroFrom(d: Bytes, used: nat) { forall k :: used <= k < |d| ==> d[k] == 0 }

  lemma ZeroTail(d: Bytes, used: nat)
    requires used <= |d| && ZeroFrom(d, used)
    ensures d == d[..used] + Zeros(|d| - used)
  {
    assert d[used..] == Zeros(|d| - used);
  }

  /** More data behind what a node holds. */
  lemma FilledData(d: Bytes, used: nat, buf: Bytes)
    requires |d| == BUFSIZE && used + |buf| < BUFSIZE && ZeroFrom(d, used)
    ensures var d' := Spliced(d, used, buf);
            && |d'| == BUFSIZE && ZeroFrom(d', used + |buf|) && d'[..used + |buf|] == d[..used] + buf
            && d' == d[..used] + buf + Zeros(BUFSIZE - used - |buf|)
  {
    var d' := Spliced(d, used, buf);
    ZeroTail(d', used + |buf|);
    assert d'[..used + |buf|] == d[..used] + buf;
  }

  /** A node filled to its end: what it held, then the first part of the new data. */
  lemma OverflowData(d: Bytes, used: nat, buf: Bytes)
    requires |d| == BUFSIZE && used < BUFSIZE <= used + |buf|
    ensures Spliced(d, used, buf[..BUFSIZE - used]) == d[..used] + buf[..BUFSIZE - used]
  {
    var b1 := buf[..BUFSIZE - used];
    var d' := Spliced(d, used, b1);
    assert d' == d'[..used] + d'[used..used + |b1|];
  }

  // ------------------------------------------------------------------
  // A queue that does not end

  /** Where k steps along `next` lead from `head`. */
  ghost function StepTo(nodes: seq<Node>, head: int, k: nat): (p: int) {
    if k == 0 then head
    else
      var p := StepTo(nodes, head, k - 1);
      if 0 <= p < |nodes| then nodes[p].next else p
  }

  /** The nodes q, the last of which is linked to itself. */
  ghost predicate Loops(nodes: seq<Node>, head: int, q: seq<nat>) {
    && q != [] && head == q[0] && (forall i :: 0 <= i < |q| ==> q[i] < |nodes|)
    && forall i :: 0 <= i < |q| ==> LoopAt(nodes, q, i)
  }

  ghost predicate LoopAt(nodes: seq<Node>, q: seq<nat>, i: int)
    requires 0 <= i < |q| && q[i] < |nodes|
  {
    nodes[q[i]].next == if i + 1 < |q| then q[i + 1] else q[i]
  }

  /** However far one walks, there is a node and never null. */
  lemma {:induction false} LoopNeverEnds(nodes: seq<Node>, head: int, q: seq<nat>, k: nat)
    requires Loops(nodes, head, q)
    ensures StepTo(nodes, head, k) == q[Least(k, |q| - 1)]
  {
    if k > 0 {
      LoopNeverEnds(nodes, head, q, k - 1);
      assert LoopAt(nodes, q, Least(k - 1, |q| - 1));
    }
  }

  /** add_sound_node with the node that is last already: the walk ends there, and it becomes its own successor. */
  lemma LastAgainLoops(nodes: seq<Node>, head: int, q: seq<nat>)
    requires Chain(nodes, head, q) && q != []
    ensures var n := q[|q| - 1];
            n < |nodes| && Loops(nodes[n := nodes[n].(next := n)], head, q)
  {
    var n := q[|q| - 1];
    var nodes' := nodes[n := nodes[n].(next := n)];
    forall i | 0 <= i < |q| ensures LoopAt(nodes', q, i) {
      assert LinkAt(nodes, q, i);
    }
  }

  /** soundintr frees the first node and goes on to the next: there always is one. */
  lemma InterruptsForever(nodes: seq<Node>, head: int, q: seq<nat>)
    requires Loops(nodes, head, q)
    ensures var h' := nodes[head].next;
            h' != -1 && Loops(nodes[head := nodes[head].(flag := 0)], h', if |q| > 1 then q[1..] else q)
  {
    var q' := if |q| > 1 then q[1..] else q;
    var nodes' := nodes[head := nodes[head].(flag := 0)];
    assert LoopAt(nodes, q, 0);
    forall i | 0 <= i < |q'| ensures LoopAt(nodes', q', i) {
      assert LoopAt(nodes, q, if |q| > 1 then i + 1 else i);
    }
  }

  /** add_sound_node with any other node walks for ever. */
  lemma AddNeverEnds(nodes: seq<Node>, head: int, q: seq<nat>, n: nat, k: nat)
    requires Loops(nodes, head, q) && n < |nodes| && n !in q
    ensures StepTo(nodes[n := nodes[n].(next := -1)], head, k) != -1
  {
    var nodes' := nodes[n := nodes[n].(next := -1)];
    forall i | 0 <= i < |q| ensures LoopAt(nodes', q, i) {
      assert LoopAt(nodes, q, i);
    }
    LoopNeverEnds(nodes', head, q, k);
  }

  // ------------------------------------------------------------------
  // The state of the driver

  /**
   The nodes and the queue through them; the node being filled and how far; the
   writer; the bytes played; whether a finish has sent the node being filled;
   and what ought to be heard: the data in the order written, with zeros up to
   the end of a node at each finish.
   */
  datatype Card = Card(nodes: seq<Node>, head: int, descriptors: seq<Descriptor>, index: nat, used: nat,
                       writer: Writer, q: seq<nat>, played: Bytes, sealed: bool, due: Bytes)
  {
    /** No node belongs to the writer: it is looking for one, or it has sent its last. */
    ghost predicate NoCurrent() { writer.Scanning? || sealed }

    /** What the writer has been given and not yet put into the queue. */
    ghost function Pending(): (s: Bytes)
      requires WellFormed(nodes) && index < |nodes| && used <= BUFSIZE
    {
      if writer.Scanning? then writer.rest else if sealed then [] else nodes[index].data[..used]
    }

    /** Who owns each node: the queue, the writer, or nobody. */
    ghost predicate OwnedAt(i: nat)
      requires i < |nodes|
    {
      && (i in q ==> nodes[i].flag == 3 || (sealed && i == index && nodes[i].flag == 1))
      && (nodes[i].flag == 3 ==> i in q)
      && (i !in q && (NoCurrent() || i != index) ==> nodes[i].flag == 0)
    }

    /** The node being filled is not queued, or is last since a finish; it is zero beyond what it holds. */
    ghost predicate CurrentOk()
      requires WellFormed(nodes) && index < |nodes|
    {
      && (!NoCurrent() ==> index !in q)
      && (sealed ==> used > 0 && (index in q ==> q[|q| - 1] == index))
      && (writer.Ready? && used > 0 ==> ZeroFrom(nodes[index].data, used))
    }

    /** What every step keeps. */
    ghost predicate Shape() {
      && WellFormed(nodes) && Chain(nodes, head, q)
      && index < |nodes| && used < BUFSIZE
      && (writer.Scanning? ==> !sealed && writer.i < |nodes|)
      && CurrentOk()
      && (forall i: nat :: i < |nodes| ==> OwnedAt(i))
      && (q != [] ==> Programs(descriptors, q[0]))
    }

    /** All that is heard: what was played, then what is queued, then what the writer still has. */
    ghost function Heard(): (s: Bytes)
      requires Shape()
    {
      (played + Queued(nodes, q)) + Pending()
    }

    /** Nothing lost, repeated or reordered. */
    ghost predicate Valid() { Shape() && Heard() == due }

    // ----------------------------------------------------------------
    // The interrupt

    /** soundintr, with the descriptors for the next node. */
    ghost function Interrupted(ds: seq<Descriptor>): (c: Card)
      requires Shape() && q != []
    {
      var n := q[0];
      this.(nodes := nodes[n := nodes[n].(flag := 0)], head := nodes[n].next, q := q[1..],
            played := played + nodes[n].data, descriptors := ds)
    }

    /** What the shape of a card says about the first node of its queue. */
    lemma QueueFront()
      requires Shape() && q != []
      ensures head == q[0] < |nodes| && |nodes[head].data| == BUFSIZE && Programs(descriptors, head)
      ensures nodes[head].next == if |q| > 1 then q[1] else -1
    {
      ChainFacts(nodes, head, q);
    }

    lemma InterruptShape(ds: seq<Descriptor>)
      requires Shape() && q != [] && (|q| > 1 ==> Programs(ds, q[1]))
      ensures Interrupted(ds).Shape()
    {
      hide Programs;
      var c, n := Interrupted(ds), q[0];
      PopKeepsChain(nodes, head, q);
      ChainFrame(nodes, c.nodes, c.head, c.q);
      forall i: nat | i < |nodes| ensures c.OwnedAt(i) {
        assert OwnedAt(i);
        assert i in q <==> i == n || i in c.q;
      }
      assert OwnedAt(n) && OwnedAt(index);
    }

    lemma InterruptKeeps(ds: seq<Descriptor>)
      requires Shape() && q != [] && (|q| > 1 ==> Programs(ds, q[1]))
      ensures Interrupted(ds).Shape() && Interrupted(ds).Heard() == Heard()
    {
      hide Programs, Chain, Card.OwnedAt;
      var c := Interrupted(ds);
      InterruptShape(ds);
      QueueFacts();
      QueuedFront(nodes, q);
      QueuedFrame(nodes, c.nodes, c.q);
      Assoc(played, nodes[q[0]].data, Queued(nodes, c.q));
      assert c.Pending() == Pending();
    }

    /** What the shape of a card says about its queue. */
    lemma QueueFacts()
      requires Shape()
      ensures |nodes| == BUFFER_NODE_NUM && (head == -1 <==> q == []) && |q| <= BUFFER_NODE_NUM && used < BUFSIZE
      ensures (forall i :: 0 <= i < |q| ==> q[i] < BUFFER_NODE_NUM) && forall i, j :: 0 <= i < j < |q| ==> q[i] != q[j]
      ensures writer.Scanning? ==> writer.i < BUFFER_NODE_NUM
    {
      hide Programs;
      var s := set x | x in q;
      Sets.DistinctSize(q);
      Sets.UpToSize(BUFFER_NODE_NUM);
      Sets.SubsetSize(s, Sets.UpTo(BUFFER_NODE_NUM));
    }

    /** What the shape of a card says about the node being filled. */
    lemma CurrentFacts()
      requires Shape() && writer.Ready?
      ensures WellFormed(nodes) && index < |nodes| && used < BUFSIZE && (sealed ==> used > 0)
      ensures used > 0 ==> ZeroFrom(nodes[index].data, used)
      ensures index in q ==> sealed && q[|q| - 1] == index
    {
    }

    // ----------------------------------------------------------------
    // Data that fits in the node being filled

    /** sys_writeDecodedAudio with data that fits: a node that has been sent is written all the same. */
    ghost function Filled(buf: Bytes): (c: Card)
      requires Shape() && used + |buf| < BUFSIZE
    {
      var n := if used == 0 then Cleared() else nodes[index];
      this.(nodes := nodes[index := n.(data := Spliced(n.data, used, buf), flag := 1)],
            used := used + |buf|, sealed := sealed && index in q, due := due + buf)
    }

    lemma FilledShape(buf: Bytes)
      requires Shape() && writer.Ready? && used + |buf| < BUFSIZE
      ensures Filled(buf).Shape()
    {
      hide Programs, Spliced, Chain;
      var c := Filled(buf);
      QueueFacts();
      FilledData(if used == 0 then Zeros(BUFSIZE) else nodes[index].data, used, buf);
      ChainFrame(nodes, c.nodes, head, q);
      forall i: nat | i < |nodes| ensures c.OwnedAt(i) {
        assert OwnedAt(i);
      }
    }

    /** What is heard of the stream so far without the zeros of the last finish. */
    ghost function Unpadded(): (s: Bytes)
      requires Shape()
    {
      var h, pad := Heard(), BUFSIZE - used;
      if |h| < pad then [] else h[..|h| - pad]
    }

    lemma EndsPadded()
      requires Shape() && writer.Ready? && index in q
      ensures Heard() == Unpadded() + Zeros(BUFSIZE - used)
      ensures Unpadded() == (played + Queued(nodes, q[..|q| - 1])) + nodes[index].data[..used]
    {
      hide Programs, Chain, Card.OwnedAt, Zeros;
      QueueFacts();
      var d, z, qs := nodes[index].data, Zeros(BUFSIZE - used), Queued(nodes, q[..|q| - 1]);
      ZeroTail(d, used);
      Assoc(played, qs, d);
      Assoc(played + qs, d[..used], z);
      NoMore(played + Queued(nodes, q));
      var u := (played + qs) + d[..used];
      assert Heard() == u + z;
      assert (u + z)[..|u|] == u;
    }

    /** What is heard once buf is written, where the node being filled need not be queued twice for it. */
    ghost function HeardWith(buf: Bytes): (s: Bytes)
      requires Shape()
    {
      if !sealed then Heard() + buf
      else if index !in q then Heard() + (nodes[index].data[..used] + buf)
      else if used + |buf| < BUFSIZE then Unpadded() + buf + Zeros(BUFSIZE - used - |buf|)
      else Heard()
    }

    lemma FilledOpen(buf: Bytes)
      requires Shape() && writer.Ready? && used + |buf| < BUFSIZE && !sealed
      ensures Filled(buf).Shape() && Filled(buf).Heard() == HeardWith(buf)
    {
      hide Programs, Spliced, Chain, Card.OwnedAt, Queued;
      var c := Filled(buf);
      FilledShape(buf);
      QueueFacts();
      FilledData(if used == 0 then Zeros(BUFSIZE) else nodes[index].data, used, buf);
      QueuedFrame(nodes, c.nodes, q);
      Assoc(played + Queued(nodes, q), Pending(), buf);
      assert used == 0 ==> Pending() == [] && Zeros(BUFSIZE)[..0] == [];
    }

    lemma FilledAgain(buf: Bytes)
      requires Shape() && writer.Ready? && used + |buf| < BUFSIZE && sealed && index !in q
      ensures Filled(buf).Shape() && Filled(buf).Heard() == HeardWith(buf)
    {
      hide Programs, Spliced, Chain, Card.OwnedAt, Queued;
      var c := Filled(buf);
      FilledShape(buf);
      QueueFacts();
      FilledData(nodes[index].data, used, buf);
      QueuedFrame(nodes, c.nodes, q);
      NoMore(played + Queued(nodes, q));
    }

    lemma FilledInPlace(buf: Bytes)
      requires Shape() && writer.Ready? && used + |buf| < BUFSIZE && index in q
      ensures Filled(buf).Shape() && Filled(buf).Heard() == HeardWith(buf)
    {
      hide Programs, Spliced, Chain, Card.OwnedAt, Card.Heard, Card.Unpadded, Zeros;
      var c := Filled(buf);
      FilledShape(buf);
      QueueFacts();
      FilledData(nodes[index].data, used, buf);
      QueuedFrame(nodes, c.nodes, q[..|q| - 1]);
      EndsPadded();
      c.EndsPadded();
      Assoc(played + Queued(nodes, q[..|q| - 1]), nodes[index].data[..used], buf);
    }

    /** Data that fits: what is heard then, in each of the three cases. */
    lemma FilledKeeps(buf: Bytes)
      requires Shape() && writer.Ready? && used + |buf| < BUFSIZE
      ensures Filled(buf).Shape() && Filled(buf).Heard() == HeardWith(buf)
    {
      hide Card.Shape, Card.Heard, Card.HeardWith, Card.Filled;
      CurrentFacts();
      if index in q {
        FilledInPlace(buf);
      } else if sealed {
        FilledAgain(buf);
      } else {
        FilledOpen(buf);
      }
    }

    /**
     A write adds exactly its data to what is heard, if and only if no finish has
     sent the node being filled, or nothing is written and the node is still
     queued.  Otherwise data takes the place of padding in the queued node, or
     the bytes that the node held are heard again.
     */
    lemma WriteNeedsOpen(buf: Bytes)
      requires Shape() && writer.Ready? && (index in q ==> used + |buf| < BUFSIZE)
      ensures HeardWith(buf) == Heard() + buf <==> !sealed || (index in q && buf == [])
      ensures sealed && index in q ==> Heard() == Unpadded() + Zeros(BUFSIZE - used) && |HeardWith(buf)| == |Heard()|
      ensures sealed && index !in q ==> |HeardWith(buf)| == |Heard()| + used + |buf| && used > 0
    {
      hide Card.Shape, Card.Heard, Card.Unpadded;
      CurrentFacts();
      if index in q {
        EndsPadded();
        NoMore(Unpadded());
        NoMore(Heard());
      }
    }

    // ----------------------------------------------------------------
    // Nodes that are sent

    /** c is this state with node n, just completed, at the end of the queue. */
    ghost predicate Sends(n: nat, c: Card)
      requires Shape()
    {
      && n < |nodes| && n !in q && c.q == q + [n] && c.played == played
      && WellFormed(c.nodes) && Chain(c.nodes, c.head, c.q) && Programs(c.descriptors, c.q[0])
      && c.NoCurrent() && c.index < |nodes| && c.used < BUFSIZE
      && (c.writer.Scanning? ==> !c.sealed && c.writer.i < |nodes|)
      && (c.writer.Ready? ==> c.index == n && c.used > 0 && ZeroFrom(c.nodes[n].data, c.used))
      && c.nodes[n].flag == 3
      && (forall i :: 0 <= i < |nodes| && i != n ==>
            c.nodes[i].flag == nodes[i].flag && c.nodes[i].data == nodes[i].data)
      && (writer.Scanning? || n == index)
    }

    lemma SendOwns(n: nat, c: Card, i: nat)
      requires Shape() && Sends(n, c) && i < |nodes|
      ensures c.OwnedAt(i)
    {
      hide Chain, Programs;
      assert OwnedAt(i);
      assert i in c.q <==> i == n || i in q;
    }

    lemma SendKeeps(n: nat, c: Card)
      requires Shape() && Sends(n, c)
      ensures c.Shape() && Queued(c.nodes, c.q) == Queued(nodes, q) + c.nodes[n].data
    {
      hide Queued, Programs, Card.OwnedAt;
      forall i: nat | i < |nodes| ensures c.OwnedAt(i) {
        SendOwns(n, c, i);
      }
      QueuedAppend(nodes, c.nodes, q, n);
    }

    /** The node being filled is completed and sent; the writer keeps the rest. */
    lemma OverflowKeeps(buf: Bytes, c: Card)
      requires Shape() && writer.Ready? && index !in q && used + |buf| >= BUFSIZE && Sends(index, c)
      requires c.writer == Scanning(0, buf[BUFSIZE - used..])
      requires c.nodes[index].data == nodes[index].data[..used] + buf[..BUFSIZE - used]
      ensures c.Shape() && c.Heard() == HeardWith(buf)
    {
      hide Chain, Programs, Card.OwnedAt, Queued, ZeroFrom;
      SendKeeps(index, c);
      QueueFacts();
      var b1, b2, d, qs := buf[..BUFSIZE - used], buf[BUFSIZE - used..], nodes[index].data[..used], Queued(nodes, q);
      assert b1 + b2 == buf;
      Moved(played, qs, d, b1, b2);
      Assoc(played + qs, d, buf);
      NoMore(played + qs);
    }

    /** A free node is completed and sent, and the writer looks on with less to place. */
    lemma PassOnKeeps(c: Card)
      requires Shape() && writer.Scanning? && |writer.rest| >= BUFSIZE && Sends(writer.i, c)
      requires c.writer.Scanning? && c.writer.rest == writer.rest[BUFSIZE..]
      requires c.nodes[writer.i].data == writer.rest[..BUFSIZE]
      ensures c.Shape() && c.Heard() == Heard()
    {
      hide Chain, Programs, Card.OwnedAt, Queued;
      SendKeeps(writer.i, c);
      QueueFacts();
      var b1, b2, qs := writer.rest[..BUFSIZE], writer.rest[BUFSIZE..], Queued(nodes, q);
      assert b1 + b2 == writer.rest;
      Assoc(played, qs, b1);
      Assoc(played + qs, b1, b2);
    }

    /** What is heard after a finish, where the node being filled is not queued. */
    ghost function HeardFinished(): (s: Bytes)
      requires Shape()
    {
      if used == 0 then Heard() else Heard() + if sealed then nodes[index].data else Zeros(BUFSIZE - used)
    }

    /** The last, partly filled node is sent with its zeros; sent a second time, it is heard a second time. */
    lemma FinishKeeps(c: Card)
      requires Shape() && writer.Ready? && index !in q && used > 0 && Sends(index, c)
      requires c.sealed && c.used == used && c.writer == Ready && c.nodes[index].data == nodes[index].data
      ensures c.Shape() && c.Heard() == HeardFinished()
    {
      hide Chain, Programs, Card.OwnedAt, Queued, Zeros;
      SendKeeps(index, c);
      QueueFacts();
      var d, z, qs := nodes[index].data, Zeros(BUFSIZE - used), Queued(nodes, q);
      ZeroTail(d, used);
      NoMore(played + qs);
      NoMore(played + (qs + d));
      Assoc(played, qs, d);
      Assoc(played + qs, d[..used], z);
    }

    /** A finish adds exactly the padding that is due, if and only if none has sent the node being filled. */
    lemma FinishNeedsOpen()
      requires Shape() && writer.Ready? && index !in q
      ensures HeardFinished() == Heard() + (if used > 0 && !sealed then Zeros(BUFSIZE - used) else []) <==> !sealed
      ensures sealed ==> |HeardFinished()| == |Heard()| + BUFSIZE
    {
      hide Card.Shape, Card.Heard;
      CurrentFacts();
      NoMore(Heard());
    }

    // ----------------------------------------------------------------
    // The search for a free node

    /** The search moves on from a node that is in use. */
    lemma MoveOnKeeps(i: nat)
      requires Shape() && writer.Scanning? && i < |nodes|
      ensures var c := this.(writer := Scanning(i, writer.rest));
              c.Shape() && c.Heard() == Heard()
    {
      var c := this.(writer := Scanning(i, writer.rest));
      forall j: nat | j < |nodes| ensures c.OwnedAt(j) {
        assert OwnedAt(j);
      }
    }

    /** The search finds nothing free exactly when all nodes are queued. */
    lemma SpinsOnlyWhenFull()
      requires Shape() && writer.Scanning?
      ensures (forall i :: 0 <= i < |nodes| ==> nodes[i].flag != 0) <==> |q| == BUFFER_NODE_NUM
    {
      hide Chain, Programs;
      QueueFacts();
      assert OwnedAt(0) && OwnedAt(1) && OwnedAt(2);
      AllQueued(q);
    }

    /** With a queue that is not full, some node is free to the search. */
    lemma FreeNode() returns (free: nat)
      requires Shape() && writer.Scanning? && |q| < BUFFER_NODE_NUM
      ensures free < BUFFER_NODE_NUM && free !in q
    {
      hide Chain, Programs;
      SpinsOnlyWhenFull();
      free :| free < |nodes| && nodes[free].flag == 0;
      assert OwnedAt(free);
    }

    /** The node that the search looks at is free or queued. */
    lemma SearchFacts()
      requires Shape() && writer.Scanning?
      ensures |nodes| == BUFFER_NODE_NUM && writer.i < |nodes| && (nodes[writer.i].flag == 0 <==> writer.i !in q)
      ensures !sealed && index < |nodes| && used < BUFSIZE
    {
      assert OwnedAt(writer.i);
    }

    /** The rest of the data into a free node, which becomes the one being filled. */
    ghost function Settled(): (c: Card)
      requires Shape() && writer.Scanning? && |writer.rest| < BUFSIZE
    {
      var n := Cleared();
      this.(nodes := nodes[writer.i := n.(data := Spliced(n.data, 0, writer.rest), flag := 1)],
            index := writer.i, used := |writer.rest|, writer := Ready)
    }

    lemma SettledKeeps()
      requires Shape() && writer.Scanning? && |writer.rest| < BUFSIZE && nodes[writer.i].flag == 0
      ensures Settled().Shape() && Settled().Heard() == Heard()
    {
      hide Spliced, Programs, Chain;
      var c := Settled();
      FilledData(Zeros(BUFSIZE), 0, writer.rest);
      assert Zeros(BUFSIZE)[..0] + writer.rest == writer.rest;
      QueueFacts();
      assert OwnedAt(writer.i);
      ChainFrame(nodes, c.nodes, head, q);
      forall i: nat | i < |nodes| ensures c.OwnedAt(i) {
        assert OwnedAt(i);
      }
      QueuedFrame(nodes, c.nodes, q);
    }

    // ----------------------------------------------------------------
    // What it all means

    /**
     Nothing is lost, repeated or reordered on the way to the device; and once a
     finished stream has drained, everything due has been played.
     */
    lemma Delivers()
      requires Valid()
      ensures played <= due
      ensures q == [] && writer.Ready? && (sealed || used == 0) ==> played == due
    {
      assert (played + Queued(nodes, q)) + Pending() == played + (Queued(nodes, q) + Pending());
      assert q == [] ==> (played + []) + [] == played;
    }
  }

  /** Data moved from the writer (d, then b1) to the end of the queue stays in place. */
  lemma Moved(p: Bytes, qs: Bytes, d: Bytes, b1: Bytes, b2: Bytes)
    ensures (p + (qs + (d + b1))) + b2 == ((p + qs) + d) + (b1 + b2)
  {
    Assoc(qs, d, b1);
    Assoc(p, qs, d);
    Assoc(p, qs + d, b1);
    Assoc((p + qs) + d, b1, b2);
  }
}
