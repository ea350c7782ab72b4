/**
 The audio driver: the system calls of kernel/sound_card.c that fill the nodes,
 and the queue and interrupt handler of kernel/pci.c.

 Each method is one step of the writer or one interrupt; interrupts come
 between any two steps of the writer, as on the single hart the kernel is
 built for.
 */
module SoundQueue {
  import opened Common
  import opened SoundSpec

  class SoundCard {
    var nodes: seq<Node>
    var head: int
    var descriptors: seq<Descriptor>
    var index: nat
    var used: nat
    var writer: Writer
    ghost var q: seq<nat>
    ghost var played: Bytes
    ghost var sealed: bool
    ghost var due: Bytes

    ghost function S(): (c: Card)
      reads this
    {
      Card(nodes, head, descriptors, index, used, writer, q, played, sealed, due)
    }

    constructor ()
      ensures S().Valid() && writer.Ready? && used == 0 && !sealed && q == [] && due == [] && played == []
    {
      nodes := seq(BUFFER_NODE_NUM, _ => Cleared());
      head, index, used, writer := -1, 0, 0, Ready;
      descriptors, q, played, sealed, due := [], [], [], false, [];
    }

    /** sys_clearSoundCardBuffer: a new, empty stream. */
    method Clear()
      modifies this
      ensures S().Valid() && writer.Ready? && used == 0 && !sealed && q == [] && due == [] && played == []
    {
      index, used := 0, 0;
      nodes := seq(BUFFER_NODE_NUM, _ => Cleared());
      head, writer := -1, Ready;
      q, played, sealed, due := [], [], false, [];
    }

    /** The loop of play and of soundintr over the descriptor list. */
    method Program(n: nat)
      modifies this`descriptors
      ensures Programs(descriptors, n)
    {
      descriptors := [];
      var i := 0;
      while i < DMA_BUFFER_NUM
        invariant 0 <= i == |descriptors| <= DMA_BUFFER_NUM
        invariant forall j :: 0 <= j < i ==> descriptors[j] == Descriptor(n, j * DMA_BUFFER_SIZE, DMA_SAMPLE_NUM)
      {
        descriptors := descriptors + [Descriptor(n, i * DMA_BUFFER_SIZE, DMA_SAMPLE_NUM)];
        i := i + 1;
      }
    }

    /** add_sound_node's walk to the last node. */
    method FindTail() returns (tail: nat)
      requires Chain(nodes, head, q) && q != []
      ensures tail == q[|q| - 1]
    {
      tail := head;
      ghost var k := 0;
      assert LinkAt(nodes, q, 0);
      while nodes[tail].next != -1
        invariant 0 <= k < |q| && tail == q[k] && LinkAt(nodes, q, k)
        decreases |q| - k
      {
        tail := nodes[tail].next;
        k := k + 1;
        assert LinkAt(nodes, q, k);
      }
    }

    /**
     add_sound_node: to the end of the queue; the first node starts playing.  A
     node that is last already becomes its own successor.
     */
    method AddSoundNode(n: nat) returns (loops: bool)
      requires WellFormed(nodes) && Chain(nodes, head, q) && n < |nodes| && (n in q ==> q[|q| - 1] == n)
      requires q != [] ==> Programs(descriptors, q[0])
      modifies this`nodes, this`head, this`descriptors, this`q
      ensures loops <==> n in old(q)
      ensures WellFormed(nodes) && q == (if loops then old(q) else old(q) + [n]) && Programs(descriptors, q[0])
      ensures if loops then Loops(nodes, head, q) else Chain(nodes, head, q)
      ensures forall i :: 0 <= i < |nodes| ==>
                nodes[i].data == old(nodes)[i].data && nodes[i].flag == old(nodes)[i].flag
    {
      hide Chain, Programs, Loops;
      ChainFacts(nodes, head, q);
      nodes := nodes[n := nodes[n].(next := -1)];
      ChainFrame(old(nodes), nodes, head, q);
      loops := Attach(n);
      if head == n {
        Program(head);
      }
    }

    /** The store to the last link of the queue. */
    method Attach(n: nat) returns (loops: bool)
      requires Chain(nodes, head, q) && n < |nodes| && nodes[n].next == -1 && (n in q ==> q[|q| - 1] == n)
      modifies this`nodes, this`head, this`q
      ensures (loops <==> n in old(q)) && q == if loops then old(q) else old(q) + [n]
      ensures (if loops then Loops(nodes, head, q) else Chain(nodes, head, q)) && head == q[0]
      ensures |nodes| == |old(nodes)|
      ensures forall i :: 0 <= i < |nodes| ==> nodes[i] == old(nodes)[i].(next := nodes[i].next)
    {
      hide Chain, Loops;
      ChainFacts(nodes, head, q);
      loops := false;
      if head == -1 {
        head := n;
        q := [n];
        ChainOne(nodes, n);
        return;
      }
      var tail := FindTail();
      if tail == n {
        LastAgainLoops(nodes, head, q);
        loops := true;
      } else {
        AppendKeepsChain(nodes, head, q, n);
        q := q + [n];
      }
      nodes := nodes[tail := nodes[tail].(next := n)];
    }

    /**
     soundintr: the device has fetched the first node through the descriptor
     list; the node is free again and the next one is programmed.  The panic on
     an empty queue is the precondition: the device interrupts while it plays.
     */
    method Interrupt()
      requires S().Shape() && q != []
      modifies this`nodes, this`head, this`descriptors, this`q, this`played
      ensures S().Shape() && S().Heard() == old(S().Heard()) && q == old(q)[1..]
      ensures played == old(played) + old(nodes)[old(q)[0]].data
      ensures forall i :: 0 <= i < |nodes| ==> nodes[i].data == old(nodes)[i].data
      ensures forall i :: 0 <= i < |nodes| && i != old(q)[0] ==> nodes[i] == old(nodes)[i]
    {
      hide Card.Shape, Card.Heard, Programs, Fetched;
      ghost var c := S();
      c.QueueFront();
      DescriptorsTile(nodes, descriptors, head);
      played := played + Fetched(nodes, descriptors);
      nodes := nodes[head := nodes[head].(flag := 0)];
      head := nodes[head].next;
      q := q[1..];
      if head != -1 {
        Program(head);
      }
      c.InterruptKeeps(descriptors);
      assert S() == c.Interrupted(descriptors);
    }

    /** A completed node is marked as sent and queued. */
    method Send(n: nat, data: Bytes) returns (loops: bool)
      requires S().Shape() && n < |nodes| && (n in q ==> q[|q| - 1] == n) && |data| == BUFSIZE
      modifies this`nodes, this`head, this`descriptors, this`q
      ensures loops <==> n in old(q)
      ensures WellFormed(nodes) && q == (if loops then old(q) else old(q) + [n]) && Programs(descriptors, q[0])
      ensures if loops then Loops(nodes, head, q) else Chain(nodes, head, q)
      ensures nodes[n].flag == 3 && nodes[n].data == data
      ensures forall i :: 0 <= i < |nodes| && i != n ==>
                nodes[i].flag == old(nodes)[i].flag && nodes[i].data == old(nodes)[i].data
    {
      hide Chain, Programs, Loops, Card.OwnedAt;
      S().QueueFacts();
      nodes := nodes[n := nodes[n].(data := data, flag := 3)];
      ChainFrame(old(nodes), nodes, head, q);
      loops := AddSoundNode(n);
    }

    /**
     sys_writeDecodedAudio up to its search for a new node.  Only the node being
     filled is written.  If that node is still in the queue since a finish and
     the data does not fit, it is queued a second time and the queue has no end.
     */
    method Write(buf: Bytes) returns (loops: bool)
      requires S().Shape() && writer.Ready?
      modifies this`nodes, this`head, this`descriptors, this`used, this`writer, this`q, this`sealed, this`due
      ensures loops <==> index in old(q) && old(used) + |buf| >= BUFSIZE
      ensures loops ==> Loops(nodes, head, q) && q[|q| - 1] == index
      ensures !loops ==> S().Shape() && due == old(due) + buf && S().Heard() == old(S().HeardWith(buf))
      ensures old(used) + |buf| < BUFSIZE ==> S() == old(S().Filled(buf))
      ensures !loops && old(used) + |buf| >= BUFSIZE ==>
                q == old(q) + [index] && !sealed && writer == Scanning(0, buf[BUFSIZE - old(used)..])
      ensures |nodes| == |old(nodes)| && forall i :: 0 <= i < |nodes| && i != index ==>
                nodes[i].data == old(nodes)[i].data && nodes[i].flag == old(nodes)[i].flag
    {
      hide Card.Shape, Card.Heard, Card.HeardWith, Loops;
      S().CurrentFacts();
      loops := false;
      if BUFSIZE - used > |buf| {
        WriteFits(buf);
      } else {
        loops := WriteOverflows(buf);
      }
    }

    /** All data fits in the node being filled. */
    method WriteFits(buf: Bytes)
      requires S().Shape() && writer.Ready? && used + |buf| < BUFSIZE
      modifies this`nodes, this`used, this`sealed, this`due
      ensures S() == old(S().Filled(buf)) && S().Shape() && S().Heard() == old(S().HeardWith(buf))
    {
      hide Card.Shape, Card.Heard, Card.HeardWith, Spliced;
      S().CurrentFacts();
      S().FilledKeeps(buf);
      ghost var c := S().Filled(buf);
      var node := if used == 0 then Cleared() else nodes[index];
      nodes := nodes[index := node.(data := Spliced(node.data, used, buf), flag := 1)];
      used := used + |buf|;
      sealed, due := sealed && index in q, due + buf;
      assert S() == c;
    }

    /** The node being filled is completed and sent. */
    method WriteOverflows(buf: Bytes) returns (loops: bool)
      requires S().Shape() && writer.Ready? && used + |buf| >= BUFSIZE
      modifies this`nodes, this`head, this`descriptors, this`writer, this`q, this`sealed, this`due
      ensures writer == Scanning(0, buf[BUFSIZE - used..])
      ensures loops <==> index in old(q)
      ensures loops ==> Loops(nodes, head, q) && q[|q| - 1] == index
      ensures !loops ==> S().Shape() && due == old(due) + buf && S().Heard() == old(S().HeardWith(buf))
      ensures !loops ==> q == old(q) + [index] && !sealed
      ensures |nodes| == |old(nodes)| && forall i :: 0 <= i < |nodes| && i != index ==>
                nodes[i].data == old(nodes)[i].data && nodes[i].flag == old(nodes)[i].flag
    {
      hide Card.Shape, Card.Heard, Card.HeardWith, Chain, Programs, Spliced, Loops, ZeroFrom;
      ghost var c := S();
      c.CurrentFacts();
      var node := if used == 0 then Cleared() else nodes[index];
      var already := BUFSIZE - used;
      OverflowData(node.data, used, buf);
      loops := Send(index, Spliced(node.data, used, buf[..already]));
      writer := Scanning(0, buf[already..]);
      sealed, due := false, due + buf;
      if !loops {
        assert node.data[..used] == c.nodes[index].data[..used];
        c.OverflowKeeps(buf, S());
      }
    }

    /**
     The search looks at one node.  It is used if free; the search then ends
     unless the rest fills more than that node.
     */
    method ScanStep()
      requires S().Shape() && writer.Scanning?
      modifies this`nodes, this`head, this`descriptors, this`index, this`used, this`writer, this`q
      ensures S().Shape() && S().Heard() == old(S().Heard())
      ensures old(writer).i in old(q) ==>
                && nodes == old(nodes) && q == old(q)
                && writer == Scanning((old(writer).i + 1) % BUFFER_NODE_NUM, old(writer).rest)
      ensures writer.Ready? <==> old(writer).i !in old(q) && |old(writer).rest| < BUFSIZE
      ensures writer.Ready? ==> q == old(q) && index == old(writer).i && used == |old(writer).rest|
      ensures writer.Scanning? && old(writer).i !in old(q) ==>
                && q == old(q) + [old(writer).i] && |old(writer).rest| >= BUFSIZE
                && writer == Scanning((old(writer).i + 1) % BUFFER_NODE_NUM, old(writer).rest[BUFSIZE..])
      ensures forall i :: 0 <= i < |nodes| && i != old(writer).i ==>
                nodes[i].data == old(nodes)[i].data && nodes[i].flag == old(nodes)[i].flag
    {
      hide Card.Shape, Card.Heard, Spliced;
      var i, rest := writer.i, writer.rest;
      S().SearchFacts();
      if nodes[i].flag == 0 {
        if BUFSIZE > |rest| {
          S().SettledKeeps();
          ghost var c := S().Settled();
          nodes := nodes[i := Cleared().(data := Spliced(Cleared().data, 0, rest), flag := 1)];
          used, index, writer := |rest|, i, Ready;
          assert S() == c;
        } else {
          PassOn();
        }
      } else {
        S().MoveOnKeeps((i + 1) % BUFFER_NODE_NUM);
        writer := Scanning((i + 1) % BUFFER_NODE_NUM, rest);
      }
    }

    /** The search fills a free node completely and sends it. */
    method PassOn()
      requires S().Shape() && writer.Scanning? && writer.i !in q && |writer.rest| >= BUFSIZE
      modifies this`nodes, this`head, this`descriptors, this`writer, this`q
      ensures S().Shape() && S().Heard() == old(S().Heard()) && q == old(q) + [old(writer).i]
      ensures writer == Scanning((old(writer).i + 1) % BUFFER_NODE_NUM, old(writer).rest[BUFSIZE..])
      ensures forall i :: 0 <= i < |nodes| && i != old(writer).i ==>
                nodes[i].data == old(nodes)[i].data && nodes[i].flag == old(nodes)[i].flag
    {
      hide Card.Shape, Card.Heard, Chain, Programs, Spliced, Loops;
      ghost var c := S();
      c.SearchFacts();
      c.QueueFacts();
      var i, rest := writer.i, writer.rest;
      OverflowData(Cleared().data, 0, rest);
      assert Zeros(BUFSIZE)[..0] + rest[..BUFSIZE] == rest[..BUFSIZE];
      var loops := Send(i, Spliced(Cleared().data, 0, rest[..BUFSIZE]));
      writer := Scanning((i + 1) % BUFFER_NODE_NUM, rest[BUFSIZE..]);
      c.PassOnKeeps(S());
    }

    /**
     The writer's search under interference: an interrupt may come before each
     step, as `interrupts` says.  It returns when the data is placed, or when
     there is nothing left of the schedule and it still spins.
     */
    method Search(interrupts: seq<bool>) returns (steps: nat)
      requires S().Shape() && writer.Scanning?
      modifies this`nodes, this`head, this`descriptors, this`index, this`used, this`writer, this`q, this`played
      ensures S().Shape() && S().Heard() == old(S().Heard()) && steps <= |interrupts|
      ensures writer.Scanning? ==> steps == |interrupts|
      ensures writer.Ready? ==> SameRest(used, |old(writer).rest|)
      ensures |old(writer).rest| < BUFSIZE && FreesInTime(|old(q)|, interrupts) ==> writer.Ready?
    {
      hide Card.Shape, Card.Heard, Ahead, SameRest;
      S().QueueFacts();
      LessByNode(|writer.rest|, |writer.rest|);
      ghost var free: nat, deadline: int := BUFFER_NODE_NUM, 0;
      if |q| < BUFFER_NODE_NUM {
        free := S().FreeNode();
        deadline := BUFFER_NODE_NUM;
        AheadBound(writer.i, free);
      }
      steps := 0;
      while steps < |interrupts| && writer.Scanning?
        invariant steps <= |interrupts| && S().Shape() && S().Heard() == old(S().Heard())
        invariant SameRest(if writer.Scanning? then |writer.rest| else used, |old(writer).rest|)
        invariant writer.Scanning? && |old(writer).rest| < BUFSIZE ==> |writer.rest| < BUFSIZE
        invariant free == BUFFER_NODE_NUM ==>
                  |old(q)| == BUFFER_NODE_NUM && forall s :: 0 <= s < steps ==> !interrupts[s]
        invariant free != BUFFER_NODE_NUM && |old(writer).rest| < BUFSIZE && writer.Scanning? ==>
          Nearing(q, writer.i, free, deadline - steps)
        invariant free != BUFFER_NODE_NUM ==>
          (|old(q)| < BUFFER_NODE_NUM ==> deadline == BUFFER_NODE_NUM) && InTime(interrupts, deadline)
      {
        S().QueueFacts();
        if interrupts[steps] {
          if free == BUFFER_NODE_NUM {
            free, deadline := if q == [] then writer.i else q[0], steps + BUFFER_NODE_NUM;
            AheadBound(writer.i, free);
          }
          if head != -1 {
            Interrupt();
          }
        }
        AheadNext(writer.i, free);
        LessByNode(|writer.rest|, |old(writer).rest|);
        ScanStep();
        steps := steps + 1;
      }
      AheadEnds(writer, free);
    }

    /**
     Without any interrupt, a search for room for less than a node ends within
     one pass over the nodes as soon as one of them is not queued.
     */
    method SearchEnds() returns (steps: nat)
      requires S().Shape() && writer.Scanning? && |writer.rest| < BUFSIZE
      requires |q| < BUFFER_NODE_NUM
      modifies this`nodes, this`head, this`descriptors, this`index, this`used, this`writer, this`q
      ensures S().Shape() && S().Heard() == old(S().Heard()) && writer.Ready? && steps <= BUFFER_NODE_NUM && q == old(q)
    {
      hide Card.Shape, Card.Heard, Ahead;
      S().QueueFacts();
      ghost var free := S().FreeNode();
      AheadBound(writer.i, free);
      steps := 0;
      while writer.Scanning?
        invariant S().Shape() && S().Heard() == old(S().Heard()) && q == old(q)
        invariant writer.Scanning? ==> |writer.rest| < BUFSIZE && Nearing(q, writer.i, free, BUFFER_NODE_NUM - steps)
        invariant steps <= BUFFER_NODE_NUM
        decreases writer.Scanning?, BUFFER_NODE_NUM - steps
      {
        AheadBound(writer.i, free);
        AheadNext(writer.i, free);
        ScanStep();
        steps := steps + 1;
      }
    }

    /**
     sys_writeDecodedAudio under interference, in any state between calls: what
     is heard then does not depend on the interrupts.  The data is placed once an
     interrupt has left the search one more round; no call has more than 2048
     bytes.
     */
    method WriteDecodedAudio(buf: Bytes, interrupts: seq<bool>) returns (loops: bool)
      requires S().Shape() && writer.Ready?
      modifies this
      ensures loops <==> old(index in q) && old(used) + |buf| >= BUFSIZE
      ensures loops ==> Loops(nodes, head, q)
      ensures !loops ==> S().Shape() && due == old(due) + buf && S().Heard() == old(S().HeardWith(buf))
      ensures !loops ==> sealed == (old(sealed) && old(index in q))
      ensures !loops && writer.Ready? ==> used == (old(used) + |buf|) % BUFSIZE
      ensures !loops && |buf| <= BUFSIZE && FreesInTime(|old(q)| + 1, interrupts) ==> writer.Ready?
    {
      hide Card.Shape, Card.Heard, Card.HeardWith, Loops;
      S().CurrentFacts();
      S().QueueFacts();
      loops := Write(buf);
      if !loops && writer.Scanning? {
        LessByNode(old(used) + |buf|, old(used) + |buf|);
        var steps := Search(interrupts);
        S().QueueFacts();
      }
    }

    /**
     sys_finishWriteAudio: the remainder is sent, padded with zeros.  A second
     call sends it again: heard twice if it had been played, else a queue
     without end.
     */
    method Finish() returns (loops: bool)
      requires S().Shape() && writer.Ready?
      modifies this`nodes, this`head, this`descriptors, this`q, this`sealed, this`due
      ensures loops <==> index in old(q)
      ensures loops ==> Loops(nodes, head, q) && q[|q| - 1] == index
      ensures !loops ==> S().Shape() && sealed == (used > 0) && q == old(q) + if used > 0 then [index] else []
      ensures !loops ==> S().Heard() == old(S().HeardFinished())
      ensures due == old(due) + if used > 0 && !old(sealed) then Zeros(BUFSIZE - used) else []
      ensures |nodes| == |old(nodes)| && forall i :: 0 <= i < |nodes| ==> nodes[i].data == old(nodes)[i].data
    {
      hide Card.Shape, Card.Heard, Chain, Programs, Loops, ZeroFrom;
      ghost var c := S();
      c.CurrentFacts();
      loops := false;
      NoMore(due);
      if used > 0 {
        loops := Send(index, nodes[index].data);
        due := due + if sealed then [] else Zeros(BUFSIZE - used);
        sealed := true;
        if !loops {
          c.FinishKeeps(S());
        }
      }
    }
  }

  /** A node is free at the start, or an interrupt frees one, with a round of the search left to find it. */
  ghost predicate FreesInTime(queued: nat, interrupts: seq<bool>) {
    || (queued < BUFFER_NODE_NUM && BUFFER_NODE_NUM <= |interrupts|)
    || exists s :: 0 <= s <= |interrupts| - BUFFER_NODE_NUM && interrupts[s]
  }

  /** No interrupt comes so early that a round from it ends before the deadline. */
  ghost predicate InTime(interrupts: seq<bool>, deadline: int) {
    forall s :: 0 <= s < |interrupts| && interrupts[s] ==> deadline <= s + BUFFER_NODE_NUM
  }

  /** The search, at node i, reaches the free node in less than this many steps. */
  ghost predicate Nearing(q: seq<nat>, i: nat, free: nat, left: int) {
    i < BUFFER_NODE_NUM && free < BUFFER_NODE_NUM && free !in q && Ahead(i, free) < left
  }

  lemma AheadBound(i: nat, j: nat)
    requires i < BUFFER_NODE_NUM && j < BUFFER_NODE_NUM
    ensures 0 <= Ahead(i, j) < BUFFER_NODE_NUM
  {
  }

  lemma AheadNext(i: nat, j: nat)
    requires i < BUFFER_NODE_NUM
    ensures j < BUFFER_NODE_NUM && i != j ==> Ahead((i + 1) % BUFFER_NODE_NUM, j) == Ahead(i, j) - 1
  {
  }

  lemma AheadEnds(w: Writer, free: nat)
    ensures w.Scanning? && w.i < BUFFER_NODE_NUM && free < BUFFER_NODE_NUM ==> Ahead(w.i, free) >= 0
  {
  }

  /** How many steps the search is away from node j. */
  ghost function Ahead(i: nat, j: nat): (n: int)
    requires i < BUFFER_NODE_NUM && j < BUFFER_NODE_NUM
  {
    if i <= j then j - i else j - i + BUFFER_NODE_NUM
  }

  /** The same but for whole nodes. */
  ghost predicate SameRest(a: nat, b: nat) { a % BUFSIZE == b % BUFSIZE }

  lemma LessByNode(a: nat, b: nat)
    ensures SameRest(b, b) && (a >= BUFSIZE && SameRest(a, b) ==> SameRest(a - BUFSIZE, b))
  {
  }

  // ------------------------------------------------------------------
  // Calls after a finish

  /** A stream that is written, finished, played and then continued: its last node is heard twice. */
  method LateWriteRepeats(a: Bytes, b: Bytes) returns (card: SoundCard)
    requires 0 < |a| && |a| + |b| < BUFSIZE
    ensures fresh(card) && card.S().Shape() && card.due == a + Zeros(BUFSIZE - |a|) + b && !card.S().Valid()
    ensures card.played == a + Zeros(BUFSIZE - |a|) && card.S().Heard() == card.played + (a + b)
  {
    hide Card.Shape, Card.Heard, Zeros, Card.Unpadded, Spliced;
    card := Drained(a);
    assert card.due[..|a|] == a;
    var loops := card.Write(b);
  }

  /** Continued before it is played: the data goes where the padding was, and nothing is repeated. */
  method LateWriteInPlace(a: Bytes, b: Bytes) returns (card: SoundCard)
    requires 0 < |a| && |a| + |b| < BUFSIZE
    ensures fresh(card) && card.S().Shape() && card.S().Heard() == a + b + Zeros(BUFSIZE - |a| - |b|)
  {
    hide Card.Shape, Card.Heard, Zeros, Spliced;
    card := Finished(a);
    assert (a + Zeros(BUFSIZE - |a|))[..|a|] == a;
    var loops := card.Write(b);
  }

  /** Finished twice before it is played: the queue has no end. */
  method SecondFinishLoops(a: Bytes) returns (card: SoundCard)
    requires 0 < |a| < BUFSIZE
    ensures fresh(card) && Loops(card.nodes, card.head, card.q)
  {
    hide Card.Shape, Card.Heard, Zeros, Loops;
    card := Finished(a);
    var loops := card.Finish();
  }

  /** Finished twice, the second time after it was played: all of it is heard twice. */
  method SecondFinishRepeats(a: Bytes) returns (card: SoundCard)
    requires 0 < |a| < BUFSIZE
    ensures fresh(card) && card.S().Shape() && card.due == a + Zeros(BUFSIZE - |a|) && !card.S().Valid()
    ensures card.S().Heard() == card.due + card.due
  {
    hide Card.Shape, Card.Heard, Zeros;
    card := Drained(a);
    NoMore(card.due);
    var loops := card.Finish();
  }

  /** A new stream of less than a node, finished and played. */
  method Drained(a: Bytes) returns (card: SoundCard)
    requires 0 < |a| < BUFSIZE
    ensures fresh(card) && card.S().Valid() && card.writer.Ready? && card.sealed && card.q == []
    ensures card.used == |a| && card.played == card.due == a + Zeros(BUFSIZE - |a|) && card.index < |card.nodes|
    ensures card.nodes[card.index].data == card.due
  {
    hide Card.Shape, Card.Heard, Zeros;
    card := Finished(a);
    NoMore(card.due);
    card.S().CurrentFacts();
    card.Interrupt();
    card.S().CurrentFacts();
  }

  /** A new stream of less than a node, finished. */
  method Finished(a: Bytes) returns (card: SoundCard)
    requires 0 < |a| < BUFSIZE
    ensures fresh(card) && card.S().Valid() && card.writer.Ready? && card.sealed && card.q == [card.index]
    ensures card.played == []
    ensures card.used == |a| && card.due == a + Zeros(BUFSIZE - |a|) && card.index < |card.nodes|
    ensures card.nodes[card.index].data == a + Zeros(BUFSIZE - |a|)
  {
    hide Card.Shape, Card.Heard, Spliced, Zeros;
    card := new SoundCard();
    card.S().CurrentFacts();
    FilledData(Zeros(BUFSIZE), 0, a);
    NoMore(a);
    var loops := card.Write(a);
    card.S().CurrentFacts();
    loops := card.Finish();
  }
}
