/**
 The circular doubly linked list of kernel/bio.c.  Buffers are 0..h and h
 itself stands for bcache.head; `order` is the list from head.next (most
 recently used) to head.prev (least recently used).
 */
module BufferList {
  import opened Common

  /** The nodes along the circle, from the head round to the head again. */
  ghost function Circle(h: nat, order: seq<nat>): (c: seq<nat>)
    ensures |c| == |order| + 2 && c[0] == h && c[|order| + 1] == h
    ensures forall i {:trigger c[i]} :: 1 <= i <= |order| ==> c[i] == order[i - 1]
  {
    [h] + order + [h]
  }

  ghost predicate Distinct(h: nat, order: seq<nat>) {
    && (forall i :: 0 <= i < |order| ==> order[i] < h)
    && forall i, j :: 0 <= i < j < |order| ==> order[i] != order[j]
  }

  /** The links at one arc of the circle agree with `order`. */
  ghost predicate ArcAt(h: nat, next: seq<nat>, prev: seq<nat>, order: seq<nat>, i: int)
    requires 0 <= i <= |order| && |next| == |prev| == h + 1 && Distinct(h, order)
  {
    var c := Circle(h, order);
    next[c[i]] == c[i + 1] && prev[c[i + 1]] == c[i]
  }

  ghost predicate Linked(h: nat, next: seq<nat>, prev: seq<nat>, order: seq<nat>) {
    && |next| == |prev| == h + 1 && Distinct(h, order)
    && forall i :: 0 <= i <= |order| ==> ArcAt(h, next, prev, order, i)
  }

  /** brelse and binit: put b between the head and the first buffer. */
  ghost function PushNext(h: nat, next: seq<nat>, b: nat): (r: seq<nat>)
    requires |next| == h + 1 && b < h
  {
    next[b := next[h]][h := b]
  }

  ghost function PushPrev(h: nat, next: seq<nat>, prev: seq<nat>, b: nat): (r: seq<nat>)
    requires |next| == |prev| == h + 1 && b < h && next[h] <= h
  {
    prev[b := h][next[h] := b]
  }

  lemma PushKeepsLinked(h: nat, next: seq<nat>, prev: seq<nat>, order: seq<nat>, b: nat)
    requires Linked(h, next, prev, order) && b < h && b !in order
    ensures next[h] <= h
    ensures Linked(h, PushNext(h, next, b), PushPrev(h, next, prev, b), [b] + order)
  {
    var c, order' := Circle(h, order), [b] + order;
    var c' := Circle(h, order');
    assert ArcAt(h, next, prev, order, 0);
    var next', prev' := PushNext(h, next, b), PushPrev(h, next, prev, b);
    assert Distinct(h, order');
    forall i | 0 <= i <= |order'| ensures ArcAt(h, next', prev', order', i) {
      if i >= 2 {
        assert ArcAt(h, next, prev, order, i - 1);
        assert c'[i] == c[i - 1] && c'[i + 1] == c[i];
      } else {
        assert i == 1 ==> c'[2] == c[1];
      }
    }
  }

  /** brelse: take the buffer at position k out of the list. */
  lemma UnlinkKeepsLinked(h: nat, next: seq<nat>, prev: seq<nat>, order: seq<nat>, k: nat)
    requires Linked(h, next, prev, order) && k < |order|
    ensures var b := order[k];
            && next[b] <= h && prev[b] <= h
            && Linked(h, next[prev[b] := next[b]], prev[next[b] := prev[b]], Without(order, k))
  {
    var b, order' := order[k], Without(order, k);
    var c, c' := Circle(h, order), Circle(h, order');
    assert ArcAt(h, next, prev, order, k) && ArcAt(h, next, prev, order, k + 1);
    var next', prev' := next[prev[b] := next[b]], prev[next[b] := prev[b]];
    assert Distinct(h, order');
    forall i | 0 <= i <= |order'| ensures ArcAt(h, next', prev', order', i) {
      var j := if i <= k then i else i + 1;
      assert c'[i] == c[j];
      assert i != k ==> c'[i + 1] == c[j + 1];
      assert i == k ==> c'[i + 1] == c[k + 2];
      assert ArcAt(h, next, prev, order, j);
    }
  }
}
