/** The binary min-heap the greedy merge works on, kept in a list as the
    standard heap module keeps it: the parent of position i > 0 sits at
    (i - 1) / 2 and is never larger than its child.  Push and pop keep that
    order; pop hands back a node of least count.  Which of several nodes of
    equal count comes out first is not part of the contract. */
module HeapQ {
  import opened Nodes

  function Parent(i: nat): nat
    requires i > 0
  {
    (i - 1) / 2
  }

  /** No node is smaller than its parent. */
  predicate IsMinHeap(heap: seq<Node>) {
    forall i :: 0 < i < |heap| ==> !Less(heap[i], heap[Parent(i)])
  }

  /** The root of a heap is a node of least count. */
  lemma {:induction false} RootIsMinimal(heap: seq<Node>, i: nat)
    requires IsMinHeap(heap) && i < |heap|
    ensures heap[0].freq <= heap[i].freq
    decreases i
  {
    if i > 0 {
      RootIsMinimal(heap, Parent(i));
    }
  }

  /** The heap order with one exception: `pos` may be smaller than its
      parent, though that parent is still no larger than pos's children. */
  predicate HeapExceptAt(a: seq<Node>, pos: nat) {
    && (forall i :: 0 < i < |a| && i != pos ==> !Less(a[i], a[Parent(i)]))
    && (pos > 0 ==> forall i :: 0 < i < |a| && Parent(i) == pos ==> !Less(a[i], a[Parent(pos)]))
  }

  /** Swapping `pos` with a larger parent moves the exception one level up. */
  lemma SiftUpStep(a: seq<Node>, pos: nat)
    requires 0 < pos < |a| && HeapExceptAt(a, pos)
    requires Less(a[pos], a[Parent(pos)])
    ensures HeapExceptAt(a[Parent(pos) := a[pos]][pos := a[Parent(pos)]], Parent(pos))
    ensures multiset(a[Parent(pos) := a[pos]][pos := a[Parent(pos)]]) == multiset(a)
  {
    var p := Parent(pos);
    var b := a[p := a[pos]][pos := a[p]];
    forall i | 0 < i < |b| && i != p ensures !Less(b[i], b[Parent(i)]) {
      if i == pos {
      } else if Parent(i) == pos {
        assert b[Parent(i)] == a[p];
      } else if Parent(i) == p {
        assert b[i] == a[i];
      }
    }
    if p > 0 {
      forall i | 0 < i < |b| && Parent(i) == p ensures !Less(b[i], b[Parent(p)]) {
        assert b[Parent(p)] == a[Parent(p)];
      }
    }
  }

  /** Once `pos` is no smaller than its parent, the exception is gone. */
  lemma SiftUpDone(a: seq<Node>, pos: nat)
    requires pos < |a| && HeapExceptAt(a, pos)
    requires pos > 0 ==> !Less(a[pos], a[Parent(pos)])
    ensures IsMinHeap(a)
  {
  }

  /** Adds `item`, then moves it up past every larger parent. */
  method HeapPush(heap: seq<Node>, item: Node) returns (grown: seq<Node>)
    requires IsMinHeap(heap)
    ensures IsMinHeap(grown)
    ensures multiset(grown) == multiset(heap) + multiset{item}
    ensures |grown| == |heap| + 1
  {
    var a := heap + [item];
    var pos := |heap|;
    while pos > 0 && Less(a[pos], a[Parent(pos)])
      invariant 0 <= pos < |a| == |heap| + 1
      invariant multiset(a) == multiset(heap) + multiset{item}
      invariant HeapExceptAt(a, pos)
    {
      var parent := Parent(pos);
      SiftUpStep(a, pos);
      a := a[parent := a[pos]][pos := a[parent]];
      pos := parent;
    }
    SiftUpDone(a, pos);
    grown := a;
  }

  /** The heap order with one exception: `pos` may be larger than its
      children, though its own parent is still no larger than they are. */
  predicate HeapExceptBelow(a: seq<Node>, pos: nat) {
    && (forall i :: 0 < i < |a| && Parent(i) != pos ==> !Less(a[i], a[Parent(i)]))
    && (pos > 0 ==> forall i :: 0 < i < |a| && Parent(i) == pos ==> !Less(a[i], a[Parent(pos)]))
  }

  /** The child of `pos` that the sift compares against: as in the standard
      heap module, the right one whenever it exists and the left one is not
      strictly smaller. */
  function SmallerChild(a: seq<Node>, pos: nat): (child: nat)
    requires 2 * pos + 1 < |a|
    ensures child > pos && Parent(child) == pos && child < |a|
    ensures forall i :: 0 < i < |a| && Parent(i) == pos ==> !Less(a[i], a[child])
  {
    if 2 * pos + 2 < |a| && !Less(a[2 * pos + 1], a[2 * pos + 2]) then 2 * pos + 2 else 2 * pos + 1
  }

  /** Swapping `pos` with its smaller child moves the exception one level down. */
  lemma SiftDownStep(a: seq<Node>, pos: nat, child: nat)
    requires pos < child < |a| && Parent(child) == pos
    requires HeapExceptBelow(a, pos)
    requires forall i :: 0 < i < |a| && Parent(i) == pos ==> !Less(a[i], a[child])
    requires Less(a[child], a[pos])
    ensures HeapExceptBelow(a[pos := a[child]][child := a[pos]], child)
    ensures multiset(a[pos := a[child]][child := a[pos]]) == multiset(a)
  {
  }

  /** Once `pos` has no child smaller than itself, the exception is gone. */
  lemma SiftDownDone(a: seq<Node>, pos: nat)
    requires HeapExceptBelow(a, pos)
    requires 2 * pos + 1 < |a| ==> !Less(a[SmallerChild(a, pos)], a[pos])
    ensures IsMinHeap(a)
  {
    forall i | 0 < i < |a| ensures !Less(a[i], a[Parent(i)]) {
      if Parent(i) == pos {
        assert 2 * pos + 1 < |a|;
      }
    }
  }

  /** Moves the node at `pos` down past every smaller child. */
  method SiftDown(a: seq<Node>, pos: nat) returns (b: seq<Node>)
    requires pos < |a| && HeapExceptBelow(a, pos)
    ensures IsMinHeap(b)
    ensures multiset(b) == multiset(a) && |b| == |a|
  {
    b := a;
    var p := pos;
    while 2 * p + 1 < |b| && Less(b[SmallerChild(b, p)], b[p])
      invariant p < |b| == |a|
      invariant multiset(b) == multiset(a)
      invariant HeapExceptBelow(b, p)
      decreases |b| - p
    {
      var child := SmallerChild(b, p);
      SiftDownStep(b, p, child);
      b := b[p := b[child]][child := b[p]];
      p := child;
    }
    SiftDownDone(b, p);
  }

  /** Takes the root out, puts the last node in its place and sifts it down. */
  method HeapPop(heap: seq<Node>) returns (smallest: Node, rest: seq<Node>)
    requires IsMinHeap(heap) && |heap| > 0
    ensures forall n :: n in heap ==> smallest.freq <= n.freq
    ensures IsMinHeap(rest)
    ensures multiset(heap) == multiset(rest) + multiset{smallest}
    ensures |rest| == |heap| - 1
  {
    smallest := heap[0];
    forall n | n in heap ensures smallest.freq <= n.freq {
      var i :| 0 <= i < |heap| && heap[i] == n;
      RootIsMinimal(heap, i);
    }
    var last := heap[|heap| - 1];
    var a := heap[..|heap| - 1];
    assert heap == a + [last];
    if a == [] {
      rest := a;
    } else {
      assert multiset(a) == multiset(a[1..]) + multiset{smallest} by {
        assert a == [smallest] + a[1..];
      }
      assert a[0 := last] == [last] + a[1..];
      rest := SiftDown(a[0 := last], 0);
    }
  }
}
