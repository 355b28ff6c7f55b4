/**
 * The binary min-heap that serves as Dijkstra's priority queue: an array of
 * `{ cost, nodeId }` items in which every parent costs no more than its
 * children, restored by sifting up after a push and down after a pop.
 */
module Heap {
  import opened Wrappers

  datatype HeapItem = HeapItem(cost: int, nodeId: string)

  /** `Math.floor((i - 1) / 2)` for a positive index. */
  function Parent(i: nat): nat
    requires i > 0
  {
    (i - 1) / 2
  }

  /** Every item costs at least as much as its parent. */
  ghost predicate IsHeap(h: seq<HeapItem>) {
    forall i | 0 < i < |h| :: h[Parent(i)].cost <= h[i].cost
  }

  /** Exchanging two items keeps the same items. */
  function Swap(h: seq<HeapItem>, i: nat, j: nat): (r: seq<HeapItem>)
    requires i < |h| && j < |h|
    ensures |r| == |h| && r[i] == h[j] && r[j] == h[i]
    ensures forall k | 0 <= k < |h| && k != i && k != j :: r[k] == h[k]
    ensures multiset(r) == multiset(h)
  {
    h[i := h[j]][j := h[i]]
  }

  /** The root of a heap costs no more than any item. */
  lemma {:induction false} RootMin(h: seq<HeapItem>, i: nat)
    requires IsHeap(h) && i < |h|
    ensures h[0].cost <= h[i].cost
    decreases i
  {
    if i > 0 {
      RootMin(h, Parent(i));
    }
  }

  /**
   * The heap during `_bubbleUp`: ordered everywhere except between `idx`
   * and its parent, and the parent of `idx` is no costlier than its children.
   */
  ghost predicate HeapExceptUp(h: seq<HeapItem>, idx: nat) {
    && (forall i | 0 < i < |h| && i != idx :: h[Parent(i)].cost <= h[i].cost)
    && (idx > 0 ==> forall c | 0 < c < |h| && Parent(c) == idx :: h[Parent(idx)].cost <= h[c].cost)
  }

  /**
   * The heap during `_sinkDown`: ordered everywhere except between `idx`
   * and its children, and the parent of `idx` is no costlier than them.
   */
  ghost predicate HeapExceptDown(h: seq<HeapItem>, idx: nat) {
    && (forall i | 0 < i < |h| && Parent(i) != idx :: h[Parent(i)].cost <= h[i].cost)
    && (idx > 0 ==> forall c | 0 < c < |h| && Parent(c) == idx :: h[Parent(idx)].cost <= h[c].cost)
  }

  class MinHeap {
    var heap: seq<HeapItem>

    ghost predicate Valid()
      reads this
    {
      IsHeap(heap)
    }

    constructor()
      ensures heap == [] && Valid()
    {
      heap := [];
    }

    /** `get size`: the number of queued items. */
    function Size(): (n: nat)
      reads this
      ensures n == |multiset(heap)|
    {
      |heap|
    }

    /** `push`: queues one more item. */
    method Push(item: HeapItem)
      requires Valid()
      modifies this
      ensures Valid()
      ensures multiset(heap) == multiset(old(heap)) + multiset{item}
      ensures Size() == old(Size()) + 1
    {
      heap := heap + [item];
      BubbleUp(|heap| - 1);
    }

    /**
     * `pop`: `null` on an empty heap, which stays empty; otherwise the root,
     * which costs no more than any queued item, is removed and returned.
     */
    method Pop() returns (top: Option<HeapItem>)
      requires Valid()
      modifies this
      ensures Valid()
      ensures old(heap) == [] ==> top == None && heap == []
      ensures old(heap) != [] ==>
        && top == Some(old(heap)[0])
        && (forall x | x in old(heap) :: top.value.cost <= x.cost)
        && multiset(heap) == multiset(old(heap)) - multiset{top.value}
        && Size() == old(Size()) - 1
    {
      if |heap| == 0 {
        return None;
      }
      var first := heap[0];
      forall x | x in heap ensures first.cost <= x.cost {
        var k :| 0 <= k < |heap| && heap[k] == x;
        RootMin(heap, k);
      }
      var last := heap[|heap| - 1];
      ghost var before := heap;
      heap := heap[..|heap| - 1];
      assert before == heap + [last];
      if |heap| > 0 {
        RemoveRoot(heap, last);
        heap := heap[0 := last];
        SinkDown(0);
      }
      assert multiset(before) == multiset(heap) + multiset{first};
      top := Some(first);
    }

    /** `_bubbleUp(idx)`: moves the item at `idx` up until its parent is no costlier. */
    method BubbleUp(idx: nat)
      requires idx < |heap| && HeapExceptUp(heap, idx)
      modifies this
      ensures IsHeap(heap) && multiset(heap) == multiset(old(heap)) && |heap| == |old(heap)|
    {
      var i: nat := idx;
      while i > 0
        invariant i < |heap| && |heap| == |old(heap)|
        invariant HeapExceptUp(heap, i)
        invariant multiset(heap) == multiset(old(heap))
        decreases i
      {
        var p := Parent(i);
        if heap[p].cost <= heap[i].cost {
          break;
        }
        UpStep(heap, i);
        heap := Swap(heap, p, i);
        i := p;
      }
    }

    /** `_sinkDown(idx)`: moves the item at `idx` down until no child is cheaper. */
    method SinkDown(idx: nat)
      requires idx < |heap| && HeapExceptDown(heap, idx)
      modifies this
      ensures IsHeap(heap) && multiset(heap) == multiset(old(heap)) && |heap| == |old(heap)|
    {
      var length := |heap|;
      var i: nat := idx;
      while true
        invariant i < |heap| && |heap| == length
        invariant HeapExceptDown(heap, i)
        invariant multiset(heap) == multiset(old(heap))
        decreases length - i
      {
        var smallest := i;
        var left := 2 * i + 1;
        var right := 2 * i + 2;
        if left < length && heap[left].cost < heap[smallest].cost {
          smallest := left;
        }
        if right < length && heap[right].cost < heap[smallest].cost {
          smallest := right;
        }
        assert left < length ==> heap[smallest].cost <= heap[left].cost;
        assert right < length ==> heap[smallest].cost <= heap[right].cost;
        if smallest == i {
          DownDone(heap, i);
          break;
        }
        DownStep(heap, i, smallest);
        heap := Swap(heap, smallest, i);
        i := smallest;
      }
    }
  }

  /** Swapping an item with a costlier parent moves the exception one level up. */
  lemma UpStep(h: seq<HeapItem>, i: nat)
    requires 0 < i < |h| && HeapExceptUp(h, i) && h[Parent(i)].cost > h[i].cost
    ensures HeapExceptUp(Swap(h, Parent(i), i), Parent(i))
  {
    var p := Parent(i);
    var r := Swap(h, p, i);
    forall k | 0 < k < |r| && k != p ensures r[Parent(k)].cost <= r[k].cost {
      if Parent(k) == i {
        assert r[Parent(k)] == h[p];
      } else if Parent(k) == p && k != i {
        assert h[p].cost <= h[k].cost;
      }
    }
    if p > 0 {
      forall c | 0 < c < |r| && Parent(c) == p ensures r[Parent(p)].cost <= r[c].cost {
        assert r[Parent(p)] == h[Parent(p)];
        assert h[Parent(p)].cost <= h[p].cost;
      }
    }
  }

  /** The children of `i` are `2i + 1` and `2i + 2`. */
  lemma Children(i: nat, c: nat)
    requires c > 0
    ensures Parent(c) == i <==> c == 2 * i + 1 || c == 2 * i + 2
  {
  }

  /** When no child of `i` is cheaper than `i`, the heap is whole. */
  lemma DownDone(h: seq<HeapItem>, i: nat)
    requires i < |h| && HeapExceptDown(h, i)
    requires 2 * i + 1 < |h| ==> h[i].cost <= h[2 * i + 1].cost
    requires 2 * i + 2 < |h| ==> h[i].cost <= h[2 * i + 2].cost
    ensures IsHeap(h)
  {
    forall c | 0 < c < |h| && Parent(c) == i ensures h[Parent(c)].cost <= h[c].cost {
      Children(i, c);
    }
  }

  /** Swapping `i` with its cheapest child moves the exception one level down. */
  lemma DownStep(h: seq<HeapItem>, i: nat, s: nat)
    requires i < s < |h| && HeapExceptDown(h, i)
    requires s == 2 * i + 1 || s == 2 * i + 2
    requires h[s].cost < h[i].cost
    requires 2 * i + 1 < |h| ==> h[s].cost <= h[2 * i + 1].cost
    requires 2 * i + 2 < |h| ==> h[s].cost <= h[2 * i + 2].cost
    ensures HeapExceptDown(Swap(h, s, i), s)
  {
    var r := Swap(h, s, i);
    assert Parent(s) == i;
    forall k | 0 < k < |r| && Parent(k) != s ensures r[Parent(k)].cost <= r[k].cost {
      if Parent(k) == i {
        Children(i, k);
        assert r[Parent(k)] == h[s];
      } else if k == i {
        assert r[Parent(k)] == h[Parent(i)] && r[k] == h[s];
      } else {
        assert r[Parent(k)] == h[Parent(k)] && r[k] == h[k];
      }
    }
    forall c | 0 < c < |r| && Parent(c) == s ensures r[Parent(s)].cost <= r[c].cost {
      assert r[Parent(s)] == h[s] && r[c] == h[c];
    }
  }

  /** Moving the last item into the root of the remaining items leaves the exception at the root. */
  lemma RemoveRoot(h: seq<HeapItem>, last: HeapItem)
    requires |h| > 0 && IsHeap(h + [last])
    ensures HeapExceptDown(h[0 := last], 0)
    ensures multiset(h[0 := last]) + multiset{h[0]} == multiset(h) + multiset{last}
  {
    var r := h[0 := last];
    forall i | 0 < i < |r| && Parent(i) != 0 ensures r[Parent(i)].cost <= r[i].cost {
      assert (h + [last])[Parent(i)] == h[Parent(i)] && (h + [last])[i] == h[i];
    }
    assert h == [h[0]] + h[1..] && r == [last] + h[1..];
  }
}
