/** The array-backed binary min-heap of the merge stage (`heapItem`, `minHeap`).
    Slot 0 is the root; the parent of slot i > 0 is slot (i - 1) / 2 and its
    children are 2 * i + 1 and 2 * i + 2. Items are ordered by `val` only. */
module Heap {

  /** A candidate value with the chunk it came from and its position in that chunk. */
  datatype HeapItem = HeapItem(val: int, chunkIdx: int, posIdx: int)

  /** The zero value `heapItem{}` that `pop` returns on an empty heap. */
  const NoItem := HeapItem(0, 0, 0)

  /** Every parent's value is at most its child's. */
  ghost predicate HeapOrdered(d: seq<HeapItem>) {
    forall i, j {:trigger d[i], d[j]} :: 0 < j < |d| && i == (j - 1) / 2 ==> d[i].val <= d[j].val
  }

  /** Heap order holds except that slot k may be smaller than its parent; its
      parent is still at most each of k's children. The state during `siftUp`. */
  ghost predicate OrderedExceptUp(d: seq<HeapItem>, k: nat) {
    && (forall p, i {:trigger d[p], d[i]} :: 0 < i < |d| && i != k && p == (i - 1) / 2 ==> d[p].val <= d[i].val)
    && (forall i :: 0 < i < |d| && (i - 1) / 2 == k && 0 < k < |d| ==>
          d[(k - 1) / 2].val <= d[i].val)
  }

  /** Heap order holds except that slot k may be larger than its children; k's
      parent is still at most each of them. The state during `siftDown`. */
  ghost predicate OrderedExceptDown(d: seq<HeapItem>, k: nat) {
    && (forall p, i {:trigger d[p], d[i]} :: 0 < i < |d| && p != k && p == (i - 1) / 2 ==> d[p].val <= d[i].val)
    && (forall i :: 0 < i < |d| && (i - 1) / 2 == k && 0 < k < |d| ==>
          d[(k - 1) / 2].val <= d[i].val)
  }

  /** In a heap-ordered layout the root holds a smallest value. */
  lemma {:induction false} RootIsMin(d: seq<HeapItem>, k: nat)
    requires HeapOrdered(d) && k < |d|
    ensures d[0].val <= d[k].val
    decreases k
  {
    if k > 0 {
      RootIsMin(d, (k - 1) / 2);
    }
  }

  /** Hence no item held has a smaller value than the root's. */
  lemma RootIsLeast(d: seq<HeapItem>)
    requires HeapOrdered(d) && |d| > 0
    ensures forall x :: x in multiset(d) ==> d[0].val <= x.val
  {
    forall x | x in multiset(d)
      ensures d[0].val <= x.val
    {
      var k :| 0 <= k < |d| && d[k] == x;
      RootIsMin(d, k);
    }
  }

  /** The layout with slots a and b exchanged. */
  function Swapped(d: seq<HeapItem>, a: nat, b: nat): (r: seq<HeapItem>)
    requires a < |d| && b < |d|
    ensures |r| == |d| && multiset(r) == multiset(d)
  {
    d[a := d[b]][b := d[a]]
  }

  /** One step of `siftUp`: exchanging k with its larger parent moves the fault up. */
  lemma SiftUpStep(d: seq<HeapItem>, k: nat)
    requires 0 < k < |d| && OrderedExceptUp(d, k)
    requires d[k].val < d[(k - 1) / 2].val
    ensures OrderedExceptUp(Swapped(d, (k - 1) / 2, k), (k - 1) / 2)
  {
  }

  /** `siftUp` stops: the fault at k is gone once its parent is no larger or k is the root. */
  lemma SiftUpDone(d: seq<HeapItem>, k: nat)
    requires k < |d| && OrderedExceptUp(d, k)
    requires k == 0 || d[(k - 1) / 2].val <= d[k].val
    ensures HeapOrdered(d)
  {
  }

  /** One step of `siftDown`: exchanging k with its smallest child s moves the fault down. */
  lemma SiftDownStep(d: seq<HeapItem>, k: nat, s: nat)
    requires s < |d| && (s == 2 * k + 1 || s == 2 * k + 2) && OrderedExceptDown(d, k)
    requires d[s].val < d[k].val
    requires 2 * k + 1 < |d| ==> d[s].val <= d[2 * k + 1].val
    requires 2 * k + 2 < |d| ==> d[s].val <= d[2 * k + 2].val
    ensures OrderedExceptDown(Swapped(d, k, s), s)
  {
    var e := Swapped(d, k, s);
    forall i {:trigger e[i]} | 0 < i < |e| && (i - 1) / 2 != s
      ensures e[(i - 1) / 2].val <= e[i].val
    {
      SiftDownStepAt(d, k, s, i);
    }
    forall i {:trigger e[i]} | 0 < i < |e| && (i - 1) / 2 == s && 0 < s
      ensures e[(s - 1) / 2].val <= e[i].val
    {
      assert e[i] == d[i];
      assert d[s].val <= d[i].val;
    }
  }

  lemma SiftDownStepAt(d: seq<HeapItem>, k: nat, s: nat, i: nat)
    requires s < |d| && (s == 2 * k + 1 || s == 2 * k + 2) && OrderedExceptDown(d, k)
    requires d[s].val < d[k].val
    requires 2 * k + 1 < |d| ==> d[s].val <= d[2 * k + 1].val
    requires 2 * k + 2 < |d| ==> d[s].val <= d[2 * k + 2].val
    requires 0 < i < |d| && (i - 1) / 2 != s
    ensures Swapped(d, k, s)[(i - 1) / 2].val <= Swapped(d, k, s)[i].val
  {
    var e := Swapped(d, k, s);
    var p := (i - 1) / 2;
    if i == s {
      assert p == k;
    } else if p == k {
      assert i == 2 * k + 1 || i == 2 * k + 2;
      assert e[p] == d[s] && e[i] == d[i];
    } else if i == k {
      assert (s - 1) / 2 == k;
      assert e[p] == d[p] && e[i] == d[s];
      assert d[p].val <= d[s].val;
    } else {
      assert e[p] == d[p] && e[i] == d[i];
      assert d[p].val <= d[i].val;
    }
  }

  /** `pop` moves the last item into the emptied root: what was a heap is then
      faulty at the root only. */
  lemma ReplaceRoot(d: seq<HeapItem>)
    requires |d| >= 2 && HeapOrdered(d)
    ensures OrderedExceptDown(d[..|d| - 1][0 := d[|d| - 1]], 0)
  {
    var e := d[..|d| - 1][0 := d[|d| - 1]];
    forall i {:trigger e[i]} | 0 < i < |e| && (i - 1) / 2 != 0
      ensures e[(i - 1) / 2].val <= e[i].val
    {
      assert e[i] == d[i] && e[(i - 1) / 2] == d[(i - 1) / 2];
    }
  }

  /** `siftDown` stops: the fault at k is gone once no child is smaller. */
  lemma SiftDownDone(d: seq<HeapItem>, k: nat)
    requires OrderedExceptDown(d, k)
    requires 2 * k + 1 < |d| ==> d[k].val <= d[2 * k + 1].val
    requires 2 * k + 2 < |d| ==> d[k].val <= d[2 * k + 2].val
    ensures HeapOrdered(d)
  {
  }

  class MinHeap {
    var data: seq<HeapItem>

    ghost predicate Valid()
      reads this
    {
      HeapOrdered(data)
    }

    /** The items held, with multiplicity. */
    ghost function Items(): multiset<HeapItem>
      reads this
    {
      multiset(data)
    }

    constructor ()
      ensures Valid() && Items() == multiset{}
    {
      data := [];
    }

    /** `Len`: the number of items held. */
    function Len(): (n: nat)
      reads this
      ensures n == |Items()|
      ensures n == 0 <==> Items() == multiset{}
    {
      |data|
    }

    /** `push`: appends x at the end and sifts it up. */
    method Push(x: HeapItem)
      requires Valid()
      modifies this
      ensures Valid()
      ensures Items() == old(Items()) + multiset{x}
    {
      data := data + [x];
      SiftUp(|data| - 1);
    }

    /** `pop`: on an empty heap reports false and leaves the heap as it was;
        otherwise removes and returns an item of least value. */
    method Pop() returns (item: HeapItem, ok: bool)
      requires Valid()
      modifies this
      ensures Valid()
      ensures ok <==> old(Items()) != multiset{}
      ensures !ok ==> item == NoItem && data == old(data)
      ensures ok ==> item in old(Items()) && Items() == old(Items()) - multiset{item}
      ensures ok ==> forall x :: x in old(Items()) ==> item.val <= x.val
      ensures ok ==> forall x :: x in Items() ==> item.val <= x.val
    {
      if |data| == 0 {
        return NoItem, false;
      }
      ghost var d := data;
      var top := data[0];
      var last := data[|data| - 1];
      data := data[..|data| - 1];
      if |data| > 0 {
        ReplaceRoot(d);
        data := data[0 := last];
        assert multiset(data) == multiset(d) - multiset{top} by {
          assert d == [top] + d[1..|d| - 1] + [last];
          assert data == [last] + d[1..|d| - 1];
        }
        SiftDown(0);
      } else {
        assert d == [top];
      }
      RootIsLeast(d);
      return top, true;
    }

    /** `siftUp`: swaps the item at i with its parent while the parent is larger. */
    method SiftUp(i: nat)
      requires i < |data| && OrderedExceptUp(data, i)
      modifies this
      ensures Valid()
      ensures Items() == old(Items())
    {
      var k: nat := i;
      while k > 0
        invariant k < |data|
        invariant OrderedExceptUp(data, k)
        invariant Items() == old(Items())
      {
        var p := (k - 1) / 2;
        if data[p].val <= data[k].val {
          break;
        }
        SiftUpStep(data, k);
        data := Swapped(data, p, k);
        k := p;
      }
      SiftUpDone(data, k);
    }

    /** `siftDown`: swaps the item at i with its smaller child while that child is
        smaller still. */
    method SiftDown(i: nat)
      requires OrderedExceptDown(data, i)
      modifies this
      ensures Valid()
      ensures Items() == old(Items())
    {
      var n := |data|;
      var k: nat := i;
      while true
        invariant n == |data|
        invariant OrderedExceptDown(data, k)
        invariant Items() == old(Items())
        decreases n - k
      {
        var l := 2 * k + 1;
        var r := 2 * k + 2;
        var smallest := k;
        if l < n && data[l].val < data[smallest].val {
          smallest := l;
        }
        if r < n && data[r].val < data[smallest].val {
          smallest := r;
        }
        if smallest == k {
          SiftDownDone(data, k);
          return;
        }
        SiftDownStep(data, k, smallest);
        data := Swapped(data, k, smallest);
        k := smallest;
      }
    }
  }
}
