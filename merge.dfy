/** The k-way merge, `mergeSortedChunks`: a min-heap holds the next unused element
    of every chunk not yet used up; the least of them goes to the output and is
    replaced by its successor in the same chunk. */
module Merge {
  import opened Seqs
  import opened Heap

  /** Chunk cursors: pos[c] elements of chunk c have been emitted so far. */
  ghost predicate Cursors(cs: seq<seq<int>>, pos: seq<nat>) {
    |pos| == |cs| && forall c :: 0 <= c < |cs| ==> pos[c] <= |cs[c]|
  }

  /** x stands for the next unused element of its chunk: it names a chunk, sits
      at that chunk's cursor and carries the element found there. */
  ghost predicate IsHead(cs: seq<seq<int>>, pos: seq<nat>, x: HeapItem)
    requires |pos| == |cs|
  {
    && 0 <= x.chunkIdx < |cs|
    && 0 <= x.posIdx == pos[x.chunkIdx] < |cs[x.chunkIdx]|
    && x.val == cs[x.chunkIdx][x.posIdx]
  }

  /** The heap holds, once each, the heads of exactly those chunks below n that
      are not used up. In particular it holds nothing for an empty chunk. */
  ghost predicate Frontier(cs: seq<seq<int>>, pos: seq<nat>, items: multiset<HeapItem>, n: nat)
    requires |pos| == |cs|
  {
    && (forall x :: x in items ==> items[x] == 1 && IsHead(cs, pos, x) && x.chunkIdx < n)
    && (forall c :: 0 <= c < n && c < |cs| && pos[c] < |cs[c]| ==>
          HeapItem(cs[c][pos[c]], c, pos[c]) in items)
  }

  /** The seeding loop: pushing the first element of chunk n, if it has one,
      extends the frontier from the chunks below n to those below n + 1. */
  lemma SeedStep(cs: seq<seq<int>>, pos: seq<nat>, items: multiset<HeapItem>, n: nat)
    requires |pos| == |cs| && n < |cs| && pos[n] == 0 && Frontier(cs, pos, items, n)
    ensures Frontier(cs, pos, items + (if cs[n] == [] then multiset{} else multiset{HeapItem(cs[n][0], n, 0)}), n + 1)
  {
  }

  /** What the merge pushes after popping x: the next element of x's chunk, if
      there is one. */
  ghost function Successor(cs: seq<seq<int>>, x: HeapItem): multiset<HeapItem>
    requires 0 <= x.chunkIdx < |cs|
  {
    var c, p := x.chunkIdx, x.posIdx + 1;
    if 0 <= p < |cs[c]| then multiset{HeapItem(cs[c][p], c, p)} else multiset{}
  }

  /** One round of the merge loop, as the heap sees it: popping the head x of
      chunk c and pushing the next element of c, if any, leaves the heap holding
      the frontier of the cursors with c moved on by one. */
  lemma FrontierAdvance(cs: seq<seq<int>>, pos: seq<nat>, items: multiset<HeapItem>, x: HeapItem)
    requires Cursors(cs, pos) && Frontier(cs, pos, items, |cs|) && x in items
    ensures IsHead(cs, pos, x)
    ensures Frontier(cs, pos[x.chunkIdx := x.posIdx + 1],
      items - multiset{x} + Successor(cs, x),
      |cs|)
  {
    var c := x.chunkIdx;
    var pos' := pos[c := x.posIdx + 1];
    var next := Successor(cs, x);
    var items' := items - multiset{x} + next;
    forall y | y in items'
      ensures items'[y] == 1 && IsHead(cs, pos', y) && y.chunkIdx < |cs|
    {
      if y in next {
        assert y !in items;
      } else {
        assert y in items && y != x;
      }
    }
    forall d | 0 <= d < |cs| && pos'[d] < |cs[d]|
      ensures HeapItem(cs[d][pos'[d]], d, pos'[d]) in items'
    {
      if d != c {
        assert HeapItem(cs[d][pos[d]], d, pos[d]) in items;
      }
    }
  }

  /** What is left of every chunk once the cursors stand at pos. */
  ghost function Rest(cs: seq<seq<int>>, pos: seq<nat>): (r: seq<seq<int>>)
    requires Cursors(cs, pos)
    ensures |r| == |cs|
  {
    seq(|cs|, c requires 0 <= c < |cs| => cs[c][pos[c]..])
  }

  /** Every chunk is ascending. */
  ghost predicate AllSorted(cs: seq<seq<int>>) {
    forall c :: 0 <= c < |cs| ==> Sorted(cs[c])
  }

  /** The output is ascending and no element still unused is below its last value. */
  ghost predicate OrderedSoFar(cs: seq<seq<int>>, pos: seq<nat>, out: seq<int>)
    requires |pos| == |cs|
  {
    && Sorted(out)
    && forall c, j :: 0 <= c < |cs| && pos[c] <= j < |cs[c]| && out != [] ==>
         out[|out| - 1] <= cs[c][j]
  }

  /** Output and unused elements together are all the elements, as often as
      they occur. */
  ghost predicate Accounted(cs: seq<seq<int>>, pos: seq<nat>, out: seq<int>)
    requires Cursors(cs, pos)
  {
    multiset(out) + multiset(Concat(Rest(cs, pos))) == multiset(Concat(cs))
  }

  /** The merge loop's invariant: the heap holds exactly the frontier; output and
      unused elements together are all the elements; and when every chunk is
      ascending, so is the output, and nothing unused is below its end. */
  ghost predicate MergeState(cs: seq<seq<int>>, pos: seq<nat>, items: multiset<HeapItem>, out: seq<int>) {
    && Cursors(cs, pos)
    && Frontier(cs, pos, items, |cs|)
    && Accounted(cs, pos, out)
    && (AllSorted(cs) ==> OrderedSoFar(cs, pos, out))
  }

  /** One round of the loop, popping the least head x and pushing its successor,
      keeps the invariant. */
  lemma MergeStep(cs: seq<seq<int>>, pos: seq<nat>, items: multiset<HeapItem>, out: seq<int>, x: HeapItem,
                   items': multiset<HeapItem>)
    requires MergeState(cs, pos, items, out)
    requires x in items && forall y :: y in items ==> x.val <= y.val
    requires 0 <= x.chunkIdx < |cs| && items' == items - multiset{x} + Successor(cs, x)
    ensures IsHead(cs, pos, x)
    ensures |out| < |Concat(cs)|
    ensures MergeState(cs, pos[x.chunkIdx := x.posIdx + 1], items', out + [x.val])
  {
    FrontierAdvance(cs, pos, items, x);
    BagAdvance(cs, pos, out, x.chunkIdx);
    if AllSorted(cs) {
      OrderedStep(cs, pos, items, out, x);
    }
  }

  /** Moving the next unused element of chunk c to the output keeps every element
      accounted for; so there was one left to move. */
  lemma BagAdvance(cs: seq<seq<int>>, pos: seq<nat>, out: seq<int>, c: nat)
    requires Cursors(cs, pos) && Accounted(cs, pos, out)
    requires c < |cs| && pos[c] < |cs[c]|
    ensures Cursors(cs, pos[c := pos[c] + 1])
    ensures Accounted(cs, pos[c := pos[c] + 1], out + [cs[c][pos[c]]])
    ensures |out| < |Concat(cs)|
  {
    var pos' := pos[c := pos[c] + 1];
    var r, r' := Rest(cs, pos), Rest(cs, pos');
    assert r' == r[c := r[c][1..]];
    ConcatDropHead(r, c);
    ConcatHas(r, c);
    assert |multiset(out + [cs[c][pos[c]]])| <= |multiset(Concat(cs))|;
  }

  /** The ordering half of MergeStep: emitting the least head keeps the output
      ascending and below everything unused. */
  lemma OrderedStep(cs: seq<seq<int>>, pos: seq<nat>, items: multiset<HeapItem>, out: seq<int>, x: HeapItem)
    requires Cursors(cs, pos) && Frontier(cs, pos, items, |cs|)
    requires AllSorted(cs) && OrderedSoFar(cs, pos, out)
    requires x in items && forall y :: y in items ==> x.val <= y.val
    requires IsHead(cs, pos, x)
    ensures OrderedSoFar(cs, pos[x.chunkIdx := x.posIdx + 1], out + [x.val])
  {
    var pos' := pos[x.chunkIdx := x.posIdx + 1];
    AppendSorted(out, x.val);
    forall d, j | 0 <= d < |cs| && pos'[d] <= j < |cs[d]|
      ensures x.val <= cs[d][j]
    {
      assert HeapItem(cs[d][pos[d]], d, pos[d]) in items;
      assert Sorted(cs[d]);
    }
  }

  /** Once the heap is empty every chunk is used up, so the output holds every element. */
  lemma MergeDone(cs: seq<seq<int>>, pos: seq<nat>, out: seq<int>)
    requires MergeState(cs, pos, multiset{}, out)
    ensures multiset(out) == multiset(Concat(cs))
    ensures |out| == |Concat(cs)|
  {
    var r := Rest(cs, pos);
    assert forall c :: 0 <= c < |cs| ==> pos[c] >= |cs[c]|;
    assert forall c :: 0 <= c < |cs| ==> r[c] == [];
    ConcatEmpty(r);
    assert |out| == |multiset(out)| == |multiset(Concat(cs))| == |Concat(cs)|;
  }

  /** Before the loop nothing is emitted and the heap holds every chunk's first element. */
  lemma MergeStart(cs: seq<seq<int>>, pos: seq<nat>, items: multiset<HeapItem>)
    requires |pos| == |cs| && forall c :: 0 <= c < |cs| ==> pos[c] == 0
    requires Frontier(cs, pos, items, |cs|)
    ensures MergeState(cs, pos, items, [])
  {
    assert Rest(cs, pos) == cs;
  }

  /** The seeding loop of `mergeSortedChunks`: a fresh heap holding the first
      element of every non-empty chunk, tagged with its chunk and position 0. */
  method SeedHeap(chunks: seq<seq<int>>) returns (h: MinHeap)
    ensures fresh(h) && h.Valid()
    ensures Frontier(chunks, seq(|chunks|, _ => 0), h.Items(), |chunks|)
  {
    ghost var pos: seq<nat> := seq(|chunks|, _ => 0);
    h := new MinHeap();
    for ci := 0 to |chunks|
      invariant fresh(h) && h.Valid()
      invariant Frontier(chunks, pos, h.Items(), ci)
    {
      SeedStep(chunks, pos, h.Items(), ci);
      if |chunks[ci]| == 0 {
        continue;
      }
      h.Push(HeapItem(chunks[ci][0], ci, 0));
    }
  }

  /** One round of the merge loop: pop the least head, emit its value, and push
      the next element of the same chunk when there is one. */
  method MergeRound(chunks: seq<seq<int>>, h: MinHeap, ghost pos: seq<nat>, out: seq<int>)
    returns (out': seq<int>, ghost pos': seq<nat>, item: HeapItem)
    requires h.Valid() && h.Len() > 0
    requires MergeState(chunks, pos, h.Items(), out)
    modifies h
    ensures item in old(h.Items()) && 0 <= item.chunkIdx < |chunks|
    ensures forall x :: x in old(h.Items()) ==> item.val <= x.val
    ensures out' == out + [item.val]
    ensures pos' == pos[item.chunkIdx := pos[item.chunkIdx] + 1]
    ensures h.Items() == old(h.Items()) - multiset{item} + Successor(chunks, item)
    ensures h.Valid() && MergeState(chunks, pos', h.Items(), out')
    ensures |out| < |out'| <= |Concat(chunks)|
  {
    ghost var before := h.Items();
    var ok;
    item, ok := h.Pop();
    assert 0 <= item.chunkIdx < |chunks| by {
      assert Frontier(chunks, pos, before, |chunks|);
    }
    out' := out + [item.val];
    var nextPos := item.posIdx + 1;
    if nextPos < |chunks[item.chunkIdx]| {
      h.Push(HeapItem(chunks[item.chunkIdx][nextPos], item.chunkIdx, nextPos));
    }
    MergeStep(chunks, pos, before, out, item, h.Items());
    pos' := pos[item.chunkIdx := nextPos];
  }

  /** `mergeSortedChunks`: the output holds every element of every chunk, as often
      as it occurs there, and is ascending when every chunk is. The merge only
      reads the chunks, so they are passed as values. */
  method MergeSortedChunks(chunks: seq<seq<int>>) returns (out: seq<int>)
    ensures multiset(out) == multiset(Concat(chunks))
    ensures |out| == |Concat(chunks)|
    ensures AllSorted(chunks) ==> Sorted(out)
    ensures (forall c :: 0 <= c < |chunks| ==> chunks[c] == []) ==> out == []
  {
    ghost var pos: seq<nat> := seq(|chunks|, _ => 0);
    var h := SeedHeap(chunks);
    MergeStart(chunks, pos, h.Items());
    out := [];
    while h.Len() > 0
      invariant h.Valid()
      invariant MergeState(chunks, pos, h.Items(), out)
      decreases |Concat(chunks)| - |out|
    {
      var item;
      out, pos, item := MergeRound(chunks, h, pos, out);
    }
    MergeDone(chunks, pos, out);
    ConcatEmpty(chunks);
  }
}
