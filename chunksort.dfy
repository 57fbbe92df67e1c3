/** The per-chunk sort: `sortChunksConcurrently` sorts every chunk in place.
    The chunks share no storage, so one goroutine per chunk behind a wait group
    has the same effect as sorting them one after another, which is what this
    model does. */
module ChunkSort {
  import opened Seqs
  import opened Chunking

  /** Stands for `sort.Ints`: any in-place comparison sort with its postcondition.
      This one is insertion sort. */
  method SortInts(a: array<int>)
    modifies a
    ensures Sorted(a[..])
    ensures multiset(a[..]) == multiset(old(a[..]))
  {
    for i := 0 to a.Length
      invariant Sorted(a[..i])
      invariant multiset(a[..]) == multiset(old(a[..]))
    {
      InsertNext(a, i);
    }
    assert a[..a.Length] == a[..];
  }

  /** Moves a[i] down into the sorted prefix a[..i] by adjacent swaps. */
  method InsertNext(a: array<int>, i: nat)
    requires i < a.Length && Sorted(a[..i])
    modifies a
    ensures Sorted(a[..i + 1])
    ensures multiset(a[..]) == multiset(old(a[..]))
  {
    var j := i;
    while j > 0 && a[j - 1] > a[j]
      invariant 0 <= j <= i
      invariant forall k, l :: 0 <= k < l <= i && l != j ==> a[k] <= a[l]
      invariant multiset(a[..]) == multiset(old(a[..]))
    {
      Swap(a, j - 1, j);
      j := j - 1;
    }
  }

  method Swap(a: array<int>, i: nat, j: nat)
    requires i < j < a.Length
    modifies a
    ensures a[..] == old(a[..])[i := old(a[j])][j := old(a[i])]
    ensures multiset(a[..]) == multiset(old(a[..]))
  {
    a[i], a[j] := a[j], a[i];
  }

  /** `sortChunksConcurrently`: afterwards every chunk is ascending and holds the
      values it held before; the list of chunks itself is untouched. */
  method SortChunks(chunks: seq<array<int>>)
    requires Distinct(chunks)
    modifies set i | 0 <= i < |chunks| :: chunks[i]
    ensures forall i :: 0 <= i < |chunks| ==> Sorted(chunks[i][..])
    ensures forall i :: 0 <= i < |chunks| ==>
      multiset(chunks[i][..]) == multiset(old(chunks[i][..]))
  {
    for i := 0 to |chunks|
      invariant forall j :: 0 <= j < i ==> Sorted(chunks[j][..])
      invariant forall j :: 0 <= j < i ==>
        multiset(chunks[j][..]) == multiset(old(chunks[j][..]))
      invariant forall j :: i <= j < |chunks| ==> chunks[j][..] == old(chunks[j][..])
    {
      SortInts(chunks[i]);
    }
  }
}
