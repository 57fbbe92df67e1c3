/** The sorting pipeline shared by the random, input-file and directory modes:
    split the numbers into chunks, sort every chunk, merge the chunks. */
module Pipeline {
  import opened Seqs
  import opened Chunking
  import opened ChunkSort
  import opened Merge

  /** The fewest numbers the modes accept before they start the pipeline. */
  const MinCount := 10

  /** What a mode does with a list of numbers: refuse it, reporting how many it got,
      or sort it. */
  datatype Outcome = TooFew(count: nat) | Done(result: seq<int>)

  /** `splitIntoChunks`, `sortChunksConcurrently`, `mergeSortedChunks` in a row.
      `before` and `after` are the chunk contents that the random and input-file
      modes print before and after the sort. */
  method SortPipeline(numbers: seq<int>) returns (result: seq<int>, ghost before: seq<seq<int>>, ghost after: seq<seq<int>>)
    requires |numbers| >= 1
    ensures before == Partition(numbers)
    ensures |after| == |before|
    ensures forall i :: 0 <= i < |after| ==> Sorted(after[i]) && multiset(after[i]) == multiset(before[i])
    ensures Sorted(result)
    ensures multiset(result) == multiset(numbers)
    ensures |result| == |numbers|
  {
    var chunks := SplitIntoChunks(numbers);
    before := Snapshot(chunks);
    SortChunks(chunks);
    var sorted := Snapshot(chunks);
    after := sorted;
    result := MergeSortedChunks(sorted);
    assert multiset(Concat(after)) == multiset(numbers) by {
      ConcatPermutes(before, after);
      PartitionConcat(numbers);
    }
    assert |result| == |multiset(numbers)| == |numbers|;
  }

  /** The three modes: fewer than ten numbers are refused; otherwise the result
      is the one ascending arrangement of the numbers. */
  method Run(numbers: seq<int>) returns (r: Outcome)
    ensures r.TooFew? <==> |numbers| < MinCount
    ensures r.TooFew? ==> r.count == |numbers|
    ensures r.Done? ==> Sorted(r.result) && multiset(r.result) == multiset(numbers)
  {
    if |numbers| < MinCount {
      return TooFew(|numbers|);
    }
    var result, _, _ := SortPipeline(numbers);
    return Done(result);
  }
}
