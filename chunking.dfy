/** The partitioner: `splitIntoChunks` cuts the input into about sqrt(n)
    contiguous chunks whose sizes differ by at most one. */
module Chunking {
  import opened Seqs

  /** The least k with n <= k * k: the exact value of ceil(sqrt(n)). */
  function CeilSqrt(n: nat): (k: nat)
    ensures n <= k * k
    ensures k == 0 || (k - 1) * (k - 1) < n
    ensures k <= n
  {
    CeilSqrtFrom(n, 0)
  }

  /** Searches upward from k, below which every square is still short of n. */
  function CeilSqrtFrom(n: nat, k: nat): (r: nat)
    requires k == 0 || (k - 1) * (k - 1) < n
    requires k <= n || n == 0
    ensures n <= r * r
    ensures r == 0 || (r - 1) * (r - 1) < n
    ensures r <= n || n == 0
    decreases n - k
  {
    if n <= k * k then k
    else
      assert k <= k * k;
      CeilSqrtFrom(n, k + 1)
  }

  /** The number of chunks for n elements: ceil(sqrt(n)), raised to 4, capped at n. */
  function ChunkCount(n: nat): (c: nat)
    ensures n >= 1 ==> 1 <= c <= n
  {
    var s := CeilSqrt(n);
    var lo := if s < 4 then 4 else s;
    if lo > n then n else lo
  }

  /** What the clamp amounts to: enough chunks that c * c covers n, at least four unless n
      is smaller, and never more than ceil(sqrt(n)) once past the floor of four. These four
      facts single out one c for every n. */
  lemma ChunkCountBounds(n: nat)
    ensures var c := ChunkCount(n);
      && n <= c * c
      && (c >= 4 || c == n)
      && (c <= 4 || (c - 1) * (c - 1) < n)
  {
    var s := CeilSqrt(n);
    var lo := if s < 4 then 4 else s;
    if lo > n {
      assert lo == 4 && n < 4;
      if n > 0 {
        MulMonotone(1, n);
      }
    } else {
      MulMonotone(s, lo);
    }
  }

  /** Any c meeting the bounds of ChunkCountBounds is the chunk count. */
  lemma ChunkCountUnique(n: nat, c: nat)
    requires n >= 1 && c <= n
    requires n <= c * c
    requires c >= 4 || c == n
    requires c <= 4 || (c - 1) * (c - 1) < n
    ensures c == ChunkCount(n)
  {
    var d := ChunkCount(n);
    ChunkCountBounds(n);
    if c < d {
      MulMonotone(c, d - 1);
    } else if d < c {
      MulMonotone(d, c - 1);
    }
  }

  /** The counts for one, ten and a hundred elements: 1, 4 and 10 chunks. */
  lemma ChunkCountExamples()
    ensures ChunkCount(1) == 1 && ChunkCount(10) == 4 && ChunkCount(100) == 10
  {
    ChunkCountUnique(1, 1);
    ChunkCountUnique(10, 4);
    ChunkCountUnique(100, 10);
  }

  lemma MulMonotone(a: nat, b: nat)
    requires a <= b
    ensures a * a <= b * b
  {
    assert a * a <= a * b <= b * b;
  }

  /** Size of chunk i when n elements go into c chunks: the first n % c chunks take one more. */
  function ChunkSize(n: nat, c: nat, i: nat): nat
    requires c > 0
  {
    n / c + (if i < n % c then 1 else 0)
  }

  /** Offset at which chunk i starts: the running `start` of the partition loop. */
  function ChunkStart(n: nat, c: nat, i: nat): nat
    requires c > 0
  {
    if i == 0 then 0 else ChunkStart(n, c, i - 1) + ChunkSize(n, c, i - 1)
  }

  /** The running offset in closed form: i full chunks plus one per larger chunk passed. */
  lemma {:induction false} ChunkStartClosed(n: nat, c: nat, i: nat)
    requires c > 0
    ensures ChunkStart(n, c, i) == i * (n / c) + (if i < n % c then i else n % c)
  {
    if i > 0 {
      ChunkStartClosed(n, c, i - 1);
      assert (i - 1) * (n / c) + n / c == i * (n / c);
    }
  }

  /** Offsets never decrease and the last one, after all c chunks, is exactly n. */
  lemma {:induction false} ChunkStartsWithin(n: nat, c: nat)
    requires c > 0
    ensures ChunkStart(n, c, c) == n
    ensures forall i, j :: 0 <= i <= j <= c ==> ChunkStart(n, c, i) <= ChunkStart(n, c, j)
    ensures forall i :: 0 <= i <= c ==> ChunkStart(n, c, i) <= n
  {
    ChunkStartClosed(n, c, c);
    assert c * (n / c) + n % c == n;
    var i := c;
    while i > 0
      invariant 0 <= i <= c
      invariant forall j, k :: i <= j <= k <= c ==> ChunkStart(n, c, j) <= ChunkStart(n, c, k)
    {
      assert ChunkStart(n, c, i - 1) <= ChunkStart(n, c, i);
      i := i - 1;
    }
  }

  /** The chunks `splitIntoChunks` produces, as values. */
  function Partition(xs: seq<int>): (chunks: seq<seq<int>>)
    requires |xs| >= 1
    ensures |chunks| == ChunkCount(|xs|)
  {
    var n, c := |xs|, ChunkCount(|xs|);
    ChunkStartsWithin(n, c);
    seq(c, i requires 0 <= i < c => xs[ChunkStart(n, c, i)..ChunkStart(n, c, i + 1)])
  }

  /** Chunk sizes are n / c or n / c + 1, the larger ones being exactly the first n % c;
      no chunk is empty. */
  lemma PartitionBalanced(xs: seq<int>)
    requires |xs| >= 1
    ensures var p, n := Partition(xs), |xs|;
      && (forall i :: 0 <= i < |p| ==> 1 <= |p[i]|)
      && (forall i :: 0 <= i < |p| ==> (|p[i]| == n / |p| + 1 <==> i < n % |p|))
      && (forall i :: 0 <= i < |p| ==> (|p[i]| == n / |p| <==> n % |p| <= i))
      && (forall i, j :: 0 <= i < |p| && 0 <= j < |p| ==> |p[i]| <= |p[j]| + 1)
  {
    var p, n := Partition(xs), |xs|;
    QuotientPositive(n, |p|);
    forall i | 0 <= i < |p| ensures |p[i]| == ChunkSize(n, |p|, i) {
      PartitionChunk(xs, i);
    }
  }

  lemma QuotientPositive(n: nat, c: nat)
    requires 1 <= c <= n
    ensures n / c >= 1
  {
    assert c * (n / c) + n % c == n;
  }

  /** Concatenating the chunks in index order gives back the input. */
  lemma PartitionConcat(xs: seq<int>)
    requires |xs| >= 1
    ensures Concat(Partition(xs)) == xs
  {
    var p, n := Partition(xs), |xs|;
    var c := |p|;
    ChunkStartsWithin(n, c);
    var o := seq(c + 1, j requires 0 <= j <= c => ChunkStart(n, c, j));
    forall j | 0 <= j < c
      ensures o[j] + |p[j]| == o[j + 1] && p[j] == xs[o[j]..o[j] + |p[j]|]
    {
      PartitionChunk(xs, j);
    }
    ConcatRanges(xs, p, o, 0);
    assert p[0..] == p;
  }

  /** Chunk i of the partition is the input between the i-th and the next offset. */
  lemma PartitionChunk(xs: seq<int>, i: nat)
    requires |xs| >= 1 && i < |Partition(xs)|
    ensures ChunkStart(|xs|, |Partition(xs)|, i) <= ChunkStart(|xs|, |Partition(xs)|, i + 1) <= |xs|
    ensures Partition(xs)[i] == xs[ChunkStart(|xs|, |Partition(xs)|, i)..ChunkStart(|xs|, |Partition(xs)|, i + 1)]
  {
    ChunkStartsWithin(|xs|, |Partition(xs)|);
  }

  /** Pieces of xs laid end to end from offset o[0], each piece j starting at
      o[j], with the last one ending at the end of xs, concatenate from piece i on
      to xs[o[i]..]. */
  lemma {:induction false} ConcatRanges(xs: seq<int>, p: seq<seq<int>>, o: seq<nat>, i: nat)
    requires |o| == |p| + 1 && i <= |p| && o[|p|] == |xs|
    requires forall j :: 0 <= j <= |p| ==> o[j] <= |xs|
    requires forall j :: 0 <= j < |p| ==> o[j] + |p[j]| == o[j + 1]
    requires forall j :: 0 <= j < |p| ==> o[j] + |p[j]| <= |xs| && p[j] == xs[o[j]..o[j] + |p[j]|]
    ensures Concat(p[i..]) == xs[o[i]..]
    decreases |p| - i
  {
    if i == |p| {
      assert p[i..] == [];
    } else {
      ConcatRanges(xs, p, o, i + 1);
      assert p[i..][1..] == p[i + 1..];
      assert Concat(p[i..]) == p[i] + Concat(p[i + 1..]);
      assert xs[o[i]..] == xs[o[i]..o[i + 1]] + xs[o[i + 1]..];
    }
  }

  /** The contents of a list of chunk buffers. */
  function Snapshot(chunks: seq<array<int>>): (r: seq<seq<int>>)
    reads set i | 0 <= i < |chunks| :: chunks[i]
    ensures |r| == |chunks|
    ensures forall i :: 0 <= i < |chunks| ==> r[i] == chunks[i][..]
  {
    seq(|chunks|, i reads set i | 0 <= i < |chunks| :: chunks[i]
                    requires 0 <= i < |chunks| => chunks[i][..])
  }

  /** No two chunks share a buffer. */
  predicate Distinct(chunks: seq<array<int>>) {
    forall i, j :: 0 <= i < j < |chunks| ==> chunks[i] != chunks[j]
  }

  lemma TakeOneMore<T>(s: seq<T>, i: nat)
    requires i < |s|
    ensures s[..i + 1] == s[..i] + [s[i]]
  {
  }

  /** One round of the partition loop: a chunk of `base` elements, one more while
      i < rem, starting at the running offset, is chunk i of the partition. */
  lemma NextChunk(xs: seq<int>, i: nat, start: nat, size: nat)
    requires |xs| >= 1 && i < ChunkCount(|xs|)
    requires start == ChunkStart(|xs|, ChunkCount(|xs|), i)
    requires size == |xs| / ChunkCount(|xs|) + (if i < |xs| % ChunkCount(|xs|) then 1 else 0)
    ensures start + size == ChunkStart(|xs|, ChunkCount(|xs|), i + 1) <= |xs|
    ensures Partition(xs)[i] == xs[start..start + size]
  {
    PartitionChunk(xs, i);
  }

  /** `make([]int, end - start)` followed by `copy` from the input range. */
  method CopyRange(numbers: seq<int>, start: nat, end: nat) returns (chunk: array<int>)
    requires start <= end <= |numbers|
    ensures fresh(chunk)
    ensures chunk[..] == numbers[start..end]
  {
    chunk := new int[end - start](k requires 0 <= k < end - start => numbers[start + k]);
    assert forall k :: 0 <= k < end - start ==> chunk[k] == numbers[start..end][k];
  }

  /** `splitIntoChunks`: copies each range of the input into a buffer of its own. */
  method SplitIntoChunks(numbers: seq<int>) returns (chunks: seq<array<int>>)
    requires |numbers| >= 1
    ensures Snapshot(chunks) == Partition(numbers)
    ensures Distinct(chunks)
    ensures forall i :: 0 <= i < |chunks| ==> fresh(chunks[i])
  {
    var n := |numbers|;
    var numChunks := ChunkCount(n);
    var base := n / numChunks;
    var rem := n % numChunks;
    ghost var p := Partition(numbers);
    ghost var vals: seq<seq<int>> := [];
    chunks := [];
    var start := 0;
    for i := 0 to numChunks
      invariant |chunks| == |vals| == i
      invariant start == ChunkStart(n, numChunks, i)
      invariant vals == p[..i]
      invariant forall j :: 0 <= j < i ==> chunks[j][..] == vals[j]
      invariant forall j :: 0 <= j < i ==> fresh(chunks[j])
      invariant Distinct(chunks)
    {
      var size := base;
      if i < rem {
        size := size + 1;
      }
      var end := start + size;
      NextChunk(numbers, i, start, size);
      var chunk := CopyRange(numbers, start, end);
      chunks := chunks + [chunk];
      assert chunk[..] == p[i];
      TakeOneMore(p, i);
      vals := vals + [chunk[..]];
      start := end;
    }
    assert Snapshot(chunks) == vals == p;
  }
}
