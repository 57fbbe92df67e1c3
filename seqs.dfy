/** Sequences of integers and lists of chunks: the vocabulary shared by the
    partitioner, the per-chunk sort and the k-way merge. */
module Seqs {

  /** `s` is non-decreasing. */
  predicate Sorted(s: seq<int>) {
    forall i, j :: 0 <= i < j < |s| ==> s[i] <= s[j]
  }

  /** The chunks laid end to end, in index order. */
  function Concat(ss: seq<seq<int>>): seq<int> {
    if ss == [] then [] else ss[0] + Concat(ss[1..])
  }

  /** Replacing every chunk by a permutation of itself permutes the concatenation. */
  lemma {:induction false} ConcatPermutes(a: seq<seq<int>>, b: seq<seq<int>>)
    requires |a| == |b|
    requires forall i :: 0 <= i < |a| ==> multiset(a[i]) == multiset(b[i])
    ensures multiset(Concat(a)) == multiset(Concat(b))
  {
    if a != [] {
      ConcatPermutes(a[1..], b[1..]);
      assert multiset(a[0]) == multiset(b[0]);
    }
  }

  /** The concatenation is as long as all chunks together, and it is empty
      exactly when every chunk is. */
  lemma {:induction false} ConcatEmpty(ss: seq<seq<int>>)
    ensures Concat(ss) == [] <==> forall i :: 0 <= i < |ss| ==> ss[i] == []
  {
    if ss != [] {
      ConcatEmpty(ss[1..]);
      assert forall i :: 1 <= i < |ss| ==> ss[i] == ss[1..][i - 1];
    }
  }

  /** Extending a sorted sequence by a value at least its last element keeps it sorted. */
  lemma AppendSorted(s: seq<int>, v: int)
    requires Sorted(s)
    requires s != [] ==> s[|s| - 1] <= v
    ensures Sorted(s + [v])
  {
    var t := s + [v];
    forall i, j | 0 <= i < j < |t| ensures t[i] <= t[j] {
      if j == |s| && i < |s| - 1 {
        assert s[i] <= s[|s| - 1];
      }
    }
  }

  /** Taking the first element off chunk i takes exactly that element out of the
      concatenation. */
  lemma {:induction false} ConcatDropHead(ss: seq<seq<int>>, i: nat)
    requires i < |ss| && ss[i] != []
    ensures multiset(Concat(ss[i := ss[i][1..]])) == multiset(Concat(ss)) - multiset{ss[i][0]}
  {
    var tt := ss[i := ss[i][1..]];
    if i == 0 {
      assert tt[1..] == ss[1..];
      assert ss[0] == [ss[0][0]] + ss[0][1..];
    } else {
      ConcatDropHead(ss[1..], i - 1);
      assert tt[1..] == ss[1..][i - 1 := ss[1..][i - 1][1..]];
      ConcatHas(ss[1..], i - 1);
    }
  }

  /** Every element of a chunk is in the concatenation. */
  lemma {:induction false} ConcatHas(ss: seq<seq<int>>, i: nat)
    requires i < |ss| && ss[i] != []
    ensures ss[i][0] in multiset(Concat(ss))
  {
    if i > 0 {
      ConcatHas(ss[1..], i - 1);
    }
  }

  /** A sorted sequence is determined by its multiset: two sorted permutations of
      each other are equal. */
  lemma {:induction false} SortedUnique(a: seq<int>, b: seq<int>)
    requires Sorted(a) && Sorted(b) && multiset(a) == multiset(b)
    ensures a == b
  {
    if a != [] {
      SameFirst(a, b);
      DropFirst(a);
      DropFirst(b);
      SortedUnique(a[1..], b[1..]);
      assert a == [a[0]] + a[1..] && b == [b[0]] + b[1..];
    }
  }

  /** Two non-empty sorted permutations of each other start with the same element. */
  lemma SameFirst(a: seq<int>, b: seq<int>)
    requires Sorted(a) && Sorted(b) && multiset(a) == multiset(b) && a != []
    ensures b != [] && a[0] == b[0]
  {
    assert |b| == |multiset(b)| == |multiset(a)| == |a|;
    assert a[0] in multiset(a) && b[0] in multiset(b);
    LeastFirst(a, b[0]);
    LeastFirst(b, a[0]);
  }

  /** Without its first element a sorted sequence is still sorted and has one
      copy of that element fewer. */
  lemma DropFirst(s: seq<int>)
    requires Sorted(s) && s != []
    ensures Sorted(s[1..])
    ensures multiset(s[1..]) == multiset(s) - multiset{s[0]}
  {
    assert s == [s[0]] + s[1..];
  }

  /** The first element of a sorted sequence is at most any of its elements. */
  lemma LeastFirst(s: seq<int>, x: int)
    requires Sorted(s) && x in multiset(s)
    ensures s[0] <= x
  {
    var k :| 0 <= k < |s| && s[k] == x;
  }
}
