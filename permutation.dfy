/** The permutation enumerator of Solution.java: an object of a given size whose
    iterator walks through every permutation of 0..size-1 in lexicographic order,
    rewriting one int buffer in place, in the manner of C++ std::next_permutation
    (ISO/IEC 14882, [alg.permutation.generators]). */
module Permutations {
  import opened Sequences

  datatype Result<T> = Ok(value: T) | IllegalArgument

  /** A size the enumerator accepts. */
  type PositiveSize = n: int | n > 0 witness 1

  /** The enumerator itself only remembers how many elements it permutes, which is positive. */
  datatype Permutation = Permutation(size: PositiveSize)

  /** Construction refuses a non-positive size (IllegalArgumentException). */
  function NewPermutation(size: int): (r: Result<Permutation>)
    ensures r.IllegalArgument? <==> size <= 0
    ensures r.Ok? ==> r.value.size == size
  {
    if size <= 0 then IllegalArgument else Ok(Permutation(size))
  }

  /** The ascending sequence 0, 1, ..., n-1. */
  function Identity(n: nat): seq<int> {
    seq(n, k => k)
  }

  ghost predicate IsPermutation(s: seq<int>, n: nat) {
    multiset(s) == multiset(Identity(n))
  }

  /** Scans down from i for the last r with s[r-1] < s[r], knowing that s[i..] never goes up;
      0 when there is none. */
  function LastAscentFrom(s: seq<int>, i: nat): (r: nat)
    requires i < |s| && NonIncreasingFrom(s, i)
    ensures r <= i
    ensures r > 0 ==> s[r - 1] < s[r]
    ensures NonIncreasingFrom(s, r)
    decreases i
  {
    if i == 0 then 0
    else if s[i - 1] < s[i] then i
    else LastAscentFrom(s, i - 1)
  }

  /** The position right after the pivot: the last r with s[r-1] < s[r], or 0 if there is none. */
  function LastAscent(s: seq<int>): (r: nat)
    ensures r == 0 || r < |s|
    ensures r > 0 ==> s[r - 1] < s[r]
    ensures NonIncreasingFrom(s, r)
  {
    if |s| == 0 then 0 else LastAscentFrom(s, |s| - 1)
  }

  /** Some rearrangement of `s` comes after it in lexicographic order. */
  predicate HasSuccessor(s: seq<int>) {
    LastAscent(s) > 0
  }

  /** The last position in [lo, hi) holding a value above x. */
  function LastAbove(s: seq<int>, x: int, lo: nat, hi: nat): (j: nat)
    requires lo < hi <= |s| && s[lo] > x
    ensures lo <= j < hi && s[j] > x
    ensures forall k :: j < k < hi ==> s[k] <= x
    decreases hi
  {
    if s[hi - 1] > x then hi - 1 else LastAbove(s, x, lo, hi - 1)
  }

  function Swapped(s: seq<int>, i: nat, j: nat): seq<int>
    requires i < |s| && j < |s|
  {
    s[i := s[j]][j := s[i]]
  }

  lemma SwappedMultiset(s: seq<int>, i: nat, j: nat)
    requires i < |s| && j < |s|
    ensures multiset(Swapped(s, i, j)) == multiset(s)
  {
  }

  /** One step of std::next_permutation: with a pivot, exchange it with the last larger
      element after it and reverse the tail; without one, reverse the whole sequence. */
  function NextPermutation(s: seq<int>): (r: seq<int>)
    ensures multiset(r) == multiset(s)
  {
    var i := LastAscent(s);
    if i == 0 then
      ReversedMultiset(s);
      Reversed(s)
    else
      var j := LastAbove(s, s[i - 1], i, |s|);
      var u := Swapped(s, i - 1, j);
      SwappedMultiset(s, i - 1, j);
      ReversedMultiset(u[i..]);
      assert u == u[..i] + u[i..];
      u[..i] + Reversed(u[i..])
  }

  /** An ascent at i with nothing going up after it makes i the pivot position. */
  lemma LastAscentAt(s: seq<int>, i: nat)
    requires 0 < i < |s| && s[i - 1] < s[i] && NonIncreasingFrom(s, i)
    ensures LastAscent(s) == i
  {
    var r := LastAscent(s);
    if r < i {
      NonIncreasingFromAt(s, r, i - 1, i);
    }
    if r > i {
      NonIncreasingFromAt(s, i, r - 1, r);
    }
  }

  /** The last position above x, found by scanning down from the end. */
  lemma LastAboveAt(s: seq<int>, x: int, lo: nat, j: nat)
    requires lo <= j < |s| && s[lo] > x && s[j] > x && forall k :: j < k < |s| ==> s[k] <= x
    ensures LastAbove(s, x, lo, |s|) == j
  {
  }

  /** The loops of hasNext find the pivot and its partner exactly where the definition puts them. */
  lemma NextPermutationAt(s: seq<int>, i: nat, j: nat)
    requires 0 < i <= j < |s| && s[i - 1] < s[i] && NonIncreasingFrom(s, i)
    requires s[j] > s[i - 1] && forall k :: j < k < |s| ==> s[k] <= s[i - 1]
    ensures HasSuccessor(s)
    ensures NextPermutation(s) == Swapped(s, i - 1, j)[..i] + Reversed(Swapped(s, i - 1, j)[i..])
  {
    LastAscentAt(s, i);
    LastAboveAt(s, s[i - 1], i, j);
  }

  /** Swapping the pivot with its partner and then reversing the tail, written the way the
      array methods describe their effect, yields the successor. */
  lemma SwapThenReverseIsNext(s: seq<int>, u: seq<int>, v: seq<int>, i: nat, j: nat)
    requires 0 < i <= j < |s| && s[i - 1] < s[i] && NonIncreasingFrom(s, i)
    requires s[j] > s[i - 1] && forall k :: j < k < |s| ==> s[k] <= s[i - 1]
    requires u == Swapped(s, i - 1, j) && v == u[..i] + Reversed(u[i..|u|]) + u[|u|..]
    ensures v == NextPermutation(s)
  {
    var head, tail := u[..i], Reversed(u[i..]);
    assert u[i..|u|] == u[i..];
    assert u[|u|..] == [];
    assert v == head + tail + [];
    assert head + tail + [] == head + tail;
    NextPermutationAt(s, i, j);
  }

  /** A sequence that never goes up is the last of its rearrangements and is simply reversed. */
  lemma NextPermutationOfLast(s: seq<int>)
    requires NonIncreasingFrom(s, 0)
    ensures !HasSuccessor(s) && NextPermutation(s) == Reversed(s)
  {
    var r := LastAscent(s);
    if r > 0 {
      NonIncreasingFromAt(s, 0, r - 1, r);
    }
  }

  /** Advancing keeps a permutation of 0..n-1 a permutation of 0..n-1. */
  lemma NextPermutationKeepsPermutation(s: seq<int>, n: nat)
    requires IsPermutation(s, n)
    ensures IsPermutation(NextPermutation(s), n)
  {
  }

  lemma SuffixMultiset(s: seq<int>, t: seq<int>, k: nat)
    requires k <= |s| == |t| && multiset(s) == multiset(t) && s[..k] == t[..k]
    ensures multiset(s[k..]) == multiset(t[k..])
  {
    assert s == s[..k] + s[k..];
    assert t == t[..k] + t[k..];
    assert multiset(s[k..]) == multiset(s) - multiset(s[..k]);
    assert multiset(t[k..]) == multiset(t) - multiset(t[..k]);
  }

  /** Two rearrangements that agree before k: the value t holds at k occurs in s at k or later. */
  lemma SuffixValue(s: seq<int>, t: seq<int>, k: nat) returns (m: nat)
    requires k < |s| == |t| && multiset(s) == multiset(t) && s[..k] == t[..k]
    ensures k <= m < |s| && s[m] == t[k]
  {
    SuffixMultiset(s, t, k);
    assert t[k] == t[k..][0];
    assert t[k] in multiset(s[k..]);
    var d :| 0 <= d < |s[k..]| && s[k..][d] == t[k];
    m := k + d;
  }

  /** Where `s` does not go up from k on, no rearrangement of `s` can be
      lexicographically larger first at k. */
  lemma NoLargerAt(s: seq<int>, t: seq<int>, i: nat, k: nat)
    requires i <= k < |s| && multiset(s) == multiset(t) && NonIncreasingFrom(s, i)
    ensures !LexLessAt(s, t, k)
  {
    if |t| == |s| && s[..k] == t[..k] {
      var m := SuffixValue(s, t, k);
      if m > k {
        NonIncreasingFromAt(s, i, k, m);
      }
    }
  }

  /** The part of the successor left of the pivot is untouched, and the pivot grows. */
  lemma NextPermutationAdvances(s: seq<int>)
    requires HasSuccessor(s)
    ensures LexLess(s, NextPermutation(s))
    ensures NextPermutation(s)[..LastAscent(s) - 1] == s[..LastAscent(s) - 1]
    ensures NextPermutation(s)[LastAscent(s) - 1] == s[LastAbove(s, s[LastAscent(s) - 1], LastAscent(s), |s|)]
  {
    var i := LastAscent(s);
    var j := LastAbove(s, s[i - 1], i, |s|);
    var r := NextPermutation(s);
    assert r[..i - 1] == s[..i - 1];
    assert r[i - 1] == s[j];
    assert LexLessAt(s, r, i - 1);
  }

  /** After the pivot, the successor is sorted ascending. */
  lemma NextPermutationTailSorted(s: seq<int>)
    requires HasSuccessor(s)
    ensures NonDecreasing(NextPermutation(s)[LastAscent(s)..])
  {
    var i := LastAscent(s);
    var x := s[i - 1];
    var j := LastAbove(s, x, i, |s|);
    var u := Swapped(s, i - 1, j);
    var tail := u[i..];
    forall a, b | 0 <= a < b < |tail| ensures tail[a] >= tail[b] {
      NonIncreasingFromAt(s, i, i + a, i + b);
      assert tail[a] == u[i + a] && tail[b] == u[i + b];
    }
    ReversedNonIncreasing(tail);
    assert NextPermutation(s)[i..] == Reversed(tail);
  }

  /** If t agrees with s before p, is a rearrangement of s and is larger at p, while s[p+1..]
      never goes up and j is the last position holding a value above s[p], then t's value at p
      is at least s[j]: s[j] is the smallest value after p that exceeds s[p]. */
  lemma PivotIsLeastIncrease(s: seq<int>, t: seq<int>, p: nat, j: nat)
    requires LexLessAt(s, t, p) && multiset(t) == multiset(s) && NonIncreasingFrom(s, p + 1)
    requires p < j < |s| && forall k :: j < k < |s| ==> s[k] <= s[p]
    ensures s[j] <= t[p]
  {
    var m := SuffixValue(s, t, p);
    if m < j {
      NonIncreasingFromAt(s, p + 1, m, j);
    }
  }

  /** A rearrangement r whose part from i on is sorted is no larger than any rearrangement
      t that agrees with it before i. */
  lemma SortedTailIsLeast(r: seq<int>, t: seq<int>, i: nat)
    requires |r| == |t| && i <= |r| && r[..i] == t[..i] && multiset(t) == multiset(r)
    requires NonDecreasing(r[i..])
    ensures t == r || LexLess(r, t)
  {
    SuffixMultiset(r, t, i);
    NonDecreasingIsLexLeast(r[i..], t[i..]);
    assert r == r[..i] + r[i..];
    assert t == t[..i] + t[i..];
    if r[i..] != t[i..] {
      LexLessExtend(r[..i], r[i..], t[i..]);
    }
  }

  /** Where t first exceeds s before the pivot, it also exceeds the successor there. */
  lemma DifferenceBeforePivot(s: seq<int>, t: seq<int>, k: nat)
    requires HasSuccessor(s) && k < LastAscent(s) - 1 && LexLessAt(s, t, k)
    ensures LexLessAt(NextPermutation(s), t, k)
  {
    var p := LastAscent(s) - 1;
    var r := NextPermutation(s);
    NextPermutationAdvances(s);
    assert r[..k] == r[..p][..k];
    assert s[..k] == s[..p][..k];
  }

  lemma PrefixExtend(r: seq<int>, t: seq<int>, p: nat)
    requires p < |r| && p < |t| && r[..p] == t[..p] && r[p] == t[p]
    ensures r[..p + 1] == t[..p + 1]
  {
    assert r[..p + 1] == r[..p] + [r[p]];
    assert t[..p + 1] == t[..p] + [t[p]];
  }

  /** Let r agree with s before p, hold at p the smallest later value of s above s[p], and be
      sorted after p. Then any rearrangement t that first exceeds s at p is no smaller than r. */
  lemma LeastWithPivotValue(s: seq<int>, t: seq<int>, r: seq<int>, p: nat, j: nat)
    requires LexLessAt(s, t, p) && multiset(t) == multiset(s) && NonIncreasingFrom(s, p + 1)
    requires p < j < |s| && forall k :: j < k < |s| ==> s[k] <= s[p]
    requires |r| == |s| && multiset(r) == multiset(s) && r[..p] == s[..p] && r[p] == s[j]
    requires NonDecreasing(r[p + 1..])
    ensures t == r || LexLess(r, t)
  {
    PivotIsLeastIncrease(s, t, p, j);
    if r[p] < t[p] {
      assert LexLessAt(r, t, p);
    } else {
      assert r[..p] == t[..p];
      PrefixExtend(r, t, p);
      SortedTailIsLeast(r, t, p + 1);
    }
  }

  /** A rearrangement that first exceeds `s` at the pivot is no smaller than the successor. */
  lemma LeastAtPivot(s: seq<int>, t: seq<int>)
    requires HasSuccessor(s) && multiset(t) == multiset(s) && LexLessAt(s, t, LastAscent(s) - 1)
    ensures t == NextPermutation(s) || LexLess(NextPermutation(s), t)
  {
    var p := LastAscent(s) - 1;
    NextPermutationAdvances(s);
    NextPermutationTailSorted(s);
    LeastWithPivotValue(s, t, NextPermutation(s), p, LastAbove(s, s[p], p + 1, |s|));
  }

  /** The successor is the least rearrangement of `s` that is larger than `s`. */
  lemma NextPermutationIsLeast(s: seq<int>, t: seq<int>)
    requires HasSuccessor(s) && multiset(t) == multiset(s) && LexLess(s, t)
    ensures t == NextPermutation(s) || LexLess(NextPermutation(s), t)
  {
    var p := LastAscent(s) - 1;
    var k :| LexLessAt(s, t, k);
    if k > p {
      NoLargerAt(s, t, p + 1, k);
    } else if k < p {
      DifferenceBeforePivot(s, t, k);
    } else {
      LeastAtPivot(s, t);
    }
  }

  /** Without a pivot, `s` is the largest of its rearrangements. */
  lemma NoSuccessorIsGreatest(s: seq<int>, t: seq<int>)
    requires !HasSuccessor(s) && multiset(t) == multiset(s)
    ensures !LexLess(s, t)
  {
    forall k | 0 <= k < |s| ensures !LexLessAt(s, t, k) {
      NoLargerAt(s, t, 0, k);
    }
  }

  /** The enumeration can continue exactly when a larger rearrangement exists. */
  lemma HasSuccessorIff(s: seq<int>)
    ensures HasSuccessor(s) <==> exists t :: multiset(t) == multiset(s) && LexLess(s, t)
  {
    if HasSuccessor(s) {
      NextPermutationAdvances(s);
    } else {
      forall t | multiset(t) == multiset(s) ensures !LexLess(s, t) {
        NoSuccessorIsGreatest(s, t);
      }
    }
  }

  lemma IdentitySorted(n: nat)
    ensures NonDecreasing(Identity(n))
  {
  }

  /** The first permutation handed out is the lexicographically least one. */
  lemma IdentityIsFirst(s: seq<int>, n: nat)
    requires IsPermutation(s, n)
    ensures s == Identity(n) || LexLess(Identity(n), s)
  {
    NonDecreasingIsLexLeast(Identity(n), s);
  }

  /** Among permutations of 0..n-1 the last one is n-1, ..., 1, 0, and stepping past
      it wraps the buffer round to the identity. */
  lemma LastPermutation(s: seq<int>, n: nat)
    requires IsPermutation(s, n)
    ensures !HasSuccessor(s) <==> s == Reversed(Identity(n))
    ensures !HasSuccessor(s) ==> NextPermutation(s) == Identity(n)
  {
    if !HasSuccessor(s) {
      LastIsDescending(s, n);
    } else {
      DescendingHasNoSuccessor(n);
    }
  }

  /** A permutation with no successor is n-1, ..., 1, 0, and its wrap-around is the identity. */
  lemma LastIsDescending(s: seq<int>, n: nat)
    requires IsPermutation(s, n) && !HasSuccessor(s)
    ensures s == Reversed(Identity(n)) && NextPermutation(s) == Identity(n)
  {
    var id := Identity(n);
    IdentitySorted(n);
    NonIncreasingFromSuffix(s, 0);
    assert s[0..] == s;
    ReversedNonIncreasing(s);
    ReversedMultiset(s);
    NonDecreasingUnique(Reversed(s), id);
    ReversedTwice(s);
    NextPermutationOfLast(s);
  }

  /** n-1, ..., 1, 0 has no successor. */
  lemma DescendingHasNoSuccessor(n: nat)
    ensures !HasSuccessor(Reversed(Identity(n)))
  {
    var id := Identity(n);
    var desc := Reversed(id);
    var i := LastAscent(desc);
    if i > 0 {
      ReversedAt(id, i - 1);
      ReversedAt(id, i);
    }
  }

  /** One enumeration: the reused buffer `source` and whether the first call is still to come. */
  class Iter {
    const source: array<int>
    var isFirst: bool

    ghost predicate Valid()
      reads source
    {
      IsPermutation(source[..], source.Length)
    }

    constructor (size: nat)
      ensures Valid() && fresh(source) && isFirst
      ensures source[..] == Identity(size)
    {
      var buffer := new int[size];
      var i := 0;
      while i < size
        invariant 0 <= i <= size
        invariant forall k :: 0 <= k < i ==> buffer[k] == k
      {
        buffer[i] := i;
        i := i + 1;
      }
      assert buffer[..] == Identity(size);
      source := buffer;
      isFirst := true;
    }

    /** The first call only announces the identity; every later call advances the
        buffer to the next permutation, or, after the last one, resets it to the
        identity and reports that the enumeration is over. */
    method HasNext() returns (more: bool)
      requires Valid()
      modifies this, source
      ensures Valid() && !isFirst
      ensures old(isFirst) ==> more && source[..] == old(source[..])
      ensures !old(isFirst) ==> more == HasSuccessor(old(source[..]))
      ensures !old(isFirst) ==> source[..] == NextPermutation(old(source[..]))
    {
      if isFirst {
        isFirst := false;
        return true;
      }
      ghost var s := source[..];
      var n := source.Length;
      var i := FindPivot();
      if i > 0 {
        var j := FindPartner(i);
        SwapAndReverse(i, j);
        more := true;
      } else {
        NextPermutationOfLast(s);
        Reverse(source, 0, n);
        more := false;
      }
      NextPermutationKeepsPermutation(s, n);
    }

    /** The descending scan of hasNext: the last i with source[i-1] < source[i], or 0 when
        the buffer never goes up. */
    method FindPivot() returns (i: int)
      ensures i == LastAscent(source[..])
    {
      ghost var s := source[..];
      var n := source.Length;
      if n == 0 {
        return 0;
      }
      i := n - 1;
      while i > 0
        invariant 0 <= i < n
        invariant NonIncreasingFrom(s, i)
        decreases i
      {
        if source[i - 1] < source[i] {
          LastAscentAt(s, i);
          return;
        }
        i := i - 1;
      }
      NextPermutationOfLast(s);
    }

    /** The `--j` scan of hasNext: from the end, the first position whose value exceeds the
        pivot at i-1. It stops at i at the latest, because source[i] exceeds the pivot. */
    method FindPartner(i: int) returns (j: int)
      requires 0 < i < source.Length && source[i - 1] < source[i]
      ensures i <= j < source.Length && source[j] > source[i - 1]
      ensures forall k :: j < k < source.Length ==> source[k] <= source[i - 1]
    {
      j := source.Length - 1;
      while source[i - 1] >= source[j]
        invariant i <= j < source.Length
        invariant forall k :: j < k < source.Length ==> source[k] <= source[i - 1]
        decreases j
      {
        j := j - 1;
      }
    }

    /** The two in-place steps of an advance: exchange the pivot at i-1 with its partner
        at j, then reverse everything from i on. Given where the two scans stopped, this
        turns the buffer into its lexicographic successor. */
    method SwapAndReverse(i: int, j: int)
      requires 0 < i <= j < source.Length
      requires source[i - 1] < source[i] && NonIncreasingFrom(source[..], i)
      requires source[j] > source[i - 1] && forall k :: j < k < source.Length ==> source[k] <= source[i - 1]
      modifies source
      ensures source[..] == NextPermutation(old(source[..]))
    {
      ghost var s := source[..];
      var n := source.Length;
      Swap(source, i - 1, j);
      ghost var u := source[..];
      Reverse(source, i, n);
      SwapThenReverseIsNext(s, u, source[..], i, j);
    }

    /** Hands out the shared buffer itself, not a copy. */
    method Next() returns (r: array<int>)
      ensures r == source
    {
      r := source;
    }

    method Swap(a: array<int>, i: int, j: int)
      requires 0 <= i < a.Length && 0 <= j < a.Length
      modifies a
      ensures a[..] == Swapped(old(a[..]), i, j)
    {
      var t := a[i];
      a[i] := a[j];
      a[j] := t;
    }

    /** Reverses a[s..t) and leaves the rest of the array alone. */
    method Reverse(a: array<int>, s: int, t: int)
      requires 0 <= s <= t <= a.Length
      modifies a
      ensures a[..] == old(a[..s]) + Reversed(old(a[s..t])) + old(a[t..])
      ensures s == 0 && t == a.Length ==> a[..] == Reversed(old(a[..]))
    {
      ghost var before := a[..];
      var lo, hi := s, t - 1;
      while lo < hi
        invariant s <= lo <= hi + 1 <= t
        invariant lo + hi == s + t - 1
        invariant forall k :: s <= k < lo ==> a[k] == before[s + t - 1 - k]
        invariant forall k :: hi < k < t ==> a[k] == before[s + t - 1 - k]
        invariant forall k :: 0 <= k < a.Length && (k < s || lo <= k <= hi || t <= k) ==> a[k] == before[k]
        decreases hi - lo
      {
        Swap(a, lo, hi);
        lo, hi := lo + 1, hi - 1;
      }
      ReversedRange(before, a[..], s, t);
      if s == 0 && t == a.Length {
        ReversedWhole(before);
      }
    }
  }

  /** `iterator()`: a fresh enumeration positioned before the identity. */
  method Iterator(p: Permutation) returns (it: Iter)
    ensures fresh(it) && fresh(it.source) && it.Valid() && it.isFirst
    ensures it.source[..] == Identity(p.size)
  {
    it := new Iter(p.size);
  }

  /** With one element there is exactly one permutation, [0]. */
  method SingletonEnumeration() returns (first: bool, buffer: seq<int>, second: bool)
    ensures first && buffer == [0] && !second
  {
    var p := NewPermutation(1);
    var it := Iterator(p.value);
    first := it.HasNext();
    var a := it.Next();
    buffer := a[..];
    assert Identity(1) == [0];
    second := it.HasNext();
  }
}
