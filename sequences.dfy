/** Integer sequences: reversal, monotonicity and lexicographic order.
    These are the vocabulary in which the permutation enumerator is specified. */
module Sequences {

  /** `s` read back to front. */
  function Reversed(s: seq<int>): (r: seq<int>)
    ensures |r| == |s|
  {
    if s == [] then [] else Reversed(s[1..]) + [s[0]]
  }

  lemma {:induction false} ReversedAt(s: seq<int>, k: int)
    requires 0 <= k < |s|
    ensures Reversed(s)[k] == s[|s| - 1 - k]
  {
    if k < |s| - 1 {
      ReversedAt(s[1..], k);
    }
  }

  lemma {:induction false} ReversedMultiset(s: seq<int>)
    ensures multiset(Reversed(s)) == multiset(s)
  {
    if s != [] {
      ReversedMultiset(s[1..]);
      assert s == [s[0]] + s[1..];
    }
  }

  /** A sequence that agrees with x outside [lo, hi) and mirrors x inside it is x with that range reversed. */
  lemma ReversedRange(x: seq<int>, y: seq<int>, lo: int, hi: int)
    requires 0 <= lo <= hi <= |x| == |y|
    requires forall k :: 0 <= k < |x| && !(lo <= k < hi) ==> y[k] == x[k]
    requires forall k :: lo <= k < hi ==> y[k] == x[lo + hi - 1 - k]
    ensures y == x[..lo] + Reversed(x[lo..hi]) + x[hi..]
  {
    var w := x[lo..hi];
    var rw := Reversed(w);
    var left := x[..lo] + rw;
    var want := left + x[hi..];
    forall k | 0 <= k < |x| ensures y[k] == want[k] {
      if k < lo {
        assert want[k] == left[k] == x[..lo][k];
      } else if k < hi {
        ReversedAt(w, k - lo);
        assert want[k] == left[k] == rw[k - lo];
      } else {
        assert want[k] == x[hi..][k - hi];
      }
    }
  }

  /** Reversing the whole of x, written as a range, is reversing x. */
  lemma ReversedWhole(x: seq<int>)
    ensures x[..0] + Reversed(x[0..|x|]) + x[|x|..] == Reversed(x)
  {
    assert x[0..|x|] == x;
    assert x[..0] == [] && x[|x|..] == [];
  }

  lemma ReversedTwice(s: seq<int>)
    ensures Reversed(Reversed(s)) == s
  {
    var r := Reversed(s);
    forall k | 0 <= k < |s| ensures Reversed(r)[k] == s[k] {
      ReversedAt(r, k);
      ReversedAt(s, |s| - 1 - k);
    }
  }

  ghost predicate NonDecreasing(s: seq<int>) {
    forall a, b :: 0 <= a < b < |s| ==> s[a] <= s[b]
  }

  ghost predicate NonIncreasing(s: seq<int>) {
    forall a, b :: 0 <= a < b < |s| ==> s[a] >= s[b]
  }

  /** `s[i..]` never goes up, checked one neighbouring pair at a time from i on. */
  ghost predicate NonIncreasingFrom(s: seq<int>, i: nat)
    decreases |s| - i
  {
    i + 1 >= |s| || (s[i] >= s[i + 1] && NonIncreasingFrom(s, i + 1))
  }

  lemma {:induction false} NonIncreasingFromAt(s: seq<int>, i: nat, a: int, b: int)
    requires NonIncreasingFrom(s, i) && i <= a < b < |s|
    ensures s[a] >= s[b]
    decreases |s| - i
  {
    if a > i {
      NonIncreasingFromAt(s, i + 1, a, b);
    } else if b > i + 1 {
      NonIncreasingFromAt(s, i + 1, i + 1, b);
    }
  }

  lemma NonIncreasingFromSuffix(s: seq<int>, i: nat)
    requires NonIncreasingFrom(s, i) && i <= |s|
    ensures NonIncreasing(s[i..])
  {
    forall a, b | 0 <= a < b < |s| - i ensures s[i..][a] >= s[i..][b] {
      NonIncreasingFromAt(s, i, i + a, i + b);
    }
  }

  lemma ReversedNonIncreasing(s: seq<int>)
    requires NonIncreasing(s)
    ensures NonDecreasing(Reversed(s))
  {
    forall a, b | 0 <= a < b < |s| ensures Reversed(s)[a] <= Reversed(s)[b] {
      ReversedAt(s, a);
      ReversedAt(s, b);
    }
  }

  /** `a` and `b` agree before position `k`, and `a` is smaller at `k`. */
  ghost predicate LexLessAt(a: seq<int>, b: seq<int>, k: int) {
    |a| == |b| && 0 <= k < |a| && a[..k] == b[..k] && a[k] < b[k]
  }

  /** Strict lexicographic order on sequences of one length. */
  ghost predicate LexLess(a: seq<int>, b: seq<int>) {
    exists k :: LexLessAt(a, b, k)
  }

  lemma LexLessAsymmetric(a: seq<int>, b: seq<int>)
    requires LexLess(a, b)
    ensures !LexLess(b, a)
  {
    var k :| LexLessAt(a, b, k);
    forall m | 0 <= m < |a| ensures !LexLessAt(b, a, m) {
      if m < k {
        assert a[..k][m] == a[m] && b[..k][m] == b[m];
      } else if k < m {
        assert a[..m][k] == a[k] && b[..m][k] == b[k];
      }
    }
  }

  /** Two sequences that agree on a prefix compare like their remainders. */
  lemma LexLessExtend(p: seq<int>, a: seq<int>, b: seq<int>)
    requires LexLess(a, b)
    ensures LexLess(p + a, p + b)
  {
    var k :| LexLessAt(a, b, k);
    assert (p + a)[..|p| + k] == p + a[..k];
    assert (p + b)[..|p| + k] == p + b[..k];
    assert LexLessAt(p + a, p + b, |p| + k);
  }

  /** Two sequences with equal multisets and equal first elements have equal remainders. */
  lemma MultisetTail(a: seq<int>, b: seq<int>)
    requires |a| > 0 && |b| > 0 && a[0] == b[0] && multiset(a) == multiset(b)
    ensures multiset(a[1..]) == multiset(b[1..])
  {
    assert a == [a[0]] + a[1..];
    assert b == [b[0]] + b[1..];
    assert multiset(a[1..]) == multiset(a) - multiset{a[0]};
    assert multiset(b[1..]) == multiset(b) - multiset{b[0]};
  }

  /** The head of a sorted sequence is no larger than any of its elements. */
  lemma NonDecreasingHeadIsMin(a: seq<int>, x: int)
    requires NonDecreasing(a) && x in multiset(a)
    ensures a[0] <= x
  {
    var m :| 0 <= m < |a| && a[m] == x;
    assert m == 0 || a[0] <= a[m];
  }

  /** Among all arrangements of one multiset, the sorted one comes first. */
  lemma {:induction false} NonDecreasingIsLexLeast(a: seq<int>, b: seq<int>)
    requires NonDecreasing(a) && multiset(a) == multiset(b)
    ensures a == b || LexLess(a, b)
  {
    assert |a| == |multiset(a)| == |multiset(b)| == |b|;
    if a != [] {
      assert b[0] in multiset(b);
      NonDecreasingHeadIsMin(a, b[0]);
      if a[0] < b[0] {
        assert LexLessAt(a, b, 0);
      } else {
        MultisetTail(a, b);
        NonDecreasingIsLexLeast(a[1..], b[1..]);
        assert a == [a[0]] + a[1..];
        assert b == [b[0]] + b[1..];
        if a[1..] != b[1..] {
          LexLessExtend([a[0]], a[1..], b[1..]);
        }
      }
    }
  }

  /** Two sorted arrangements of one multiset are the same sequence. */
  lemma NonDecreasingUnique(a: seq<int>, b: seq<int>)
    requires NonDecreasing(a) && NonDecreasing(b) && multiset(a) == multiset(b)
    ensures a == b
  {
    NonDecreasingIsLexLeast(a, b);
    NonDecreasingIsLexLeast(b, a);
    if a != b {
      LexLessAsymmetric(a, b);
    }
  }
}
