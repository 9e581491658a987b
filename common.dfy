/** Shared vocabulary for the puzzle solvers: an option type, sums and
    duplicate counts of integer sequences, and the counting facts the
    solvers' goal tests and fitness functions rest on. */
module Common {

  datatype Option<T> = None | Some(value: T)

  /** Python's `sum` over a list, accumulated left to right. */
  function Sum(s: seq<int>): int
  {
    if s == [] then 0 else Sum(s[..|s| - 1]) + s[|s| - 1]
  }

  /** `sum(range(1, n + 1))`, the target of every line of a solved board. */
  function Triangle(n: nat): nat
  {
    if n == 0 then 0 else Triangle(n - 1) + n
  }

  /** `list(range(lo, hi))`. */
  function Range(lo: int, hi: int): (r: seq<int>)
    ensures |r| == if lo <= hi then hi - lo else 0
    ensures forall k :: 0 <= k < |r| ==> r[k] == lo + k
    ensures forall x :: x in r <==> lo <= x < hi
  {
    var r := seq(if lo <= hi then hi - lo else 0, k => lo + k);
    assert forall x :: lo <= x < hi ==> x in r by {
      forall x | lo <= x < hi ensures x in r {
        assert r[x - lo] == x;
      }
    }
    r
  }

  predicate Distinct(s: seq<int>)
  {
    forall i, j :: 0 <= i < j < |s| ==> s[i] != s[j]
  }

  predicate StrictlyIncreasing(s: seq<int>)
  {
    forall i, j :: 0 <= i < j < |s| ==> s[i] < s[j]
  }

  /** `set(s)` */
  function Elements(s: seq<int>): set<int>
  {
    set x | x in s
  }

  /** The number of positions whose value already occurred earlier:
      `len(s) - len(set(s))`, see DupCountIsLengthMinusDistinct. */
  function DupCount(s: seq<int>): nat
  {
    if s == [] then 0
    else DupCount(s[..|s| - 1]) + (if s[|s| - 1] in s[..|s| - 1] then 1 else 0)
  }

  /** `a` is `b` with some elements dropped, the rest kept in order. */
  predicate IsSubsequence(a: seq<int>, b: seq<int>)
    decreases |b|
  {
    if a == [] then true
    else if b == [] then false
    else if a[0] == b[0] then IsSubsequence(a[1..], b[1..])
    else IsSubsequence(a, b[1..])
  }

  /** `s` with the element at position k removed. */
  function RemoveAt(s: seq<int>, k: nat): (r: seq<int>)
    requires k < |s|
    ensures |r| == |s| - 1
    ensures forall i :: 0 <= i < |r| ==> r[i] == if i < k then s[i] else s[i + 1]
  {
    s[..k] + s[k + 1..]
  }

  lemma {:induction false} SumAppend(a: seq<int>, b: seq<int>)
    ensures Sum(a + b) == Sum(a) + Sum(b)
    decreases |b|
  {
    if b != [] {
      var b' := b[..|b| - 1];
      assert (a + b)[..|a + b| - 1] == a + b';
      SumAppend(a, b');
    } else {
      assert a + b == a;
    }
  }

  /** s split around its k-th element. */
  lemma SplitAround(s: seq<int>, k: nat)
    requires k < |s|
    ensures s == s[..k] + ([s[k]] + s[k + 1..])
    ensures RemoveAt(s, k) == s[..k] + s[k + 1..]
  {
    assert s[k..] == [s[k]] + s[k + 1..];
    assert s == s[..k] + s[k..];
  }

  lemma SumRemoveAt(s: seq<int>, k: nat)
    requires k < |s|
    ensures Sum(RemoveAt(s, k)) == Sum(s) - s[k]
  {
    var front, back := s[..k], s[k + 1..];
    SplitAround(s, k);
    SumAppend(front, [s[k]] + back);
    SumAppend([s[k]], back);
    SumAppend(front, back);
    assert Sum([s[k]]) == s[k] by {
      assert [s[k]][..0] == [];
    }
  }

  /** A list of distinct values drawn from 1..m has at most m entries. */
  lemma {:induction false} DistinctWithinBound(s: seq<int>, m: nat)
    requires Distinct(s)
    requires forall i :: 0 <= i < |s| ==> 1 <= s[i] <= m
    ensures |s| <= m
    decreases |s|
  {
    if s != [] {
      var p, x := s[..|s| - 1], s[|s| - 1];
      assert 1 <= x <= m;
      // close the gap left by x, so that the rest fits in 1..m-1
      var q := seq(|p|, i requires 0 <= i < |p| => if p[i] > x then p[i] - 1 else p[i]);
      forall i, j | 0 <= i < j < |q| ensures q[i] != q[j] {
        assert p[i] == s[i] && p[j] == s[j] && s[i] != s[j];
        assert p[i] != x && p[j] != x;
      }
      forall i | 0 <= i < |q| ensures 1 <= q[i] <= m - 1 {
        assert p[i] == s[i] && p[i] != x;
      }
      DistinctWithinBound(q, m - 1);
    }
  }

  /** A list of m distinct values drawn from 1..m holds each of them once,
      so it sums to 1 + 2 + ... + m. This is why a sum test can stand in for
      a permutation test on a line that is known to be duplicate-free. */
  lemma {:induction false} DistinctFullSum(s: seq<int>, m: nat)
    requires Distinct(s) && |s| == m
    requires forall i :: 0 <= i < |s| ==> 1 <= s[i] <= m
    ensures Sum(s) == Triangle(m)
    decreases m
  {
    if m > 0 {
      if k :| 0 <= k < |s| && s[k] == m {
        var r := RemoveAt(s, k);
        forall i | 0 <= i < |r| ensures 1 <= r[i] <= m - 1 {
          assert r[i] != m;
        }
        DistinctFullSum(r, m - 1);
        SumRemoveAt(s, k);
      } else {
        DistinctWithinBound(s, m - 1);
        assert false;
      }
    }
  }

  lemma {:induction false} DupCountIsLengthMinusDistinct(s: seq<int>)
    ensures |Elements(s)| <= |s|
    ensures DupCount(s) == |s| - |Elements(s)|
    decreases |s|
  {
    if s != [] {
      var p, x := s[..|s| - 1], s[|s| - 1];
      DupCountIsLengthMinusDistinct(p);
      assert s == p + [x];
      assert Elements(s) == Elements(p) + {x};
      if x in p {
        assert Elements(s) == Elements(p);
      } else {
        assert x !in Elements(p);
      }
    } else {
      assert Elements(s) == {};
    }
  }

  lemma {:induction false} NoDuplicatesIffDistinct(s: seq<int>)
    ensures DupCount(s) == 0 <==> Distinct(s)
    decreases |s|
  {
    if s != [] {
      var p, x := s[..|s| - 1], s[|s| - 1];
      NoDuplicatesIffDistinct(p);
      if DupCount(s) == 0 {
        forall i, j | 0 <= i < j < |s| ensures s[i] != s[j] {
          if j == |s| - 1 {
            assert s[i] == p[i];
          } else {
            assert s[i] == p[i] && s[j] == p[j];
          }
        }
      }
      if Distinct(s) {
        assert Distinct(p) by {
          forall i, j | 0 <= i < j < |p| ensures p[i] != p[j] {
            assert p[i] == s[i] && p[j] == s[j];
          }
        }
        forall i | 0 <= i < |p| ensures p[i] != x {
          assert p[i] == s[i];
        }
      }
    }
  }

  lemma {:induction false} SubsequenceElements(a: seq<int>, b: seq<int>)
    requires IsSubsequence(a, b)
    ensures forall x :: x in a ==> x in b
    decreases |b|
  {
    if a != [] && b != [] {
      if a[0] == b[0] {
        SubsequenceElements(a[1..], b[1..]);
        forall x | x in a ensures x in b {
          if x != a[0] {
            assert x in a[1..];
          }
        }
      } else {
        SubsequenceElements(a, b[1..]);
      }
    }
  }

  /** Dropping elements from a strictly increasing list keeps it strictly increasing. */
  lemma {:induction false} SubsequenceOfIncreasing(a: seq<int>, b: seq<int>)
    requires IsSubsequence(a, b) && StrictlyIncreasing(b)
    ensures StrictlyIncreasing(a)
    decreases |b|
  {
    if a != [] && b != [] {
      if a[0] == b[0] {
        SubsequenceOfIncreasing(a[1..], b[1..]);
        SubsequenceElements(a[1..], b[1..]);
        forall i, j | 0 <= i < j < |a| ensures a[i] < a[j] {
          if i == 0 {
            assert a[j] in b[1..];
            var t :| 0 <= t < |b[1..]| && b[1..][t] == a[j];
            assert b[t + 1] == a[j];
          } else {
            assert a[i] == a[1..][i - 1] && a[j] == a[1..][j - 1];
          }
        }
      } else {
        SubsequenceOfIncreasing(a, b[1..]);
      }
    }
  }

  /** Two strictly increasing lists with the same elements are equal. */
  lemma {:induction false} IncreasingWithSameElements(a: seq<int>, b: seq<int>)
    requires StrictlyIncreasing(a) && StrictlyIncreasing(b)
    requires forall x :: x in a <==> x in b
    ensures a == b
    decreases |a|
  {
    if a != [] {
      assert a[0] in a;
    }
    if b != [] {
      assert b[0] in b;
    }
    if a != [] && b != [] {
      var i :| 0 <= i < |b| && b[i] == a[0];
      var j :| 0 <= j < |a| && a[j] == b[0];
      assert b[0] <= b[i] && a[0] <= a[j];
      forall x ensures x in a[1..] <==> x in b[1..] {
        if x in a[1..] {
          var i :| 0 <= i < |a[1..]| && a[1..][i] == x;
          assert a[i + 1] == x && x in b;
          var t :| 0 <= t < |b| && b[t] == x;
          assert t != 0;
          assert b[1..][t - 1] == x;
        }
        if x in b[1..] {
          var i :| 0 <= i < |b[1..]| && b[1..][i] == x;
          assert b[i + 1] == x && x in a;
          var t :| 0 <= t < |a| && a[t] == x;
          assert t != 0;
          assert a[1..][t - 1] == x;
        }
      }
      IncreasingWithSameElements(a[1..], b[1..]);
    }
  }

  /** No non-zero value occurs twice (zeros may repeat). */
  predicate DistinctNonZero(s: seq<int>)
  {
    forall i, j :: 0 <= i < j < |s| && s[i] != 0 ==> s[i] != s[j]
  }

  lemma {:induction false} SumOfZeros(s: seq<int>)
    requires forall i :: 0 <= i < |s| ==> s[i] == 0
    ensures Sum(s) == 0
    decreases |s|
  {
    if s != [] {
      SumOfZeros(s[..|s| - 1]);
    }
  }

  lemma RemoveAtKeepsDistinctNonZero(s: seq<int>, k: nat)
    requires k < |s| && DistinctNonZero(s)
    ensures DistinctNonZero(RemoveAt(s, k))
  {
    var r := RemoveAt(s, k);
    forall i, j | 0 <= i < j < |r| && r[i] != 0 ensures r[i] != r[j] {
      var i', j' := if i < k then i else i + 1, if j < k then j else j + 1;
      assert r[i] == s[i'] && r[j] == s[j'] && i' < j';
    }
  }

  /** Values drawn from 0..m whose non-zero ones are distinct sum to at
      most 1 + 2 + ... + m. */
  lemma {:induction false} SumAtMostTriangle(s: seq<int>, m: nat)
    requires DistinctNonZero(s)
    requires forall i :: 0 <= i < |s| ==> 0 <= s[i] <= m
    ensures Sum(s) <= Triangle(m)
    decreases m
  {
    if m == 0 {
      SumOfZeros(s);
    } else if k :| 0 <= k < |s| && s[k] == m {
      var r := RemoveAt(s, k);
      forall i | 0 <= i < |r| ensures 0 <= r[i] <= m - 1 {
        if i < k {
          assert r[i] == s[i] && s[i] != s[k];
        } else {
          assert r[i] == s[i + 1] && s[k] != s[i + 1];
        }
      }
      RemoveAtKeepsDistinctNonZero(s, k);
      SumAtMostTriangle(r, m - 1);
      SumRemoveAt(s, k);
    } else {
      SumAtMostTriangle(s, m - 1);
    }
  }

  /** m values drawn from 0..m whose non-zero ones are distinct, one of
      them 0, sum to less than 1 + 2 + ... + m: a line with an empty cell
      cannot pass a sum test unless it repeats a value. */
  lemma {:induction false} ZeroSumBelow(s: seq<int>, m: nat, z: nat)
    requires |s| == m && DistinctNonZero(s)
    requires forall i :: 0 <= i < |s| ==> 0 <= s[i] <= m
    requires z < |s| && s[z] == 0
    ensures Sum(s) < Triangle(m)
    decreases m
  {
    if k :| 0 <= k < |s| && s[k] == m {
      var r := RemoveAt(s, k);
      forall i | 0 <= i < |r| ensures 0 <= r[i] <= m - 1 {
        if i < k {
          assert r[i] == s[i] && s[i] != s[k];
        } else {
          assert r[i] == s[i + 1] && s[k] != s[i + 1];
        }
      }
      RemoveAtKeepsDistinctNonZero(s, k);
      var z' := if z < k then z else z - 1;
      assert r[z'] == 0;
      ZeroSumBelow(r, m - 1, z');
      SumRemoveAt(s, k);
    } else {
      SumAtMostTriangle(s, m - 1);
    }
  }

  /** Putting a value below every element in front keeps a list strictly increasing. */
  lemma ConsIncreasing(v: int, s: seq<int>)
    requires StrictlyIncreasing(s)
    requires forall x :: x in s ==> v < x
    ensures StrictlyIncreasing([v] + s)
  {
    forall i, j | 0 <= i < j < |[v] + s| ensures ([v] + s)[i] < ([v] + s)[j] {
      assert ([v] + s)[j] == s[j - 1] && s[j - 1] in s;
    }
  }

  lemma RangeIncreasing(lo: int, hi: int)
    ensures StrictlyIncreasing(Range(lo, hi))
  {
  }

  /** A strictly increasing list has no repeated value. */
  lemma IncreasingIsDistinct(s: seq<int>)
    requires StrictlyIncreasing(s)
    ensures Distinct(s)
  {
  }

  /** A subset is no larger than its superset. */
  lemma SubsetCard(a: set<int>, b: set<int>)
    requires a <= b
    ensures |a| <= |b|
  {
    assert b == a + (b - a);
  }

  lemma DistinctElements(s: seq<int>)
    requires Distinct(s)
    ensures |Elements(s)| == |s|
  {
    NoDuplicatesIffDistinct(s);
    DupCountIsLengthMinusDistinct(s);
  }

  lemma {:induction false} DistinctCount(s: seq<int>, x: int)
    requires Distinct(s)
    ensures multiset(s)[x] == if x in s then 1 else 0
    decreases |s|
  {
    if s != [] {
      var p := s[..|s| - 1];
      assert s == p + [s[|s| - 1]];
      assert Distinct(p) by {
        forall i, j | 0 <= i < j < |p| ensures p[i] != p[j] {
          assert p[i] == s[i] && p[j] == s[j];
        }
      }
      DistinctCount(p, x);
      if x == s[|s| - 1] {
        forall i | 0 <= i < |p| ensures p[i] != x {
          assert p[i] == s[i];
        }
      }
    }
  }

  lemma TwoOccurrences(s: seq<int>, i: nat, j: nat)
    requires i < j < |s| && s[i] == s[j]
    ensures multiset(s)[s[i]] >= 2
  {
    var v := s[i];
    assert s == s[..j] + [v] + s[j + 1..];
    assert s[..j][i] == v;
  }

  /** A sequence with the multiset of 1..9 holds the digits 1..9 once each. */
  lemma PermutationOfDigits(s: seq<int>)
    requires multiset(s) == multiset(Range(1, 10))
    ensures Distinct(s) && forall k :: 0 <= k < |s| ==> 1 <= s[k] <= 9
  {
    RangeIncreasing(1, 10);
    IncreasingIsDistinct(Range(1, 10));
    forall k | 0 <= k < |s| ensures 1 <= s[k] <= 9 {
      assert s[k] in multiset(s);
    }
    forall i, j | 0 <= i < j < |s| ensures s[i] != s[j] {
      DistinctCount(Range(1, 10), s[i]);
      if s[i] == s[j] {
        TwoOccurrences(s, i, j);
      }
    }
  }
}
