/**
 * `itertools.combinations(range(lo, hi), k)` as a pure specification: the
 * strictly increasing k-tuples drawn from `lo .. hi-1`, in lexicographic
 * order, together with their number, the binomial coefficient.
 */
module Combinations {

  /** Strictly increasing positions. */
  predicate Increasing(c: seq<int>) {
    forall i, j :: 0 <= i < j < |c| ==> c[i] < c[j]
  }

  /** Every position lies in `lo .. hi-1`. */
  predicate Within(c: seq<int>, lo: int, hi: int) {
    forall i :: 0 <= i < |c| ==> lo <= c[i] < hi
  }

  /**
   * `c` is one of the tuples `combinations(range(lo, hi), k)` can produce:
   * k positions, the first in `lo .. hi-1`, each later one above the one before.
   */
  predicate IsCombination(c: seq<int>, lo: int, hi: int, k: nat)
    decreases |c|
  {
    |c| == k && (c == [] || (lo <= c[0] < hi && IsCombination(c[1..], c[0] + 1, hi, k - 1)))
  }

  /** A combination is a strictly increasing tuple drawn from `lo .. hi-1`. */
  lemma {:induction false} CombinationIndex(c: seq<int>, lo: int, hi: int, k: nat)
    requires IsCombination(c, lo, hi, k)
    ensures Increasing(c) && Within(c, lo, hi)
    decreases |c|
  {
    if c != [] {
      CombinationIndex(c[1..], c[0] + 1, hi, k - 1);
      assert forall i :: 0 < i < |c| ==> c[i] == c[1..][i - 1];
    }
  }

  /** Conversely, every strictly increasing k-tuple drawn from `lo .. hi-1` is a combination. */
  lemma {:induction false} IndexCombination(c: seq<int>, lo: int, hi: int, k: nat)
    requires |c| == k && Increasing(c) && Within(c, lo, hi)
    ensures IsCombination(c, lo, hi, k)
    decreases |c|
  {
    if c != [] {
      assert forall i :: 0 <= i < |c| - 1 ==> c[1..][i] == c[i + 1];
      IndexCombination(c[1..], c[0] + 1, hi, k - 1);
    }
  }

  /** Lexicographic order on position tuples, strict. */
  predicate LexLess(a: seq<int>, b: seq<int>) {
    |b| > 0 && (|a| == 0 || a[0] < b[0] || (a[0] == b[0] && LexLess(a[1..], b[1..])))
  }

  /** Puts `x` in front of every tuple. */
  function Prepend(x: int, cs: seq<seq<int>>): (r: seq<seq<int>>)
    ensures |r| == |cs|
    ensures forall i :: 0 <= i < |cs| ==> r[i] == [x] + cs[i]
  {
    seq(|cs|, i requires 0 <= i < |cs| => [x] + cs[i])
  }

  /**
   * The tuples of `combinations(range(lo, hi), k)` in the order they are
   * yielded: first those that start with `lo`, then those that do not.
   */
  function Combos(lo: int, hi: int, k: nat): seq<seq<int>>
    decreases hi - lo, k
  {
    if k == 0 then [[]]
    else if lo >= hi then []
    else Prepend(lo, Combos(lo + 1, hi, k - 1)) + Combos(lo + 1, hi, k)
  }

  /** Every tuple produced is increasing, of length k, and drawn from `lo .. hi-1`. */
  lemma {:induction false} CombosSound(lo: int, hi: int, k: nat)
    ensures forall c :: c in Combos(lo, hi, k) ==> IsCombination(c, lo, hi, k)
    decreases hi - lo, k
  {
    if k > 0 && lo < hi {
      var first := Combos(lo + 1, hi, k - 1);
      CombosSound(lo + 1, hi, k - 1);
      CombosSound(lo + 1, hi, k);
      forall c | c in Prepend(lo, first) ensures IsCombination(c, lo, hi, k) {
        var i :| 0 <= i < |first| && c == [lo] + first[i];
        assert first[i] in first && c[1..] == first[i];
      }
      forall c | c in Combos(lo + 1, hi, k) ensures IsCombination(c, lo, hi, k) {
        assert c[1..] == c[1..];
      }
    }
  }

  /** Prepending keeps membership: `[x] + c` is produced for every produced `c`. */
  lemma PrependMember(x: int, cs: seq<seq<int>>, c: seq<int>)
    requires c in cs
    ensures [x] + c in Prepend(x, cs)
  {
    var i :| 0 <= i < |cs| && cs[i] == c;
    assert Prepend(x, cs)[i] == [x] + c;
  }

  /** Every increasing k-tuple drawn from `lo .. hi-1` is produced. */
  lemma {:induction false} CombosComplete(lo: int, hi: int, k: nat, c: seq<int>)
    requires IsCombination(c, lo, hi, k)
    ensures c in Combos(lo, hi, k)
    decreases hi - lo, k
  {
    if k > 0 {
      var first := Combos(lo + 1, hi, k - 1);
      var rest := Combos(lo + 1, hi, k);
      assert lo < hi && Combos(lo, hi, k) == Prepend(lo, first) + rest;
      if c[0] == lo {
        CombosComplete(lo + 1, hi, k - 1, c[1..]);
        PrependMember(lo, first, c[1..]);
        assert [lo] + c[1..] == c;
      } else {
        CombosComplete(lo + 1, hi, k, c);
      }
    }
  }

  /** The tuples yielded are exactly the strictly increasing k-tuples drawn from `lo .. hi-1`. */
  lemma CombosExactly(lo: int, hi: int, k: nat, c: seq<int>)
    ensures c in Combos(lo, hi, k) <==> |c| == k && Increasing(c) && Within(c, lo, hi)
  {
    if c in Combos(lo, hi, k) {
      CombosSound(lo, hi, k);
      CombinationIndex(c, lo, hi, k);
    }
    if |c| == k && Increasing(c) && Within(c, lo, hi) {
      IndexCombination(c, lo, hi, k);
      CombosComplete(lo, hi, k, c);
    }
  }

  /** Putting the same position in front keeps lexicographic order. */
  lemma PrependLess(x: int, a: seq<int>, b: seq<int>)
    requires LexLess(a, b)
    ensures LexLess([x] + a, [x] + b)
  {
    assert ([x] + a)[1..] == a && ([x] + b)[1..] == b;
  }

  /** The tuples come out in strictly increasing lexicographic order. */
  lemma {:induction false} CombosSorted(lo: int, hi: int, k: nat)
    ensures forall i, j :: 0 <= i < j < |Combos(lo, hi, k)| ==> LexLess(Combos(lo, hi, k)[i], Combos(lo, hi, k)[j])
    decreases hi - lo, k
  {
    if k > 0 && lo < hi {
      var first := Combos(lo + 1, hi, k - 1);
      var rest := Combos(lo + 1, hi, k);
      var r := Combos(lo, hi, k);
      CombosSorted(lo + 1, hi, k - 1);
      CombosSorted(lo + 1, hi, k);
      CombosSound(lo + 1, hi, k);
      forall i, j | 0 <= i < j < |r| ensures LexLess(r[i], r[j]) {
        if j < |first| {
          PrependLess(lo, first[i], first[j]);
        } else if i >= |first| {
          assert r[i] == rest[i - |first|] && r[j] == rest[j - |first|];
        } else {
          assert r[j] == rest[j - |first|] && rest[j - |first|] in rest;
        }
      }
    }
  }

  /** Lexicographic order is irreflexive, so a strictly sorted list has no repeats. */
  lemma {:induction false} LexLessIrreflexive(a: seq<int>)
    ensures !LexLess(a, a)
  {
    if |a| > 0 {
      LexLessIrreflexive(a[1..]);
    }
  }

  /** Pascal's rule, the number of ways to choose `k` of `n`. */
  function Binom(n: nat, k: nat): nat {
    if k == 0 then 1
    else if n == 0 then 0
    else Binom(n - 1, k - 1) + Binom(n - 1, k)
  }

  /** `combinations(range(lo, hi), k)` yields `C(hi - lo, k)` tuples. */
  lemma {:induction false} CombosCount(lo: int, hi: int, k: nat)
    requires lo <= hi
    ensures |Combos(lo, hi, k)| == Binom(hi - lo, k)
    decreases hi - lo, k
  {
    if k > 0 && lo < hi {
      CombosCount(lo + 1, hi, k - 1);
      CombosCount(lo + 1, hi, k);
    }
  }

  /** `C(n, k)` vanishes when more are chosen than there are. */
  lemma {:induction false} BinomZero(n: nat, k: nat)
    requires k > n
    ensures Binom(n, k) == 0
  {
    if n > 0 {
      BinomZero(n - 1, k - 1);
      BinomZero(n - 1, k);
    }
  }

  function Pow2(n: nat): nat {
    if n == 0 then 1 else 2 * Pow2(n - 1)
  }

  /** `C(n, 0) + C(n, 1) + ... + C(n, j)`. */
  function BinomSum(n: nat, j: nat): nat {
    if j == 0 then Binom(n, 0) else BinomSum(n, j - 1) + Binom(n, j)
  }

  /** Pascal's rule summed over a prefix of the row. */
  lemma {:induction false} BinomSumStep(n: nat, j: nat)
    ensures BinomSum(n + 1, j + 1) == BinomSum(n, j) + BinomSum(n, j + 1)
  {
    if j > 0 {
      BinomSumStep(n, j - 1);
    }
  }

  /** Past the end of the row the sum no longer grows. */
  lemma {:induction false} BinomSumFull(n: nat, j: nat)
    requires j >= n
    ensures BinomSum(n, j) == BinomSum(n, n)
    decreases j
  {
    if j > n {
      BinomZero(n, j);
      BinomSumFull(n, j - 1);
    }
  }

  /** A row of Pascal's triangle sums to `2^n`. */
  lemma {:induction false} BinomRowSum(n: nat)
    ensures BinomSum(n, n) == Pow2(n)
  {
    if n > 0 {
      BinomRowSum(n - 1);
      BinomSumStep(n - 1, n - 1);
      BinomSumFull(n - 1, n);
    }
  }
}
