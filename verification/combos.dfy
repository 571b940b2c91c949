/** The order in which the comparator lists Venn-diagram region counts:
    every non-empty set of run positions, smallest sets first, sets of the
    same size in lexicographic order. A set of positions is written as a
    strictly increasing sequence, so "run 1 and run 3" is `[0, 2]`. */
module Combos {
  import opened Collections

  predicate Increasing(c: seq<nat>) {
    forall i, j :: 0 <= i < j < |c| ==> c[i] < c[j]
  }

  predicate InRange(c: seq<nat>, lo: nat, n: nat) {
    forall i :: 0 <= i < |c| ==> lo <= c[i] < n
  }

  /** Strict lexicographic order on sequences of run positions. */
  predicate LexLess(a: seq<nat>, b: seq<nat>)
    decreases |a|
  {
    |a| > 0 && |b| > 0 && (a[0] < b[0] || (a[0] == b[0] && LexLess(a[1..], b[1..])))
  }

  /** Smaller sets first; equal sizes in lexicographic order. */
  predicate Before(a: seq<nat>, b: seq<nat>) {
    |a| < |b| || (|a| == |b| && LexLess(a, b))
  }

  predicate SizeThenLex(v: seq<seq<nat>>) {
    forall i, j :: 0 <= i < j < |v| ==> Before(v[i], v[j])
  }

  function Prepend(x: nat, css: seq<seq<nat>>): (r: seq<seq<nat>>)
    ensures |r| == |css|
    ensures forall i :: 0 <= i < |r| ==> r[i] == [x] + css[i]
  {
    if |css| == 0 then [] else [[x] + css[0]] + Prepend(x, css[1..])
  }

  /** Every `k`-element subset of the positions `lo .. n-1`, in
      lexicographic order. */
  function Choose(lo: nat, n: nat, k: nat): seq<seq<nat>>
    decreases n - lo, k
  {
    if k == 0 then [[]]
    else if n <= lo then []
    else Prepend(lo, Choose(lo + 1, n, k - 1)) + Choose(lo + 1, n, k)
  }

  function Binom(m: nat, k: nat): nat
    decreases m
  {
    if k == 0 then 1 else if m == 0 then 0 else Binom(m - 1, k - 1) + Binom(m - 1, k)
  }

  function Pow2(n: nat): (r: nat)
    ensures r >= 1
  {
    if n == 0 then 1 else 2 * Pow2(n - 1)
  }

  /** The layers of sizes `k .. n` of the Venn order for `n` runs. */
  function Layers(n: nat, k: nat): seq<seq<nat>>
    decreases n + 1 - k
  {
    if n < k then [] else Choose(0, n, k) + Layers(n, k + 1)
  }

  /** Every non-empty subset of `n` run positions, in the order the
      comparator writes the Venn counts. */
  function VennOrder(n: nat): seq<seq<nat>>
  {
    Layers(n, 1)
  }

  // ---------------------------------------------------------------------
  // Counting
  // ---------------------------------------------------------------------

  lemma {:induction false} ChooseCount(lo: nat, n: nat, k: nat)
    requires lo <= n
    ensures |Choose(lo, n, k)| == Binom(n - lo, k)
    decreases n - lo, k
  {
    if k > 0 && lo < n {
      ChooseCount(lo + 1, n, k - 1);
      ChooseCount(lo + 1, n, k);
    }
  }

  lemma {:induction false} BinomAbove(m: nat, k: nat)
    requires k > m
    ensures Binom(m, k) == 0
    decreases m
  {
    if m > 0 {
      BinomAbove(m - 1, k - 1);
      BinomAbove(m - 1, k);
    }
  }

  /** `Binom(m, 0) + ... + Binom(m, k)`. */
  function BinomSum(m: nat, k: nat): nat
  {
    if k == 0 then 1 else BinomSum(m, k - 1) + Binom(m, k)
  }

  lemma {:induction false} BinomSumPascal(m: nat, k: nat)
    requires m >= 1 && k >= 1
    ensures BinomSum(m, k) == BinomSum(m - 1, k) + BinomSum(m - 1, k - 1)
  {
    if k > 1 {
      BinomSumPascal(m, k - 1);
      assert BinomSum(m - 1, k) == BinomSum(m - 1, k - 1) + Binom(m - 1, k);
      assert BinomSum(m - 1, k - 1) == BinomSum(m - 1, k - 2) + Binom(m - 1, k - 1);
    } else {
      assert BinomSum(m - 1, 1) == 1 + Binom(m - 1, 1);
    }
  }

  lemma {:induction false} BinomSumAll(m: nat)
    ensures BinomSum(m, m) == Pow2(m)
  {
    if m > 0 {
      BinomSumAll(m - 1);
      BinomSumPascal(m, m);
      BinomAbove(m - 1, m);
    }
  }

  lemma {:induction false} LayersCount(n: nat, k: nat)
    requires 1 <= k <= n + 1
    ensures |Layers(n, k)| + BinomSum(n, k - 1) == BinomSum(n, n)
    decreases n + 1 - k
  {
    if k <= n {
      ChooseCount(0, n, k);
      LayersCount(n, k + 1);
    }
  }

  /** The Venn list for `n` runs has `2^n - 1` entries. */
  lemma VennOrderCount(n: nat)
    ensures |VennOrder(n)| == Pow2(n) - 1
  {
    LayersCount(n, 1);
    BinomSumAll(n);
  }

  // ---------------------------------------------------------------------
  // Order and completeness
  // ---------------------------------------------------------------------

  predicate LexSorted(r: seq<seq<nat>>) {
    forall i, j :: 0 <= i < j < |r| ==> LexLess(r[i], r[j])
  }

  lemma {:induction false} ChooseSorted(lo: nat, n: nat, k: nat)
    ensures LexSorted(Choose(lo, n, k))
    decreases n - lo, k
  {
    if k > 0 && lo < n {
      var a := Choose(lo + 1, n, k - 1);
      var p := Prepend(lo, a);
      var b := Choose(lo + 1, n, k);
      ChooseSorted(lo + 1, n, k - 1);
      PrependSorted(lo, a);
      ChooseSorted(lo + 1, n, k);
      PrependBefore(lo, a, b, n, k);
      SortedAppend(p, b);
    }
  }

  /** Sets starting with `lo` come before the sets drawn from above `lo`. */
  lemma PrependBefore(lo: nat, a: seq<seq<nat>>, b: seq<seq<nat>>, n: nat, k: nat)
    requires k > 0 && b == Choose(lo + 1, n, k)
    ensures forall i, j :: 0 <= i < |a| && 0 <= j < |b| ==> LexLess(Prepend(lo, a)[i], b[j])
  {
    var p := Prepend(lo, a);
    ChooseShape(lo + 1, n, k);
    forall i, j | 0 <= i < |a| && 0 <= j < |b| ensures LexLess(p[i], b[j]) {
      assert p[i][0] == lo < b[j][0];
    }
  }

  /** Putting the same first position in front keeps the order. */
  lemma PrependSorted(x: nat, a: seq<seq<nat>>)
    requires LexSorted(a)
    ensures LexSorted(Prepend(x, a))
  {
    var p := Prepend(x, a);
    forall i, j | 0 <= i < j < |p| ensures LexLess(p[i], p[j]) {
      assert LexLess(a[i], a[j]);
      assert p[i][1..] == a[i] && p[j][1..] == a[j];
    }
  }

  /** Two sorted lists, every entry of the first before every entry of
      the second, make a sorted list. */
  lemma SortedAppend(p: seq<seq<nat>>, b: seq<seq<nat>>)
    requires LexSorted(p) && LexSorted(b)
    requires forall i, j :: 0 <= i < |p| && 0 <= j < |b| ==> LexLess(p[i], b[j])
    ensures LexSorted(p + b)
  {
    var r := p + b;
    forall i, j | 0 <= i < j < |r| ensures LexLess(r[i], r[j]) {
      if j < |p| {
        assert r[i] == p[i] && r[j] == p[j];
      } else if i < |p| {
        assert r[i] == p[i] && r[j] == b[j - |p|];
      } else {
        assert r[i] == b[i - |p|] && r[j] == b[j - |p|];
      }
    }
  }

  /** `Choose` lists only subsets of the right size drawn from `lo .. n-1`. */
  lemma {:induction false} ChooseShape(lo: nat, n: nat, k: nat)
    ensures forall i :: 0 <= i < |Choose(lo, n, k)| ==>
      |Choose(lo, n, k)[i]| == k && Increasing(Choose(lo, n, k)[i]) && InRange(Choose(lo, n, k)[i], lo, n)
    decreases n - lo, k
  {
    if k > 0 && lo < n {
      var a := Choose(lo + 1, n, k - 1);
      var p := Prepend(lo, a);
      var b := Choose(lo + 1, n, k);
      ChooseShape(lo + 1, n, k - 1);
      ChooseShape(lo + 1, n, k);
      var r := p + b;
      forall i | 0 <= i < |r|
        ensures |r[i]| == k && Increasing(r[i]) && InRange(r[i], lo, n)
      {
        if i < |p| {
          var c := a[i];
          assert r[i] == [lo] + c;
          forall x, y | 0 <= x < y < |r[i]| ensures r[i][x] < r[i][y] {
            if x > 0 {
              assert r[i][x] == c[x - 1] && r[i][y] == c[y - 1];
            } else {
              assert r[i][y] == c[y - 1];
            }
          }
        } else {
          assert r[i] == b[i - |p|];
        }
      }
    }
  }

  /** `Choose` lists every subset of the right size. */
  lemma {:induction false} ChooseComplete(lo: nat, n: nat, k: nat, c: seq<nat>)
    requires |c| == k && Increasing(c) && InRange(c, lo, n)
    ensures c in Choose(lo, n, k)
    decreases n - lo, k
  {
    if k == 0 {
      assert c == [];
    } else {
      assert lo <= c[0] < n;
      var rest := c[1..];
      if c[0] == lo {
        assert InRange(rest, lo + 1, n) by {
          forall i | 0 <= i < |rest| ensures lo + 1 <= rest[i] < n {
            assert c[0] < c[i + 1];
          }
        }
        ChooseComplete(lo + 1, n, k - 1, rest);
        var a := Choose(lo + 1, n, k - 1);
        assert rest in a;
        var i :| 0 <= i < |a| && a[i] == rest;
        assert Prepend(lo, a)[i] == c;
      } else {
        assert InRange(c, lo + 1, n) by {
          forall i | 0 <= i < |c| ensures lo + 1 <= c[i] < n {
            if i > 0 { assert c[0] < c[i]; }
          }
        }
        ChooseComplete(lo + 1, n, k, c);
      }
    }
  }

  lemma {:induction false} LayersOrdered(n: nat, k: nat)
    requires k >= 1
    ensures SizeThenLex(Layers(n, k))
    ensures forall i :: 0 <= i < |Layers(n, k)| ==> k <= |Layers(n, k)[i]| && Increasing(Layers(n, k)[i]) && InRange(Layers(n, k)[i], 0, n)
    decreases n + 1 - k
  {
    if k <= n {
      var c := Choose(0, n, k);
      var rest := Layers(n, k + 1);
      ChooseSorted(0, n, k);
      LayersOrdered(n, k + 1);
      var v := c + rest;
      ChooseShape(0, n, k);
      forall i, j | 0 <= i < j < |v|
        ensures Before(v[i], v[j])
      {
        if j < |c| {
        } else if i < |c| {
          assert v[j] == rest[j - |c|];
        } else {
          assert v[i] == rest[i - |c|] && v[j] == rest[j - |c|];
        }
      }
      forall i | 0 <= i < |v|
        ensures k <= |v[i]| && Increasing(v[i]) && InRange(v[i], 0, n)
      {
        if i >= |c| {
          assert v[i] == rest[i - |c|];
        }
      }
    }
  }

  lemma {:induction false} LayersComplete(n: nat, k: nat, c: seq<nat>)
    requires k <= |c| && Increasing(c) && InRange(c, 0, n)
    ensures c in Layers(n, k)
    decreases n + 1 - k
  {
    assert |c| <= n by {
      InRangeBound(c, n);
    }
    if |c| == k {
      ChooseComplete(0, n, k, c);
    } else {
      LayersComplete(n, k + 1, c);
    }
  }

  lemma {:induction false} InRangeBound(c: seq<nat>, n: nat)
    requires Increasing(c) && InRange(c, 0, n)
    ensures |c| <= n
    decreases |c|
  {
    if |c| > 0 {
      var init := c[..|c| - 1];
      assert InRange(init, 0, c[|c| - 1]) by {
        forall i | 0 <= i < |init| ensures init[i] < c[|c| - 1] {
          assert c[i] < c[|c| - 1];
        }
      }
      InRangeBound(init, c[|c| - 1]);
    }
  }

  /** The Venn order lists every non-empty subset of the `n` runs exactly
      once, singletons first, then pairs, then triples and so on, each size
      in lexicographic order of run position. */
  lemma VennOrderSpec(n: nat)
    ensures SizeThenLex(VennOrder(n))
    ensures forall i :: 0 <= i < |VennOrder(n)| ==>
      |VennOrder(n)[i]| >= 1 && Increasing(VennOrder(n)[i]) && InRange(VennOrder(n)[i], 0, n)
    ensures forall c :: |c| >= 1 && Increasing(c) && InRange(c, 0, n) ==> c in VennOrder(n)
  {
    LayersOrdered(n, 1);
    forall c | |c| >= 1 && Increasing(c) && InRange(c, 0, n)
      ensures c in VennOrder(n)
    {
      LayersComplete(n, 1, c);
    }
  }

  /** Every entry of the Venn order names a non-empty set of runs. */
  lemma VennOrderSubsets(n: nat)
    ensures |VennOrder(n)| == Pow2(n) - 1
    ensures forall i :: 0 <= i < |VennOrder(n)| ==> Subset(VennOrder(n)[i], n)
  {
    VennOrderSpec(n);
    VennOrderCount(n);
  }

  /** The singletons come first, in run order. */
  lemma {:induction false} ChooseSingles(lo: nat, n: nat)
    requires lo <= n
    ensures |Choose(lo, n, 1)| == n - lo
    ensures forall i :: 0 <= i < n - lo ==> Choose(lo, n, 1)[i] == [lo + i]
    decreases n - lo
  {
    if lo < n {
      ChooseSingles(lo + 1, n);
      assert Choose(lo + 1, n, 0) == [[]];
      assert [lo] + [] == [lo];
      assert Prepend(lo, [[]]) == [[lo]];
    }
  }

  /** Position `c` of the Venn order for `n` runs is run `c` alone. */
  lemma VennOrderSingletons(n: nat, c: nat)
    requires c < n
    ensures c < |VennOrder(n)| && VennOrder(n)[c] == [c]
  {
    ChooseSingles(0, n);
    assert VennOrder(n) == Choose(0, n, 1) + Layers(n, 2);
  }

  // ---------------------------------------------------------------------
  // The tables written out by hand in the comparator
  // ---------------------------------------------------------------------

  /** The region lists of compare_classifiers.py for 2, 3, 4 and 5 runs,
      with `n13` written as `[0, 2]` and `area2` as `[1]`. */
  function SourceTable(n: nat): (r: seq<seq<nat>>)
    requires 2 <= n <= 5
    ensures r == VennOrder(n)
  {
    if n == 2 then Table2IsVennOrder(n); Table2()
    else if n == 3 then Table3IsVennOrder(n); Table3()
    else if n == 4 then Table4IsVennOrder(n); Table4()
    else Table5IsVennOrder(n); Table5()
  }

  function Table2(): seq<seq<nat>> {
    [[0], [1], [0, 1]]
  }

  function Table3(): seq<seq<nat>> {
    [[0], [1], [2], [0, 1], [0, 2], [1, 2], [0, 1, 2]]
  }

  function Table4(): seq<seq<nat>> {
    [[0], [1], [2], [3],
     [0, 1], [0, 2], [0, 3], [1, 2], [1, 3], [2, 3],
     [0, 1, 2], [0, 1, 3], [0, 2, 3], [1, 2, 3],
     [0, 1, 2, 3]]
  }

  function Table5(): seq<seq<nat>> {
    [[0], [1], [2], [3], [4],
     [0, 1], [0, 2], [0, 3], [0, 4], [1, 2], [1, 3], [1, 4], [2, 3], [2, 4], [3, 4],
     [0, 1, 2], [0, 1, 3], [0, 1, 4], [0, 2, 3], [0, 2, 4], [0, 3, 4],
     [1, 2, 3], [1, 2, 4], [1, 3, 4], [2, 3, 4],
     [0, 1, 2, 3], [0, 1, 2, 4], [0, 1, 3, 4], [0, 2, 3, 4], [1, 2, 3, 4],
     [0, 1, 2, 3, 4]]
  }

  lemma {:induction false} LexLessIrreflexive(a: seq<nat>)
    ensures !LexLess(a, a)
    decreases |a|
  {
    if |a| > 0 {
      LexLessIrreflexive(a[1..]);
    }
  }

  lemma {:induction false} LexLessTransitive(a: seq<nat>, b: seq<nat>, c: seq<nat>)
    requires LexLess(a, b) && LexLess(b, c)
    ensures LexLess(a, c)
    decreases |a|
  {
    if a[0] == b[0] && b[0] == c[0] {
      LexLessTransitive(a[1..], b[1..], c[1..]);
    }
  }

  lemma BeforeTransitive(a: seq<nat>, b: seq<nat>, c: seq<nat>)
    requires Before(a, b) && Before(b, c)
    ensures Before(a, c)
  {
    if |a| == |b| == |c| {
      LexLessTransitive(a, b, c);
    }
  }

  /** Checking neighbours is enough to know a list is in Venn order. */
  lemma {:induction false} NeighboursSorted(v: seq<seq<nat>>)
    requires forall i :: 0 <= i < |v| - 1 ==> Before(v[i], v[i + 1])
    ensures SizeThenLex(v)
    decreases |v|
  {
    if |v| > 1 {
      var t := v[1..];
      assert forall i :: 0 <= i < |t| - 1 ==> Before(t[i], t[i + 1]) by {
        forall i | 0 <= i < |t| - 1 ensures Before(t[i], t[i + 1]) {
          assert t[i] == v[i + 1] && t[i + 1] == v[i + 2];
        }
      }
      NeighboursSorted(t);
      forall i, j | 0 <= i < j < |v| ensures Before(v[i], v[j]) {
        if i > 0 {
          assert v[i] == t[i - 1] && v[j] == t[j - 1];
        } else if j > 1 {
          assert v[1] == t[0] && v[j] == t[j - 1];
          BeforeTransitive(v[0], v[1], v[j]);
        }
      }
    }
  }

  /** Two lists in Venn order that hold the same subsets are the same list. */
  lemma {:induction false} SortedUnique(v: seq<seq<nat>>, w: seq<seq<nat>>)
    requires SizeThenLex(v) && SizeThenLex(w)
    requires forall x :: x in v <==> x in w
    ensures v == w
    decreases |v|
  {
    assert |w| > 0 ==> w[0] in v;
    if |v| > 0 {
      assert v[0] in v;
      assert |w| > 0;
      assert w[0] in w;
      var j :| 0 <= j < |w| && w[j] == v[0];
      var i :| 0 <= i < |v| && v[i] == w[0];
      LexLessIrreflexive(v[0]);
      if j > 0 {
        if i > 0 {
          BeforeTransitive(v[0], v[i], v[0]);
        }
        assert false;
      }
      var v', w' := v[1..], w[1..];
      forall x
        ensures x in v' <==> x in w'
      {
        if x in v' {
          var k :| 0 <= k < |v'| && v'[k] == x;
          assert v[k + 1] == x;
          LexLessIrreflexive(x);
          assert x in w;
          assert x != w[0];
          var m :| 0 <= m < |w| && w[m] == x;
          assert m > 0;
          assert w'[m - 1] == x;
        }
        if x in w' {
          var k :| 0 <= k < |w'| && w'[k] == x;
          assert w[k + 1] == x;
          LexLessIrreflexive(x);
          assert x in v;
          assert x != v[0];
          var m :| 0 <= m < |v| && v[m] == x;
          assert m > 0;
          assert v'[m - 1] == x;
        }
      }
      assert SizeThenLex(v') by {
        forall a, b | 0 <= a < b < |v'| ensures Before(v'[a], v'[b]) {
          assert v'[a] == v[a + 1] && v'[b] == v[b + 1];
        }
      }
      assert SizeThenLex(w') by {
        forall a, b | 0 <= a < b < |w'| ensures Before(w'[a], w'[b]) {
          assert w'[a] == w[a + 1] && w'[b] == w[b + 1];
        }
      }
      SortedUnique(v', w');
      assert v == [v[0]] + v' && w == [w[0]] + w';
    }
  }

  /** A sorted list has no repeats, so it has as many elements as entries. */
  lemma SortedCard(v: seq<seq<nat>>)
    requires SizeThenLex(v)
    ensures |Elements(v)| == |v|
  {
    forall i, j | 0 <= i < j < |v| ensures v[i] != v[j] {
      if v[i] == v[j] {
        LexLessIrreflexive(v[i]);
      }
    }
    DistinctCard(v);
  }

  predicate Subset(c: seq<nat>, n: nat) {
    |c| >= 1 && Increasing(c) && InRange(c, 0, n)
  }

  /** Lexicographic order read from position `k` on, by index; on the
      literal tables this is cheaper to check than `LexLess`. */
  predicate LexAt(a: seq<nat>, b: seq<nat>, k: nat)
    decreases |a| - k
  {
    k < |a| && k < |b| && (a[k] < b[k] || (a[k] == b[k] && LexAt(a, b, k + 1)))
  }

  lemma {:induction false} LexAtIsLexLess(a: seq<nat>, b: seq<nat>, k: nat)
    requires k <= |a| && k <= |b|
    ensures LexAt(a, b, k) <==> LexLess(a[k..], b[k..])
    decreases |a| - k
  {
    if k < |a| && k < |b| {
      LexAtIsLexLess(a, b, k + 1);
      assert a[k..][1..] == a[k + 1..] && b[k..][1..] == b[k + 1..];
    }
  }

  predicate Ascends(a: seq<nat>, b: seq<nat>) {
    |a| < |b| || (|a| == |b| && LexAt(a, b, 0))
  }

  lemma AscendsBefore(a: seq<nat>, b: seq<nat>)
    requires Ascends(a, b)
    ensures Before(a, b)
  {
    LexAtIsLexLess(a, b, 0);
    assert a[0..] == a && b[0..] == b;
  }

  /** Strictly increasing from position `k` on, by neighbours. */
  predicate IncreasingAt(c: seq<nat>, k: nat)
    decreases |c| - k
  {
    k + 1 >= |c| || (c[k] < c[k + 1] && IncreasingAt(c, k + 1))
  }

  lemma {:induction false} IncreasingAtSpec(c: seq<nat>, k: nat)
    requires IncreasingAt(c, k)
    ensures forall i, j :: k <= i < j < |c| ==> c[i] < c[j]
    decreases |c| - k
  {
    if k + 1 < |c| {
      IncreasingAtSpec(c, k + 1);
    }
  }

  /** A non-empty, increasing list whose last entry is below `n`. */
  predicate SmallSubset(c: seq<nat>, n: nat) {
    |c| >= 1 && IncreasingAt(c, 0) && c[|c| - 1] < n
  }

  lemma SmallSubsetIsSubset(c: seq<nat>, n: nat)
    requires SmallSubset(c, n)
    ensures Subset(c, n)
  {
    IncreasingAtSpec(c, 0);
    forall i | 0 <= i < |c| ensures c[i] < n {
      if i < |c| - 1 {
        assert c[i] < c[|c| - 1];
      }
    }
  }

  lemma Ascending2() ensures forall i :: 0 <= i < 2 ==> Ascends(Table2()[i], Table2()[i + 1]) {}
  lemma Ascending3() ensures forall i :: 0 <= i < 6 ==> Ascends(Table3()[i], Table3()[i + 1]) {}
  lemma Ascending4() ensures forall i :: 0 <= i < 14 ==> Ascends(Table4()[i], Table4()[i + 1]) {}
  lemma Ascending5a() ensures forall i :: 0 <= i < 15 ==> Ascends(Table5()[i], Table5()[i + 1]) {}
  lemma Ascending5b() ensures forall i :: 15 <= i < 30 ==> Ascends(Table5()[i], Table5()[i + 1]) {}

  lemma Small2() ensures forall i :: 0 <= i < 3 ==> SmallSubset(Table2()[i], 2) {}
  lemma Small3() ensures forall i :: 0 <= i < 7 ==> SmallSubset(Table3()[i], 3) {}
  lemma Small4() ensures forall i :: 0 <= i < 15 ==> SmallSubset(Table4()[i], 4) {}
  lemma Small5a() ensures forall i :: 0 <= i < 15 ==> SmallSubset(Table5()[i], 5) {}
  lemma Small5b() ensures forall i :: 15 <= i < 31 ==> SmallSubset(Table5()[i], 5) {}

  /** A table of `2^n - 1` entries passing both checks is the Venn order. */
  lemma CheckedTableIsVennOrder(t: seq<seq<nat>>, n: nat)
    requires |t| == Pow2(n) - 1
    requires forall i :: 0 <= i < |t| - 1 ==> Ascends(t[i], t[i + 1])
    requires forall i :: 0 <= i < |t| ==> SmallSubset(t[i], n)
    ensures t == VennOrder(n)
    ensures forall i :: 0 <= i < |t| ==> Subset(t[i], n)
  {
    AllAscendBefore(t);
    AllSmallSubsets(t, n);
    OrderedListIsVennOrder(t, n);
  }

  lemma AllAscendBefore(t: seq<seq<nat>>)
    requires forall i :: 0 <= i < |t| - 1 ==> Ascends(t[i], t[i + 1])
    ensures forall i :: 0 <= i < |t| - 1 ==> Before(t[i], t[i + 1])
  {
    forall i | 0 <= i < |t| - 1 ensures Before(t[i], t[i + 1]) {
      AscendsBefore(t[i], t[i + 1]);
    }
  }

  lemma AllSmallSubsets(t: seq<seq<nat>>, n: nat)
    requires forall i :: 0 <= i < |t| ==> SmallSubset(t[i], n)
    ensures forall i :: 0 <= i < |t| ==> Subset(t[i], n)
  {
    forall i | 0 <= i < |t| ensures Subset(t[i], n) {
      SmallSubsetIsSubset(t[i], n);
    }
  }

  /** A list of `2^n - 1` subsets of `n` runs, each strictly after its
      predecessor, can only be the Venn order itself. */
  lemma {:induction false} OrderedListIsVennOrder(t: seq<seq<nat>>, n: nat)
    requires |t| == Pow2(n) - 1
    requires forall i :: 0 <= i < |t| - 1 ==> Before(t[i], t[i + 1])
    requires forall i :: 0 <= i < |t| ==> Subset(t[i], n)
    ensures t == VennOrder(n)
  {
    var v := VennOrder(n);
    NeighboursSorted(t);
    VennOrderSpec(n);
    VennOrderCount(n);
    SortedCard(t);
    SortedCard(v);
    assert Elements(t) <= Elements(v) by {
      forall x | x in Elements(t) ensures x in Elements(v) {
        var i :| 0 <= i < |t| && t[i] == x;
      }
    }
    SubsetSameSize(Elements(t), Elements(v));
    assert forall x :: x in t <==> x in v by {
      forall x ensures x in t <==> x in v {
        assert x in t <==> x in Elements(t);
        assert x in v <==> x in Elements(v);
      }
    }
    SortedUnique(t, v);
  }

  /** Each hand-written table is the systematic Venn order. The run count
      is passed as a variable so that the verifier does not unfold
      `VennOrder` on a literal argument. */
  lemma Table2IsVennOrder(n: nat)
    requires n == 2
    ensures Table2() == VennOrder(n)
  {
    assert Pow2(2) == 4;
    Ascending2(); Small2();
    CheckedTableIsVennOrder(Table2(), n);
  }

  lemma Table3IsVennOrder(n: nat)
    requires n == 3
    ensures Table3() == VennOrder(n)
  {
    assert Pow2(3) == 8;
    Ascending3(); Small3();
    CheckedTableIsVennOrder(Table3(), n);
  }

  lemma Table4IsVennOrder(n: nat)
    requires n == 4
    ensures Table4() == VennOrder(n)
  {
    assert Pow2(4) == 16;
    Ascending4(); Small4();
    CheckedTableIsVennOrder(Table4(), n);
  }

  lemma Table5IsVennOrder(n: nat)
    requires n == 5
    ensures Table5() == VennOrder(n)
  {
    assert Pow2(5) == 32;
    Ascending5a(); Ascending5b(); Small5a(); Small5b();
    CheckedTableIsVennOrder(Table5(), n);
  }

}
