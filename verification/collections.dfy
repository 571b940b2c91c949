/** Facts about sequences read as sets that several parts of the model
    share: the set of a list's entries, lists without repeats, and sizes of
    subsets. */
module Collections {

  /** `set(v)`. */
  function Elements<T>(v: seq<T>): set<T> {
    set x | x in v
  }

  /** No entry repeats. */
  predicate Distinct<T(==)>(s: seq<T>) {
    forall i, j :: 0 <= i < j < |s| ==> s[i] != s[j]
  }

  /** `s.index(x)`: the position of the first occurrence. */
  function Position<T(==)>(s: seq<T>, x: T): (r: nat)
    requires x in s
    ensures r < |s| && s[r] == x
    ensures forall j :: 0 <= j < r ==> s[j] != x
  {
    if s[0] == x then 0 else 1 + Position(s[1..], x)
  }

  /** An element of a prefix is first found inside the prefix. */
  lemma {:induction false} PositionInPrefix<T>(s: seq<T>, n: nat, x: T)
    requires n <= |s| && x in s[..n]
    ensures Position(s, x) == Position(s[..n], x)
    decreases n
  {
    if s[0] != x {
      assert s[..n][0] == s[0];
      assert s[1..][..n - 1] == s[..n][1..];
      PositionInPrefix(s[1..], n - 1, x);
    }
  }

  /** `list.remove(x)`: drops the first occurrence and nothing else. */
  function RemoveFirst<T(==)>(s: seq<T>, x: T): (r: seq<T>)
    requires x in s
    ensures |r| == |s| - 1
    ensures r == s[..Position(s, x)] + s[Position(s, x) + 1..]
    ensures forall y :: y in r ==> y in s
    ensures forall k :: 0 <= k < |r| ==> r[k] in s
    ensures forall y :: y in s && y != x ==> y in r
  {
    if s[0] == x then s[1..] else [s[0]] + RemoveFirst(s[1..], x)
  }

  /** Entry `k` after the removal is entry `k` before it when it came
      before the removed one, and entry `k + 1` otherwise. */
  lemma RemoveFirstAt<T>(s: seq<T>, x: T, k: nat)
    requires x in s && k < |s| - 1
    ensures RemoveFirst(s, x)[k] == if k < Position(s, x) then s[k] else s[k + 1]
  {
    var p := Position(s, x);
    var a, b := s[..p], s[p + 1..];
    assert RemoveFirst(s, x) == a + b;
    if k < p {
      assert (a + b)[k] == a[k] == s[k];
    } else {
      assert (a + b)[k] == b[k - p] == s[k + 1];
    }
  }

  /** A list has at least as many entries as distinct elements... */
  lemma {:induction false} ElementsSize<T>(l: seq<T>)
    ensures |Elements(l)| <= |l|
    decreases |l|
  {
    if |l| > 0 {
      var init := l[..|l| - 1];
      ElementsSize(init);
      assert Elements(l) == Elements(init) + {l[|l| - 1]} by {
        assert l == init + [l[|l| - 1]];
      }
    }
  }

  /** ...and exactly as many when none repeats. */
  lemma {:induction false} DistinctCard<T>(l: seq<T>)
    requires Distinct(l)
    ensures |Elements(l)| == |l|
    decreases |l|
  {
    if |l| > 0 {
      var init := l[..|l| - 1];
      var last := l[|l| - 1];
      DistinctCard(init);
      assert Elements(l) == Elements(init) + {last} by {
        assert l == init + [last];
      }
      assert last !in Elements(init) by {
        forall k | 0 <= k < |init| ensures init[k] != last {
          assert init[k] == l[k];
        }
      }
    }
  }

  lemma {:induction false} SubsetSize<T>(a: set<T>, b: set<T>)
    requires a <= b
    ensures |a| <= |b|
    decreases |a|
  {
    if a != {} {
      var x :| x in a;
      SubsetSize(a - {x}, b - {x});
    }
  }

  lemma SubsetSameSize<T>(a: set<T>, b: set<T>)
    requires a <= b && |a| == |b|
    ensures a == b
  {
    if a != b {
      var x :| x in b && x !in a;
      assert a <= b - {x};
      assert |b - {x}| == |b| - 1;
      SubsetSize(a, b - {x});
      assert false;
    }
  }

  /** `list(range(m))`. */
  function Range(m: nat): (r: seq<nat>)
    ensures |r| == m && forall k :: 0 <= k < m ==> r[k] == k
  {
    seq(m, k => k)
  }

  /** A list of `m` distinct positions below `m` names every position: the
      pigeonhole step behind "a ranking lists every feature". */
  lemma EveryPositionListed(order: seq<nat>, i: nat) returns (p: nat)
    requires Distinct(order) && forall k :: 0 <= k < |order| ==> order[k] < |order|
    requires i < |order|
    ensures p < |order| && order[p] == i
  {
    var all := Range(|order|);
    assert Elements(order) <= Elements(all) by {
      forall x | x in Elements(order) ensures x in Elements(all) {
        var k :| 0 <= k < |order| && order[k] == x;
        assert all[x] == x;
      }
    }
    DistinctCard(order);
    DistinctCard(all);
    SubsetSameSize(Elements(order), Elements(all));
    assert i in Elements(all) by { assert all[i] == i; }
    assert i in Elements(order);
    p :| 0 <= p < |order| && order[p] == i;
  }
}
