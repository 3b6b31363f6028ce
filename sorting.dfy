/** The two sorting disciplines of the pipeline: the in-place exchange sort that every
    `sort_by_*` / `SortBy*` helper and the damaged-report price loop spell out by hand, and the
    stable descending sort `list.sort(key=..., reverse=True)` that the script's damaged
    report calls. */
module Sorting {
  import opened Seqs

  /** `gt` is the "greater than" the exchange loop tests before swapping; the loop needs it to
      be a strict order (irreflexive and transitive), as Python's `>` on strings, integers and
      dates is. */
  ghost predicate StrictOrder<T(!new)>(gt: (T, T) -> bool)
  {
    && (forall x :: !gt(x, x))
    && (forall x, y, z :: gt(x, y) && gt(y, z) ==> gt(x, z))
  }

  /** No element is `gt` a later one: ascending order for that comparison. */
  predicate SortedBy<T>(s: seq<T>, gt: (T, T) -> bool)
  {
    forall p, q :: 0 <= p < q < |s| ==> !gt(s[p], s[q])
  }

  /** After outer step `i`: the first `i` slots are in order and none of them is `gt` any
      later element. */
  predicate PrefixPlaced<T>(s: seq<T>, i: nat, gt: (T, T) -> bool)
    requires i <= |s|
  {
    && (forall p, q :: 0 <= p < q < i ==> !gt(s[p], s[q]))
    && (forall p, q :: 0 <= p < i <= q < |s| ==> !gt(s[p], s[q]))
  }

  /** During inner step `j`: slot `i` is not `gt` any slot between `i` and `j`. */
  predicate MinSoFar<T>(s: seq<T>, i: nat, j: nat, gt: (T, T) -> bool)
    requires i < j <= |s|
  {
    forall q :: i < q < j ==> !gt(s[i], s[q])
  }

  /** `s` with slots `i` and `j` exchanged. */
  function Swap<T>(s: seq<T>, i: nat, j: nat): (t: seq<T>)
    requires i < |s| && j < |s|
    ensures |t| == |s| && multiset(t) == multiset(s)
  {
    s[i := s[j]][j := s[i]]
  }

  /** Swapping two slots at or after `i` keeps the placed prefix placed. */
  lemma SwapKeepsPrefix<T>(s: seq<T>, i: nat, j: nat, gt: (T, T) -> bool)
    requires i <= j < |s| && PrefixPlaced(s, i, gt)
    ensures PrefixPlaced(Swap(s, i, j), i, gt)
  {
    var t := Swap(s, i, j);
    forall p, q | 0 <= p < i <= q < |t| ensures !gt(t[p], t[q]) {
      assert t[p] == s[p];
      assert t[q] == s[q] || t[q] == s[i] || t[q] == s[j];
    }
  }

  /** A swap at `j` when `s[i]` is `gt` `s[j]` leaves at `i` something no greater than slots
      `i+1 .. j`. */
  lemma SwapKeepsMin<T(!new)>(s: seq<T>, i: nat, j: nat, gt: (T, T) -> bool)
    requires StrictOrder(gt) && i < j < |s| && MinSoFar(s, i, j, gt)
    ensures gt(s[i], s[j]) ==> MinSoFar(Swap(s, i, j), i, j + 1, gt)
    ensures !gt(s[i], s[j]) ==> MinSoFar(s, i, j + 1, gt)
  {
    if gt(s[i], s[j]) {
      var t := Swap(s, i, j);
      forall q | i < q < j + 1 ensures !gt(t[i], t[q]) {
        if q < j {
          assert t[q] == s[q];
        }
      }
    }
  }

  /** `for i in range(n): for j in range(i + 1, n): if a[i] > a[j]: swap a[i], a[j]`.
      The result is ordered and a permutation of the input. It is not stable: with keys
      B1, B2, A the loop ends with A, B2, B1. */
  method ExchangeSort<T(!new)>(a: array<T>, gt: (T, T) -> bool)
    requires StrictOrder(gt)
    modifies a
    ensures SortedBy(a[..], gt)
    ensures multiset(a[..]) == multiset(old(a[..]))
  {
    var i := 0;
    while i < a.Length
      invariant 0 <= i <= a.Length
      invariant multiset(a[..]) == multiset(old(a[..]))
      invariant PrefixPlaced(a[..], i, gt)
    {
      var j := i + 1;
      while j < a.Length
        invariant i < j <= a.Length
        invariant multiset(a[..]) == multiset(old(a[..]))
        invariant PrefixPlaced(a[..], i, gt)
        invariant MinSoFar(a[..], i, j, gt)
      {
        ghost var s := a[..];
        SwapKeepsMin(s, i, j, gt);
        if gt(a[i], a[j]) {
          SwapKeepsPrefix(s, i, j, gt);
          a[i], a[j] := a[j], a[i];
          assert a[..] == Swap(s, i, j);
        }
        j := j + 1;
      }
      assert PrefixPlaced(a[..], i + 1, gt) by {
        var s := a[..];
        forall p, q | 0 <= p < i + 1 <= q < |s| ensures !gt(s[p], s[q]) {
          if p == i {
            assert MinSoFar(s, i, a.Length, gt);
          }
        }
      }
      i := i + 1;
    }
  }

  /** Dropping elements from an ordered sequence leaves it ordered. */
  lemma {:induction false} FilterKeepsSorted<T(!new)>(s: seq<T>, gt: (T, T) -> bool, p: T -> bool)
    requires SortedBy(s, gt)
    ensures SortedBy(Filter(s, p), gt)
  {
    if s != [] {
      var init, last := s[..|s| - 1], s[|s| - 1];
      SplitLast(s);
      FilterSnoc(init, last, p);
      assert SortedBy(init, gt);
      FilterKeepsSorted(init, gt, p);
      var f := Filter(init, p);
      if p(last) {
        forall a, b | 0 <= a < b < |f + [last]| ensures !gt((f + [last])[a], (f + [last])[b]) {
          if b == |f| {
            assert f[a] in init;
          }
        }
      }
    }
  }

  /** A fresh array holding `s`, as `list(...)` copies a sequence into a list. */
  method ToArray<T>(s: seq<T>) returns (a: array<T>)
    ensures fresh(a) && a[..] == s
  {
    a := new T[|s|](k requires 0 <= k < |s| => s[k]);
  }

  /** The elements whose sort key is `v`; a stable sort keeps each such group in order. */
  function WithKey<T>(key: T -> int, v: int): T -> bool
  {
    x => key(x) == v
  }

  /** Keys never increase along the sequence. */
  predicate Descending<T>(s: seq<T>, key: T -> int)
  {
    forall p, q :: 0 <= p < q < |s| ==> key(s[p]) >= key(s[q])
  }

  /** Appending an element no greater than any present keeps the order descending. */
  lemma DescendingAppend<T>(u: seq<T>, last: T, key: T -> int)
    requires Descending(u, key)
    requires forall y :: y in u ==> key(y) >= key(last)
    ensures Descending(u + [last], key)
  {
    var w := u + [last];
    forall p, q | 0 <= p < q < |w| ensures key(w[p]) >= key(w[q]) {
      if q == |u| {
        assert w[p] == u[p];
        assert u[p] in u;
      } else {
        assert w[p] == u[p] && w[q] == u[q];
      }
    }
  }

  /** Places `x` after every element of the descending `r` whose key is at least its own. */
  function InsertDescending<T(!new)>(r: seq<T>, x: T, key: T -> int): (t: seq<T>)
    requires Descending(r, key)
    ensures Descending(t, key)
    ensures forall y :: y in t <==> y in r || y == x
    ensures multiset(t) == multiset(r) + multiset{x}
  {
    if r == [] || key(r[|r| - 1]) >= key(x) then
      DescendingAppend(r, x, key);
      r + [x]
    else
      var init, last := r[..|r| - 1], r[|r| - 1];
      SplitLast(r);
      assert Descending(init, key);
      var u := InsertDescending(init, x, key);
      assert forall y :: y in init ==> key(y) >= key(last);
      DescendingAppend(u, last, key);
      u + [last]
  }

  /** `list.sort(key=key, reverse=True)`: a stable sort by non-increasing key. */
  function SortDescending<T(!new)>(s: seq<T>, key: T -> int): (r: seq<T>)
    ensures Descending(r, key)
    ensures multiset(r) == multiset(s)
  {
    if s == [] then []
    else
      SplitLast(s);
      InsertDescending(SortDescending(s[..|s| - 1], key), s[|s| - 1], key)
  }

  /** Inserting `x` adds it behind the equal-keyed elements already in place. */
  lemma {:induction false} InsertDescendingStable<T(!new)>(r: seq<T>, x: T, key: T -> int, v: int)
    requires Descending(r, key)
    ensures Filter(InsertDescending(r, x, key), WithKey(key, v))
         == Filter(r, WithKey(key, v)) + (if key(x) == v then [x] else [])
  {
    var p := WithKey(key, v);
    assert p(x) == (key(x) == v);
    if r == [] || key(r[|r| - 1]) >= key(x) {
      FilterSnoc(r, x, p);
    } else {
      var init, last := r[..|r| - 1], r[|r| - 1];
      SplitLast(r);
      assert p(last) == (key(last) == v);
      var u := InsertDescending(init, x, key);
      assert InsertDescending(r, x, key) == u + [last];
      InsertDescendingStable(init, x, key, v);
      FilterSnoc(u, last, p);
      FilterSnoc(init, last, p);
      var fi := Filter(init, p);
      if p(x) {
        assert !p(last);
        assert Filter(u + [last], p) == fi + [x];
      } else {
        assert Filter(u, p) == fi;
      }
    }
  }

  /** The sort is stable: the elements of any one key keep their input order. */
  lemma {:induction false} SortDescendingStable<T(!new)>(s: seq<T>, key: T -> int, v: int)
    ensures Filter(SortDescending(s, key), WithKey(key, v)) == Filter(s, WithKey(key, v))
  {
    if s != [] {
      var init, last := s[..|s| - 1], s[|s| - 1];
      SplitLast(s);
      SortDescendingStable(init, key, v);
      InsertDescendingStable(SortDescending(init, key), last, key, v);
      FilterSnoc(init, last, WithKey(key, v));
    }
  }
}
