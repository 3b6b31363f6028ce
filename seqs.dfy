/** Sequence helpers shared by the merger, the reports and the matcher. */
module Seqs {

  /** No element occurs twice. */
  predicate Distinct<T(==)>(s: seq<T>)
  {
    forall i, j :: 0 <= i < j < |s| ==> s[i] != s[j]
  }

  /** The elements of `s` that satisfy `p`, in their original order. */
  function Filter<T(!new)>(s: seq<T>, p: T -> bool): (r: seq<T>)
    ensures |r| <= |s|
    ensures forall x :: x in r <==> x in s && p(x)
  {
    if s == [] then [] else
      var rest := Filter(s[..|s| - 1], p);
      assert forall x :: x in s <==> x in s[..|s| - 1] || x == s[|s| - 1];
      if p(s[|s| - 1]) then rest + [s[|s| - 1]] else rest
  }

  /** The first occurrence of every element of `s`, in order of first appearance. */
  function Dedup<T(==,!new)>(s: seq<T>): (r: seq<T>)
    ensures Distinct(r)
    ensures forall x :: x in r <==> x in s
  {
    if s == [] then [] else
      var rest := Dedup(s[..|s| - 1]);
      assert forall x :: x in s <==> x in s[..|s| - 1] || x == s[|s| - 1];
      if s[|s| - 1] in rest then rest else rest + [s[|s| - 1]]
  }

  /** Filtering keeps, of every value, exactly as many copies as there are when it passes `p`. */
  lemma {:induction false} FilterCount<T(!new)>(s: seq<T>, p: T -> bool, x: T)
    ensures multiset(Filter(s, p))[x] == if p(x) then multiset(s)[x] else 0
  {
    if s != [] {
      var init := s[..|s| - 1];
      FilterCount(init, p, x);
      SplitLast(s);
    }
  }

  /** Filtering two permutations of each other gives two permutations of each other. */
  lemma FilterPermutation<T(!new)>(a: seq<T>, b: seq<T>, p: T -> bool)
    requires multiset(a) == multiset(b)
    ensures multiset(Filter(a, p)) == multiset(Filter(b, p))
  {
    forall x ensures multiset(Filter(a, p))[x] == multiset(Filter(b, p))[x] {
      FilterCount(a, p, x);
      FilterCount(b, p, x);
    }
  }

  /** Filtering distributes over concatenation. */
  lemma {:induction false} FilterConcat<T(!new)>(a: seq<T>, b: seq<T>, p: T -> bool)
    ensures Filter(a + b, p) == Filter(a, p) + Filter(b, p)
  {
    if b == [] {
      assert a + b == a;
    } else {
      var init, last := b[..|b| - 1], b[|b| - 1];
      SplitLast(b);
      ConcatSplitLast(a, b);
      FilterConcat(a, init, p);
      FilterSnoc(a + init, last, p);
      FilterSnoc(init, last, p);
    }
  }

  /** A non-empty sequence is its front followed by its last element. */
  lemma SplitLast<T>(b: seq<T>)
    requires b != []
    ensures b == b[..|b| - 1] + [b[|b| - 1]]
  {
  }

  /** The same split, seen after a prefix `a`. */
  lemma ConcatSplitLast<T>(a: seq<T>, b: seq<T>)
    requires b != []
    ensures a + b == (a + b[..|b| - 1]) + [b[|b| - 1]]
  {
    SplitLast(b);
  }

  /** Filtering a sequence extended by one element. */
  lemma FilterSnoc<T(!new)>(u: seq<T>, y: T, p: T -> bool)
    ensures Filter(u + [y], p) == Filter(u, p) + if p(y) then [y] else []
  {
    assert (u + [y])[..|u|] == u;
  }

  /** `Filter(s[..n], p)`, counted along the indices of `s`: what a loop over `s` has
      selected after `n` steps. */
  function FilterFirst<T(!new)>(s: seq<T>, n: nat, p: T -> bool): seq<T>
    requires n <= |s|
  {
    if n == 0 then [] else FilterFirst(s, n - 1, p) + if p(s[n - 1]) then [s[n - 1]] else []
  }

  /** The loop's selection after `n` steps is the filter of the first `n` elements. */
  lemma {:induction false} FilterFirstSpec<T(!new)>(s: seq<T>, n: nat, p: T -> bool)
    requires n <= |s|
    ensures FilterFirst(s, n, p) == Filter(s[..n], p)
  {
    if n > 0 {
      FilterFirstSpec(s, n - 1, p);
      FilterPrefixStep(s, n - 1, p);
    }
  }

  /** Filtering one more element of `s`. */
  lemma FilterPrefixStep<T(!new)>(s: seq<T>, i: nat, p: T -> bool)
    requires i < |s|
    ensures Filter(s[..i + 1], p) == Filter(s[..i], p) + if p(s[i]) then [s[i]] else []
  {
    assert s[..i + 1] == s[..i] + [s[i]];
    FilterSnoc(s[..i], s[i], p);
  }

  /** Deduplicating a sequence extended by one element. */
  lemma DedupSnoc<T(!new)>(u: seq<T>, y: T)
    ensures Dedup(u + [y]) == if y in Dedup(u) then Dedup(u) else Dedup(u) + [y]
  {
    assert (u + [y])[..|u|] == u;
  }

  /** Appending a new element keeps a sequence free of repeats. */
  lemma DistinctSnoc<T>(u: seq<T>, y: T)
    requires Distinct(u) && y !in u
    ensures Distinct(u + [y])
  {
    var w := u + [y];
    forall i, j | 0 <= i < j < |w| ensures w[i] != w[j] {
      if j == |u| {
        assert w[i] == u[i];
      }
    }
  }

  /** A repetition-free sequence whose every element is `m` is `[m]`, once it holds `m`. */
  lemma OnlyOne<T>(r: seq<T>, m: T)
    requires Distinct(r) && m in r && forall x :: x in r ==> x == m
    ensures r == [m]
  {
    assert r[0] in r;
    assert m !in r[1..];
    assert forall x :: x in r[1..] ==> x in r;
    assert r == [r[0]] + r[1..];
    HeadIn(r[1..]);
  }

  lemma HeadIn<T>(s: seq<T>)
    ensures |s| > 0 ==> s[0] in s
  {
  }

  /** The selection loop every report opens with: walk `s` in order and append each element
      that passes `p` to an initially empty list. */
  method Collect<T(!new)>(s: seq<T>, p: T -> bool) returns (r: seq<T>)
    ensures r == Filter(s, p)
  {
    r := [];
    var i := 0;
    while i < |s|
      invariant 0 <= i <= |s|
      invariant r == FilterFirst(s, i, p)
    {
      if p(s[i]) {
        r := r + [s[i]];
      }
      i := i + 1;
    }
    FilterFirstSpec(s, i, p);
    assert s[..i] == s;
  }

  /** A writing loop that walks `s` in order and, for each element that passes `keep`, writes
      its `line`; `kept` is what was written, in order. */
  method LinesWhere<T(!new)>(s: seq<T>, keep: T -> bool, line: T --> string)
    returns (lines: seq<string>, ghost kept: seq<T>)
    requires forall x :: x in s ==> line.requires(x)
    ensures kept == Filter(s, keep)
    ensures |lines| == |kept|
    ensures forall k :: 0 <= k < |kept| ==> line.requires(kept[k]) && lines[k] == line(kept[k])
  {
    lines, kept := [], [];
    var k := 0;
    while k < |s|
      invariant 0 <= k <= |s|
      invariant kept == FilterFirst(s, k, keep)
      invariant |lines| == |kept|
      invariant forall j :: 0 <= j < |kept| ==> kept[j] in s
      invariant forall j :: 0 <= j < |kept| ==> lines[j] == line(kept[j])
    {
      if keep(s[k]) {
        lines := lines + [line(s[k])];
        kept := kept + [s[k]];
      }
      k := k + 1;
    }
    FilterFirstSpec(s, k, keep);
    assert s[..k] == s;
  }
}
