/** Generic sequence operations that stand for row-wise dataframe operations. */
module Seqs {

  /** `a` is an order-preserving subsequence of `b`. */
  predicate IsSubsequence<T(==)>(a: seq<T>, b: seq<T>)
    decreases |b|
  {
    if a == [] then true
    else if b == [] then false
    else (a[0] == b[0] && IsSubsequence(a[1..], b[1..])) || IsSubsequence(a, b[1..])
  }

  /** Boolean-mask selection `s[p(s)]`: the rows satisfying `p`, in their original order. */
  function Filter<T(==,!new)>(s: seq<T>, p: T -> bool): (r: seq<T>)
    ensures forall i :: 0 <= i < |r| ==> p(r[i])
    ensures IsSubsequence(r, s)
    decreases |s|
  {
    if s == [] then []
    else
      var rest := Filter(s[1..], p);
      if p(s[0]) then [s[0]] + rest else rest
  }

  /** Filtering drops no element satisfying `p`: each is kept as often as it occurs. */
  lemma {:induction false} FilterCounts<T(!new)>(s: seq<T>, p: T -> bool)
    ensures forall x :: multiset(Filter(s, p))[x] == if p(x) then multiset(s)[x] else 0
    decreases |s|
  {
    if s != [] {
      FilterCounts(s[1..], p);
      assert s == [s[0]] + s[1..];
    }
  }

  /** Column assignment / projection applied to every row. */
  function Map<T, U>(f: T -> U, s: seq<T>): (r: seq<U>)
    ensures |r| == |s|
    ensures forall i :: 0 <= i < |s| ==> r[i] == f(s[i])
    decreases |s|
  {
    if s == [] then [] else [f(s[0])] + Map(f, s[1..])
  }

  lemma {:induction false} MapConcat<T, U>(f: T -> U, a: seq<T>, b: seq<T>)
    ensures Map(f, a + b) == Map(f, a) + Map(f, b)
    decreases |a|
  {
    if a != [] {
      assert (a + b)[1..] == a[1..] + b;
      MapConcat(f, a[1..], b);
    }
  }

  lemma MapPair<T, U>(f: T -> U, a: T, b: T)
    ensures Map(f, [a, b]) == [f(a), f(b)]
  {
    assert [a, b][1..] == [b];
  }

  lemma MapQuad<T, U>(f: T -> U, a: T, b: T, c: T, d: T)
    ensures Map(f, [a, b, c, d]) == [f(a), f(b), f(c), f(d)]
  {
  }

  /** Mapping a sequence is mapping its two halves. */
  lemma MapSplit<T, U>(f: T -> U, s: seq<T>, h: nat)
    requires h <= |s|
    ensures Map(f, s) == Map(f, s[..h]) + Map(f, s[h..])
  {
    PrefixSuffix(s, h);
    MapConcat(f, s[..h], s[h..]);
  }

  /** Being a subsequence is transitive. */
  lemma {:induction false} SubsequenceTransitive<T>(a: seq<T>, b: seq<T>, c: seq<T>)
    requires IsSubsequence(a, b) && IsSubsequence(b, c)
    ensures IsSubsequence(a, c)
    decreases |c|
  {
    if a == [] {
    } else if b == [] {
    } else if c == [] {
    } else if b[0] == c[0] && IsSubsequence(b[1..], c[1..]) {
      if a[0] == b[0] && IsSubsequence(a[1..], b[1..]) {
        SubsequenceTransitive(a[1..], b[1..], c[1..]);
      } else {
        SubsequenceTransitive(a, b[1..], c[1..]);
      }
    } else {
      SubsequenceTransitive(a, b, c[1..]);
    }
  }

  /** Mapping a sequence with `x` in front puts `f(x)` in front. */
  lemma MapCons<T, U>(f: T -> U, x: T, s: seq<T>)
    ensures Map(f, [x] + s) == [f(x)] + Map(f, s)
  {
    assert ([x] + s)[1..] == s;
  }

  /** Inserting `y` into a sequence adds `y` to its multiset. */
  lemma InsertMultiset<U>(l: seq<U>, y: U, r: seq<U>)
    ensures multiset(l + ([y] + r)) == multiset(l + r) + multiset{y}
  {
  }

  /** Mapping a sequence with `x` inserted adds `f(x)` to the mapped multiset. */
  lemma MapInsertMultiset<T, U>(f: T -> U, left: seq<T>, x: T, right: seq<T>)
    ensures multiset(Map(f, left + [x] + right)) == multiset(Map(f, left + right)) + multiset{f(x)}
  {
    var ml, mr := Map(f, left), Map(f, right);
    assert left + [x] + right == left + ([x] + right);
    MapCons(f, x, right);
    MapConcat(f, left, [x] + right);
    MapConcat(f, left, right);
    InsertMultiset(ml, f(x), mr);
  }

  /** A sequence is its prefix up to `h` followed by the rest. */
  lemma PrefixSuffix<T>(s: seq<T>, h: nat)
    requires h <= |s|
    ensures s == s[..h] + s[h..]
  {
  }

  /** A sequence is its prefix, the element at `i` and its suffix. */
  lemma SplitAt<T>(b: seq<T>, i: nat)
    requires i < |b|
    ensures b == b[..i] + [b[i]] + b[i + 1..]
  {
  }

  /** Removing the same element from two permutations leaves permutations. */
  lemma RemoveMatching<T>(a: seq<T>, b: seq<T>, i: nat)
    requires a != [] && i < |b| && b[i] == a[0] && multiset(a) == multiset(b)
    ensures multiset(a[1..]) == multiset(b[..i] + b[i + 1..])
  {
    var x := a[0];
    assert a == [x] + a[1..];
    assert b == b[..i] + [x] + b[i + 1..];
    assert multiset(a[1..]) == multiset(a) - multiset{x};
    assert multiset(b[..i] + b[i + 1..]) == multiset(b) - multiset{x};
  }

  /** One induction step of `MapPermutation`: matching heads extend a mapped permutation. */
  lemma MapPermutationStep<T, U>(f: T -> U, a: seq<T>, b: seq<T>, i: nat)
    requires a != [] && i < |b| && b[i] == a[0]
    requires multiset(Map(f, a[1..])) == multiset(Map(f, b[..i] + b[i + 1..]))
    ensures multiset(Map(f, a)) == multiset(Map(f, b))
  {
    var x, rest, l, r := a[0], a[1..], b[..i], b[i + 1..];
    SplitAt(b, i);
    SplitAt(a, 0);
    assert a[..0] == [];
    MapCons(f, x, rest);
    var ma := Map(f, a);
    assert ma == [f(x)] + Map(f, rest);
    assert multiset(ma) == multiset(Map(f, rest)) + multiset{f(x)};
    MapInsertMultiset(f, l, x, r);
    var mb := Map(f, b);
    assert mb == Map(f, l + [x] + r);
  }

  /** Mapping two permutations of each other gives permutations of each other. */
  lemma {:induction false} MapPermutation<T, U>(f: T -> U, a: seq<T>, b: seq<T>)
    requires multiset(a) == multiset(b)
    ensures multiset(Map(f, a)) == multiset(Map(f, b))
    decreases |a|
  {
    if a == [] {
      assert |multiset(b)| == 0;
      assert b == [];
    } else {
      assert a[0] in b by { assert a[0] in multiset(a); }
      var i :| 0 <= i < |b| && b[i] == a[0];
      RemoveMatching(a, b, i);
      MapPermutation(f, a[1..], b[..i] + b[i + 1..]);
      MapPermutationStep(f, a, b, i);
    }
  }

  /** Filtering by `p` and then by `q` selects, in order, exactly the elements satisfying both. */
  lemma FilterThenFilter<T(!new)>(s: seq<T>, p: T -> bool, q: T -> bool)
    ensures IsSubsequence(Filter(Filter(s, p), q), s)
    ensures forall x :: multiset(Filter(Filter(s, p), q))[x] == if p(x) && q(x) then multiset(s)[x] else 0
  {
    SubsequenceTransitive(Filter(Filter(s, p), q), Filter(s, p), s);
    FilterCounts(s, p);
    FilterCounts(Filter(s, p), q);
  }

  /** Filtering a sequence extended by one element. */
  lemma {:induction false} FilterAppend<T(!new)>(s: seq<T>, x: T, p: T -> bool)
    ensures Filter(s + [x], p) == Filter(s, p) + (if p(x) then [x] else [])
    decreases |s|
  {
    var tail: seq<T> := if p(x) then [x] else [];
    if s == [] {
      assert [x][1..] == [];
      assert s + [x] == [x];
    } else {
      var t := s + [x];
      assert t[0] == s[0] && t[1..] == s[1..] + [x];
      FilterAppend(s[1..], x, p);
      var head: seq<T> := if p(s[0]) then [s[0]] else [];
      assert Filter(t, p) == head + Filter(t[1..], p);
      assert Filter(s, p) == head + Filter(s[1..], p);
      assert Filter(t, p) == head + (Filter(s[1..], p) + tail);
    }
  }
}
