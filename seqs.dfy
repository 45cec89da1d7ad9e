/**
 * The JavaScript array operations the note widget relies on:
 * `Array.prototype.filter` and `[...new Set(xs)]` (deduplication in
 * insertion order), with `IndexOf`, the first position of an element, as
 * the yardstick for order.
 */
module Seqs {

  /** No element occurs twice. */
  predicate NoDup<T(==)>(xs: seq<T>) {
    forall i, j :: 0 <= i < j < |xs| ==> xs[i] != xs[j]
  }

  /** `xs` is obtained from `ys` by deleting some elements (order kept). */
  predicate IsSubseq<T(==)>(xs: seq<T>, ys: seq<T>)
    decreases |ys|
  {
    xs == [] ||
    (ys != [] && ((xs[0] == ys[0] && IsSubseq(xs[1..], ys[1..])) || IsSubseq(xs, ys[1..])))
  }

  /** `xs.filter(p)`. */
  function Filter<T>(xs: seq<T>, p: T -> bool): seq<T>
    decreases |xs|
  {
    if xs == [] then []
    else if p(xs[0]) then [xs[0]] + Filter(xs[1..], p)
    else Filter(xs[1..], p)
  }

  /**
   * Filter keeps exactly the elements that satisfy `p`, every copy of each,
   * in their order. The subsequence and the counts together determine the
   * result.
   */
  lemma {:induction false} FilterSpec<T>(xs: seq<T>, p: T -> bool)
    ensures forall y :: y in Filter(xs, p) <==> y in xs && p(y)
    ensures forall y :: multiset(Filter(xs, p))[y] == if p(y) then multiset(xs)[y] else 0
    ensures IsSubseq(Filter(xs, p), xs)
    ensures |Filter(xs, p)| <= |xs|
    ensures (forall y :: y in xs ==> p(y)) ==> Filter(xs, p) == xs
  {
    FilterCounts(xs, p);
    if xs != [] {
      FilterSpec(xs[1..], p);
    }
  }

  /** Filter keeps every copy of an element that satisfies `p` and no copy of any other. */
  lemma {:induction false} FilterCounts<T>(xs: seq<T>, p: T -> bool)
    ensures forall y :: multiset(Filter(xs, p))[y] == if p(y) then multiset(xs)[y] else 0
    decreases |xs|
  {
    if xs != [] {
      FilterCounts(xs[1..], p);
      assert xs == [xs[0]] + xs[1..];
      assert multiset(xs) == multiset([xs[0]]) + multiset(xs[1..]);
    }
  }

  /** Everything filter keeps comes from `xs`. */
  lemma {:induction false} FilterKeeps<T>(xs: seq<T>, p: T -> bool)
    ensures forall y :: y in Filter(xs, p) ==> y in xs
    decreases |xs|
  {
    if xs != [] {
      FilterKeeps(xs[1..], p);
    }
  }

  /** Filtering a sequence with one more element at the end. */
  lemma {:induction false} FilterAppendOne<T>(xs: seq<T>, y: T, p: T -> bool)
    ensures Filter(xs + [y], p) == if p(y) then Filter(xs, p) + [y] else Filter(xs, p)
    decreases |xs|
  {
    if xs == [] {
      assert xs + [y] == [y] && [y][1..] == [];
    } else {
      assert (xs + [y])[1..] == xs[1..] + [y];
      FilterAppendOne(xs[1..], y, p);
    }
  }

  /** A subsequence of a duplicate-free sequence is duplicate-free. */
  lemma {:induction false} FilterNoDup<T>(xs: seq<T>, p: T -> bool)
    requires NoDup(xs)
    ensures NoDup(Filter(xs, p))
  {
    if xs != [] {
      assert NoDup(xs[1..]) by {
        forall i, j | 0 <= i < j < |xs[1..]| ensures xs[1..][i] != xs[1..][j] {
          assert xs[1..][i] == xs[i + 1] && xs[1..][j] == xs[j + 1];
        }
      }
      FilterNoDup(xs[1..], p);
      FilterSpec(xs[1..], p);
      assert xs[0] !in xs[1..] by {
        forall j | 0 <= j < |xs[1..]| ensures xs[1..][j] != xs[0] {
          assert xs[1..][j] == xs[j + 1];
        }
      }
    }
  }

  /** `xs.filter(y => y !== x)`. */
  function Without<T(==)>(xs: seq<T>, x: T): seq<T> {
    Filter(xs, (y: T) => y != x)
  }

  /** Every copy of `x` goes, every copy of anything else stays. */
  lemma {:induction false} WithoutCounts<T>(xs: seq<T>, x: T)
    ensures multiset(Without(xs, x)) == multiset(xs)[x := 0]
    decreases |xs|
  {
    if xs != [] {
      WithoutCounts(xs[1..], x);
      assert xs == [xs[0]] + xs[1..];
      assert multiset(xs) == multiset([xs[0]]) + multiset(xs[1..]);
      if xs[0] != x {
        assert Without(xs, x) == [xs[0]] + Without(xs[1..], x);
      } else {
        assert Without(xs, x) == Without(xs[1..], x);
      }
    }
  }

  /**
   * Removing `x` removes every copy of it and keeps every copy of
   * everything else, in order.
   */
  lemma WithoutSpec<T>(xs: seq<T>, x: T)
    ensures x !in Without(xs, x)
    ensures multiset(Without(xs, x)) == multiset(xs)[x := 0]
    ensures forall y :: y != x ==> (y in Without(xs, x) <==> y in xs)
    ensures IsSubseq(Without(xs, x), xs)
    ensures x !in xs ==> Without(xs, x) == xs
    ensures NoDup(xs) ==> NoDup(Without(xs, x))
  {
    var p := (y: T) => y != x;
    FilterSpec(xs, p);
    WithoutCounts(xs, x);
    if NoDup(xs) {
      FilterNoDup(xs, p);
    }
  }

  /** Appending an absent element and then removing it is no change. */
  lemma WithoutAppended<T>(xs: seq<T>, x: T)
    requires x !in xs
    ensures Without(xs + [x], x) == xs
  {
    FilterAppendOne(xs, x, (y: T) => y != x);
    WithoutSpec(xs, x);
  }

  /** The first position of an element that is present. */
  function IndexOf<T(==)>(xs: seq<T>, x: T): (i: nat)
    requires x in xs
    ensures i < |xs| && xs[i] == x && x !in xs[..i]
  {
    if xs[0] == x then 0
    else
      var i := 1 + IndexOf(xs[1..], x);
      assert xs[..i] == [xs[0]] + xs[1..][..i - 1];
      i
  }

  /** The first position is the only position with no earlier copy. */
  lemma IndexOfUnique<T>(xs: seq<T>, x: T, i: nat)
    requires i < |xs| && xs[i] == x && x !in xs[..i]
    ensures IndexOf(xs, x) == i
  {
  }

  /** `[...new Set(xs)]`: each element inserted when first seen. */
  function Dedup<T(==)>(xs: seq<T>): seq<T>
    decreases |xs|
  {
    if xs == [] then []
    else
      var d := Dedup(xs[..|xs| - 1]);
      if xs[|xs| - 1] in d then d else d + [xs[|xs| - 1]]
  }

  /**
   * Deduplication keeps one copy of every element and orders the copies by
   * the position where each element first occurs. These three facts
   * determine the result uniquely.
   */
  lemma {:induction false} DedupSpec<T>(xs: seq<T>)
    ensures NoDup(Dedup(xs))
    ensures forall x :: x in Dedup(xs) <==> x in xs
    ensures forall i, j :: 0 <= i < j < |Dedup(xs)| ==>
              IndexOf(xs, Dedup(xs)[i]) < IndexOf(xs, Dedup(xs)[j])
  {
    if xs != [] {
      var n := |xs|;
      var ys, x := xs[..n - 1], xs[n - 1];
      assert xs == ys + [x];
      DedupSpec(ys);
      var d := Dedup(ys);
      forall y | y in ys ensures IndexOf(xs, y) == IndexOf(ys, y) {
        var k := IndexOf(ys, y);
        assert xs[..k] == ys[..k];
        IndexOfUnique(xs, y, k);
      }
      if x !in d {
        assert x !in ys;
        assert xs[..n - 1] == ys;
        IndexOfUnique(xs, x, n - 1);
        var r := d + [x];
        forall i, j | 0 <= i < j < |r| ensures IndexOf(xs, r[i]) < IndexOf(xs, r[j]) {
          if j == |d| {
            assert r[i] == d[i] && d[i] in d;
            assert IndexOf(xs, r[i]) == IndexOf(ys, d[i]) < n - 1;
          } else {
            assert r[i] == d[i] && r[j] == d[j];
          }
        }
      }
    }
  }
}
