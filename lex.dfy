/**
 * Lexicographic order on sequences of numbers, as Rust's `Ord` for slices,
 * `Vec<u8>` and `String` (a proper prefix is smaller).
 */
module Lex {
  import opened Bits

  /** `a < b` in Rust's lexicographic order. */
  predicate Less(a: seq<int>, b: seq<int>)
    decreases |a|
  {
    if a == [] then b != []
    else b != [] && (a[0] < b[0] || (a[0] == b[0] && Less(a[1..], b[1..])))
  }

  /** `a <= b` in the same order. */
  predicate LessEq(a: seq<int>, b: seq<int>) {
    a == b || Less(a, b)
  }

  /** `a` and `b` differ at a position both have, and `a` is smaller there: no prefix case. */
  predicate DiffersBelow(a: seq<int>, b: seq<int>)
    decreases |a|
  {
    a != [] && b != [] && (a[0] < b[0] || (a[0] == b[0] && DiffersBelow(a[1..], b[1..])))
  }

  lemma {:induction false} DiffersBelowIsLess(a: seq<int>, b: seq<int>)
    requires DiffersBelow(a, b)
    ensures Less(a, b)
    decreases |a|
  {
    if a[0] == b[0] && !(a[0] < b[0]) {
      DiffersBelowIsLess(a[1..], b[1..]);
    }
  }

  /** Whatever follows a difference does not matter. */
  lemma {:induction false} DiffersBelowAppend(a: seq<int>, b: seq<int>, x: seq<int>, y: seq<int>)
    requires DiffersBelow(a, b)
    ensures DiffersBelow(a + x, b + y)
    decreases |a|
  {
    assert (a + x)[0] == a[0] && (b + y)[0] == b[0];
    if !(a[0] < b[0]) {
      DiffersBelowAppend(a[1..], b[1..], x, y);
      assert (a + x)[1..] == a[1..] + x;
      assert (b + y)[1..] == b[1..] + y;
    }
  }

  /** Between sequences of equal length, `<` is always decided at a position both have. */
  lemma {:induction false} LessSameLength(a: seq<int>, b: seq<int>)
    requires Less(a, b) && |a| == |b|
    ensures DiffersBelow(a, b)
    decreases |a|
  {
    if !(a[0] < b[0]) {
      LessSameLength(a[1..], b[1..]);
    }
  }

  /** A common prefix does not change the order. */
  lemma {:induction false} LessPrepend(p: seq<int>, a: seq<int>, b: seq<int>)
    requires Less(a, b)
    ensures Less(p + a, p + b)
    decreases |p|
  {
    if p == [] {
      assert p + a == a && p + b == b;
    } else {
      LessPrepend(p[1..], a, b);
      assert (p + a)[1..] == p[1..] + a;
      assert (p + b)[1..] == p[1..] + b;
    }
  }

  lemma {:induction false} LessIrreflexive(a: seq<int>)
    ensures !Less(a, a)
    decreases |a|
  {
    if a != [] {
      LessIrreflexive(a[1..]);
    }
  }

  lemma {:induction false} LessTransitive(a: seq<int>, b: seq<int>, c: seq<int>)
    requires Less(a, b) && Less(b, c)
    ensures Less(a, c)
    decreases |a|
  {
    if a != [] && a[0] == b[0] && b[0] == c[0] {
      LessTransitive(a[1..], b[1..], c[1..]);
    }
  }

  lemma {:induction false} LessTotal(a: seq<int>, b: seq<int>)
    ensures Less(a, b) || a == b || Less(b, a)
    decreases |a|
  {
    if a != [] && b != [] && a[0] == b[0] {
      LessTotal(a[1..], b[1..]);
      if a[1..] == b[1..] {
        assert a == [a[0]] + a[1..] && b == [b[0]] + b[1..];
      }
    }
  }

  /** A first difference at position `k`, with `a` smaller there. */
  lemma {:induction false} DiffersAt(a: seq<int>, b: seq<int>, k: nat)
    requires k < |a| && k < |b| && a[..k] == b[..k] && a[k] < b[k]
    ensures DiffersBelow(a, b)
    decreases k
  {
    if k > 0 {
      assert a[0] == a[..k][0] == b[..k][0] == b[0];
      assert a[1..][..k - 1] == a[..k][1..] && b[1..][..k - 1] == b[..k][1..];
      DiffersAt(a[1..], b[1..], k - 1);
    }
  }

  /** Where `DiffersBelow` decides: a first difference at some position, with `a` smaller there. */
  lemma {:induction false} DiffersBelowAt(a: seq<int>, b: seq<int>) returns (k: nat)
    requires DiffersBelow(a, b)
    ensures k < |a| && k < |b| && a[..k] == b[..k] && a[k] < b[k]
    decreases |a|
  {
    if a[0] < b[0] {
      k := 0;
    } else {
      var k' := DiffersBelowAt(a[1..], b[1..]);
      k := k' + 1;
      assert a[..k] == [a[0]] + a[1..][..k'] && b[..k] == [b[0]] + b[1..][..k'];
    }
  }

  /** `a < b` holds because `a` is a proper prefix of `b`, or because of a first difference. */
  lemma {:induction false} LessCases(a: seq<int>, b: seq<int>)
    requires Less(a, b)
    ensures (|a| < |b| && a == b[..|a|]) || DiffersBelow(a, b)
    decreases |a|
  {
    if a != [] && !(a[0] < b[0]) {
      LessCases(a[1..], b[1..]);
      if !DiffersBelow(a[1..], b[1..]) {
        assert a == [a[0]] + a[1..] && b[..|a|] == [b[0]] + b[1..][..|a| - 1];
      }
    }
  }

  /** A proper prefix is smaller. */
  lemma {:induction false} PrefixLess(a: seq<int>, b: seq<int>)
    requires |a| < |b| && a == b[..|a|]
    ensures Less(a, b)
    decreases |a|
  {
    if a != [] {
      assert a[1..] == b[1..][..|a| - 1];
      PrefixLess(a[1..], b[1..]);
    }
  }

  /** Past a common prefix, the order is decided by what follows it. */
  lemma {:induction false} LessDrop(a: seq<int>, b: seq<int>, n: nat)
    requires n <= |a| && n <= |b| && a[..n] == b[..n] && Less(a, b)
    ensures Less(a[n..], b[n..])
    decreases n
  {
    if n > 0 {
      assert a[0] == a[..n][0] && b[0] == b[..n][0];
      assert a[1..][..n - 1] == a[..n][1..] && b[1..][..n - 1] == b[..n][1..];
      assert a[1..][n - 1..] == a[n..] && b[1..][n - 1..] == b[n..];
      LessDrop(a[1..], b[1..], n - 1);
    }
  }

  lemma LessEqAntisymmetric(a: seq<int>, b: seq<int>)
    requires LessEq(a, b) && LessEq(b, a)
    ensures a == b
  {
    if a != b {
      LessTransitive(a, b, a);
      LessIrreflexive(a);
    }
  }

  /** What `sort_unstable` leaves: every element at most every later one. */
  predicate Sorted(xs: seq<seq<int>>) {
    forall i, j :: 0 <= i < j < |xs| ==> LessEq(xs[i], xs[j])
  }

  /** An element of a sorted sequence is at least its first. */
  lemma SortedFirst(xs: seq<seq<int>>, x: seq<int>)
    requires Sorted(xs) && x in multiset(xs)
    ensures LessEq(xs[0], x)
  {
    var i :| 0 <= i < |xs| && xs[i] == x;
  }

  lemma SortedTail(xs: seq<seq<int>>)
    requires Sorted(xs) && xs != []
    ensures Sorted(xs[1..])
  {
    forall i, j | 0 <= i < j < |xs| - 1 ensures LessEq(xs[1..][i], xs[1..][j]) {
      assert xs[1..][i] == xs[i + 1] && xs[1..][j] == xs[j + 1];
    }
  }

  /** Two arrangements of one multiset that begin alike are arrangements of one multiset after their first elements. */
  lemma MultisetTails(xs: seq<seq<int>>, ys: seq<seq<int>>)
    requires xs != [] && ys != [] && xs[0] == ys[0] && multiset(xs) == multiset(ys)
    ensures multiset(xs[1..]) == multiset(ys[1..])
  {
    assert xs == [xs[0]] + xs[1..] && ys == [ys[0]] + ys[1..];
    assert multiset(xs[1..]) == multiset(xs) - multiset{xs[0]};
    assert multiset(ys[1..]) == multiset(ys) - multiset{ys[0]};
  }

  /** There is one sorted arrangement of a multiset of sequences. */
  lemma {:induction false} SortedUnique(xs: seq<seq<int>>, ys: seq<seq<int>>)
    requires Sorted(xs) && Sorted(ys) && multiset(xs) == multiset(ys)
    ensures xs == ys
    decreases |xs|
  {
    assert |xs| == |multiset(xs)| == |ys|;
    if xs != [] {
      assert xs[0] in multiset(ys) && ys[0] in multiset(xs);
      SortedFirst(ys, xs[0]);
      SortedFirst(xs, ys[0]);
      LessEqAntisymmetric(xs[0], ys[0]);
      MultisetTails(xs, ys);
      SortedTail(xs);
      SortedTail(ys);
      SortedUnique(xs[1..], ys[1..]);
      assert xs == [xs[0]] + xs[1..] && ys == [ys[0]] + ys[1..];
    }
  }

  /** `b` to the power `n`. */
  function Pow(b: nat, n: nat): (p: nat)
    ensures b > 0 ==> p > 0
  {
    if n == 0 then 1 else b * Pow(b, n - 1)
  }

  /** Every element of `ds` is a digit in base `base`. */
  predicate Digits(ds: seq<int>, base: nat) {
    forall i :: 0 <= i < |ds| ==> 0 <= ds[i] < base
  }

  /** The number whose digits in base `base` are `ds`, the most significant first. */
  function Value(ds: seq<int>, base: nat): int {
    if ds == [] then 0 else ds[0] * Pow(base, |ds| - 1) + Value(ds[1..], base)
  }

  lemma MulLess(x: int, y: int, p: int)
    requires x < y && p > 0
    ensures x * p + p <= y * p
  {
    assert y * p - x * p == (y - x) * p;
    MulAtLeast(y - x, p);
  }

  /** A number with `n` digits is below `base` to the `n`. */
  lemma {:induction false} ValueBound(ds: seq<int>, base: nat)
    requires base > 0 && Digits(ds, base)
    ensures 0 <= Value(ds, base) < Pow(base, |ds|)
    decreases |ds|
  {
    if ds != [] {
      var p := Pow(base, |ds| - 1);
      ValueBound(ds[1..], base);
      assert Digits(ds[1..], base) by {
        forall i | 0 <= i < |ds| - 1 ensures 0 <= ds[1..][i] < base {
          assert ds[1..][i] == ds[i + 1];
        }
      }
      MulLess(ds[0], base, p);
      assert 0 <= ds[0] * p by {
        if ds[0] > 0 {
          MulAtLeast(ds[0], p);
        }
      }
    }
  }

  /** Numbers of equal length compare as their digit sequences. */
  lemma {:induction false} ValueOrder(a: seq<int>, b: seq<int>, base: nat)
    requires base > 0 && |a| == |b| && Digits(a, base) && Digits(b, base)
    ensures DiffersBelow(a, b) <==> Value(a, base) < Value(b, base)
    decreases |a|
  {
    if a != [] {
      var p := Pow(base, |a| - 1);
      assert Digits(a[1..], base) && Digits(b[1..], base) by {
        forall i | 0 <= i < |a| - 1 ensures 0 <= a[1..][i] < base && 0 <= b[1..][i] < base {
          assert a[1..][i] == a[i + 1] && b[1..][i] == b[i + 1];
        }
      }
      ValueBound(a[1..], base);
      ValueBound(b[1..], base);
      ValueOrder(a[1..], b[1..], base);
      if a[0] < b[0] {
        MulLess(a[0], b[0], p);
      } else if a[0] > b[0] {
        MulLess(b[0], a[0], p);
      }
    }
  }

  /** Equal numbers of the same length have the same digits. */
  lemma ValueInjective(a: seq<int>, b: seq<int>, base: nat)
    requires base > 0 && |a| == |b| && Digits(a, base) && Digits(b, base)
    requires Value(a, base) == Value(b, base)
    ensures a == b
  {
    ValueOrder(a, b, base);
    ValueOrder(b, a, base);
    LessTotal(a, b);
    if Less(a, b) {
      LessSameLength(a, b);
    } else if Less(b, a) {
      LessSameLength(b, a);
    }
  }

  /** A number whose digits are each at most those of another is at most that number, and below it unless equal. */
  lemma {:induction false} ValueMono(a: seq<int>, b: seq<int>, base: nat)
    requires base > 0 && |a| == |b| && forall i :: 0 <= i < |a| ==> a[i] <= b[i]
    ensures Value(a, base) <= Value(b, base)
    ensures a != b ==> Value(a, base) < Value(b, base)
    decreases |a|
  {
    if a != [] {
      var p := Pow(base, |a| - 1);
      assert forall i :: 0 <= i < |a| - 1 ==> a[1..][i] == a[i + 1] && b[1..][i] == b[i + 1];
      ValueMono(a[1..], b[1..], base);
      if a[0] < b[0] {
        MulLess(a[0], b[0], p);
      }
      if a[1..] == b[1..] && a[0] == b[0] {
        assert a == [a[0]] + a[1..] && b == [b[0]] + b[1..];
      }
    }
  }
}
