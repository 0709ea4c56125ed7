/** `Array.prototype.sort`: on strings by code units, a proper prefix first, and by a comparison function. */
module Sorting {

  /** `code` gives the code unit of an element. */
  predicate Before<T>(code: T -> int, a: seq<T>, b: seq<T>) {
    if b == [] then false
    else if a == [] then true
    else if code(a[0]) != code(b[0]) then code(a[0]) < code(b[0])
    else Before(code, a[1..], b[1..])
  }

  function Insert<T>(code: T -> int, k: seq<T>, ks: seq<seq<T>>): (r: seq<seq<T>>)
    ensures multiset(r) == multiset{k} + multiset(ks) && |r| == |ks| + 1
  {
    if ks == [] || !Before(code, ks[0], k) then [k] + ks
    else
      assert ks == [ks[0]] + ks[1..];
      [ks[0]] + Insert(code, k, ks[1..])
  }

  function Sort<T>(code: T -> int, ks: seq<seq<T>>): (r: seq<seq<T>>)
    ensures multiset(r) == multiset(ks) && |r| == |ks|
  {
    if ks == [] then []
    else
      assert ks == [ks[0]] + ks[1..];
      Insert(code, ks[0], Sort(code, ks[1..]))
  }

  ghost predicate Injective<T(!new)>(code: T -> int) {
    forall x, y :: code(x) == code(y) ==> x == y
  }

  ghost predicate Sorted<T>(code: T -> int, ks: seq<seq<T>>) {
    forall i, j | 0 <= i < j < |ks| :: !Before(code, ks[j], ks[i])
  }

  lemma {:induction false} BeforeIsTotal<T(!new)>(code: T -> int, a: seq<T>, b: seq<T>)
    requires Injective(code)
    ensures Before(code, a, b) || Before(code, b, a) || a == b
    ensures !(Before(code, a, b) && Before(code, b, a))
    decreases |a|
  {
    if a != [] && b != [] && code(a[0]) == code(b[0]) {
      BeforeIsTotal(code, a[1..], b[1..]);
      assert a == [a[0]] + a[1..] && b == [b[0]] + b[1..];
    }
  }

  lemma {:induction false} BeforeIsTransitive<T(!new)>(code: T -> int, a: seq<T>, b: seq<T>, c: seq<T>)
    requires Before(code, a, b) && Before(code, b, c)
    ensures Before(code, a, c)
    decreases |a|
  {
    if a != [] && code(a[0]) == code(b[0]) == code(c[0]) {
      BeforeIsTransitive(code, a[1..], b[1..], c[1..]);
    }
  }

  /** Not being after is transitive too. */
  lemma NotAfterIsTransitive<T(!new)>(code: T -> int, a: seq<T>, b: seq<T>, c: seq<T>)
    requires Injective(code) && !Before(code, b, a) && !Before(code, c, b)
    ensures !Before(code, c, a)
  {
    hide Before;
    BeforeIsTotal(code, a, b);
    BeforeIsTotal(code, b, c);
    BeforeIsTotal(code, a, c);
    if a != b && b != c {
      BeforeIsTransitive(code, a, b, c);
    }
  }

  lemma {:induction false} InsertSorts<T(!new)>(code: T -> int, k: seq<T>, ks: seq<seq<T>>)
    requires Injective(code) && Sorted(code, ks)
    ensures Sorted(code, Insert(code, k, ks))
  {
    hide Before;
    if ks == [] {
      assert Insert(code, k, ks) == [k];
    } else if !Before(code, ks[0], k) {
      forall j | 0 <= j < |ks| ensures !Before(code, ks[j], k) {
        if j > 0 { NotAfterIsTransitive(code, k, ks[0], ks[j]); }
      }
    } else {
      InsertSorts(code, k, ks[1..]);
      BeforeIsTotal(code, ks[0], k);
      var tail := Insert(code, k, ks[1..]);
      forall j | 0 <= j < |tail| ensures !Before(code, tail[j], ks[0]) {
        assert tail[j] in multiset(tail);
      }
    }
  }

  lemma {:induction false} SortSorts<T(!new)>(code: T -> int, ks: seq<seq<T>>)
    requires Injective(code)
    ensures Sorted(code, Sort(code, ks))
  {
    if ks != [] {
      SortSorts(code, ks[1..]);
      InsertSorts(code, ks[0], Sort(code, ks[1..]));
    }
  }

  lemma HeadIsLeast<T(!new)>(code: T -> int, ks: seq<seq<T>>, k: seq<T>)
    requires Injective(code) && Sorted(code, ks) && k in ks
    ensures !Before(code, k, ks[0])
  {
    BeforeIsTotal(code, k, k);
  }

  /** There is only one way to sort. */
  lemma {:induction false} SortedIsUnique<T(!new)>(code: T -> int, a: seq<seq<T>>, b: seq<seq<T>>)
    requires Injective(code) && Sorted(code, a) && Sorted(code, b) && multiset(a) == multiset(b)
    ensures a == b
  {
    hide Before;
    if a == [] {
      assert |multiset(b)| == 0;
    } else {
      assert a[0] in multiset(b) && |b| > 0;
      assert b[0] in multiset(a);
      HeadIsLeast(code, a, b[0]);
      HeadIsLeast(code, b, a[0]);
      BeforeIsTotal(code, a[0], b[0]);
      WithoutHead(a);
      WithoutHead(b);
      SortedIsUnique(code, a[1..], b[1..]);
    }
  }

  lemma WithoutHead<T>(ks: seq<seq<T>>)
    requires ks != []
    ensures multiset(ks[1..]) == multiset(ks) - multiset{ks[0]} && ks == [ks[0]] + ks[1..]
  {
    assert ks == [ks[0]] + ks[1..];
  }

  /** Sorting forgets the order and nothing else. */
  lemma SortIsCanonical<T(!new)>(code: T -> int, a: seq<seq<T>>, b: seq<seq<T>>)
    requires Injective(code)
    ensures Sort(code, a) == Sort(code, b) <==> multiset(a) == multiset(b)
  {
    SortSorts(code, a);
    SortSorts(code, b);
    if multiset(a) == multiset(b) {
      SortedIsUnique(code, Sort(code, a), Sort(code, b));
    }
  }

  // ---------------------------------------------------------------- sorting by a comparison

  /** Stable: `x` stood before the elements it is inserted among. */
  function InsertBy<T>(compare: (T, T) -> int, x: T, xs: seq<T>): (r: seq<T>)
    ensures multiset(r) == multiset{x} + multiset(xs)
  {
    if xs == [] || compare(x, xs[0]) <= 0 then [x] + xs
    else
      assert xs == [xs[0]] + xs[1..];
      [xs[0]] + InsertBy(compare, x, xs[1..])
  }

  /** `xs.sort(compare)`. */
  function SortBy<T>(compare: (T, T) -> int, xs: seq<T>): (r: seq<T>)
    ensures multiset(r) == multiset(xs)
  {
    if xs == [] then []
    else
      assert xs == [xs[0]] + xs[1..];
      InsertBy(compare, xs[0], SortBy(compare, xs[1..]))
  }

  /** What `sort` asks of a comparison function. */
  ghost predicate Consistent<T(!new)>(compare: (T, T) -> int) {
    && (forall x, y :: compare(x, y) <= 0 || compare(y, x) <= 0)
    && (forall x, y, z | compare(x, y) <= 0 && compare(y, z) <= 0 :: compare(x, z) <= 0)
  }

  ghost predicate Ordered<T>(compare: (T, T) -> int, xs: seq<T>) {
    forall i, j | 0 <= i < j < |xs| :: compare(xs[i], xs[j]) <= 0
  }

  lemma InOrder<T(!new)>(compare: (T, T) -> int, x: T, y: T, z: T)
    requires Consistent(compare)
    ensures compare(x, y) <= 0 || compare(y, x) <= 0
    ensures compare(x, y) <= 0 && compare(y, z) <= 0 ==> compare(x, z) <= 0
  {
  }

  lemma {:induction false} InsertByOrders<T(!new)>(compare: (T, T) -> int, x: T, xs: seq<T>)
    requires Consistent(compare) && Ordered(compare, xs)
    ensures Ordered(compare, InsertBy(compare, x, xs))
  {
    hide Consistent;
    if xs == [] {
      assert InsertBy(compare, x, xs) == [x];
    } else if compare(x, xs[0]) <= 0 {
      forall k | 0 <= k < |xs| ensures compare(x, xs[k]) <= 0 {
        if k > 0 { InOrder(compare, x, xs[0], xs[k]); }
      }
    } else {
      InsertByOrders(compare, x, xs[1..]);
      var tail := InsertBy(compare, x, xs[1..]);
      forall k | 0 <= k < |tail| ensures compare(xs[0], tail[k]) <= 0 {
        assert tail[k] in multiset(tail);
        InOrder(compare, xs[0], x, x);
      }
    }
  }

  lemma {:induction false} SortByOrders<T(!new)>(compare: (T, T) -> int, xs: seq<T>)
    requires Consistent(compare)
    ensures Ordered(compare, SortBy(compare, xs))
  {
    hide Consistent, InsertBy;
    if xs != [] {
      SortByOrders(compare, xs[1..]);
      InsertByOrders(compare, xs[0], SortBy(compare, xs[1..]));
    }
  }

  // ---------------------------------------------------------------- the order of strings

  /** `a` is a proper part of the front of `b`, or has the smaller code where the two first differ. */
  ghost predicate Precedes<T>(code: T -> int, a: seq<T>, b: seq<T>) {
    exists k: nat :: FirstDifference(code, a, b, k)
                     && (k == |a| < |b| || (k < |a| && k < |b| && code(a[k]) < code(b[k])))
  }

  ghost predicate FirstDifference<T>(code: T -> int, a: seq<T>, b: seq<T>, k: nat) {
    k <= |a| && k <= |b| && forall i | 0 <= i < k :: code(a[i]) == code(b[i])
  }

  lemma {:induction false} BeforeIsPrecedes<T>(code: T -> int, a: seq<T>, b: seq<T>)
    ensures Before(code, a, b) <==> Precedes(code, a, b)
    decreases |a|
  {
    if a == [] || b == [] || code(a[0]) != code(b[0]) {
      assert FirstDifference(code, a, b, 0);
    } else {
      BeforeIsPrecedes(code, a[1..], b[1..]);
      if k: nat :| FirstDifference(code, a[1..], b[1..], k)
                   && (k == |a[1..]| < |b[1..]|
                       || (k < |a[1..]| && k < |b[1..]| && code(a[1..][k]) < code(b[1..][k]))) {
        assert FirstDifference(code, a, b, k + 1);
      }
      if k: nat :| FirstDifference(code, a, b, k)
                   && (k == |a| < |b| || (k < |a| && k < |b| && code(a[k]) < code(b[k]))) {
        assert k > 0;
        assert FirstDifference(code, a[1..], b[1..], k - 1);
      }
    }
  }

  /** A sorted list holds the same strings in ascending order. */
  lemma SortAscends<T(!new)>(code: T -> int, ks: seq<seq<T>>)
    requires Injective(code)
    ensures multiset(Sort(code, ks)) == multiset(ks)
    ensures forall i, j | 0 <= i < j < |ks| :: !Precedes(code, Sort(code, ks)[j], Sort(code, ks)[i])
  {
    hide Before, Precedes;
    SortSorts(code, ks);
    var r := Sort(code, ks);
    forall i, j | 0 <= i < j < |ks| ensures !Precedes(code, r[j], r[i]) {
      BeforeIsPrecedes(code, r[j], r[i]);
    }
  }
}
