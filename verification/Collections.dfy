/** Optional values, sums and sorted rearrangements of sequences. */
module Collections {

  datatype Option<T> = None | Some(value: T)

  function SumInt<T>(f: T -> int, s: seq<T>): int {
    if s == [] then 0 else f(s[0]) + SumInt(f, s[1..])
  }

  ghost function SumReal<T>(f: T -> real, s: seq<T>): real {
    if s == [] then 0.0 else f(s[0]) + SumReal(f, s[1..])
  }

  lemma {:induction false} SumIntAppend<T>(f: T -> int, a: seq<T>, b: seq<T>)
    ensures SumInt(f, a + b) == SumInt(f, a) + SumInt(f, b)
  {
    if a == [] {
      assert a + b == b;
    } else {
      assert (a + b)[1..] == a[1..] + b;
      SumIntAppend(f, a[1..], b);
    }
  }

  /** A sum over a sequence, one more element at a time. */
  lemma SumIntPrefix<T>(f: T -> int, s: seq<T>, m: nat)
    requires m < |s|
    ensures SumInt(f, s[..m + 1]) == SumInt(f, s[..m]) + f(s[m])
    ensures SumInt(f, s) == SumInt(f, s[..m + 1]) + SumInt(f, s[m + 1..])
  {
    assert s[..m + 1] == s[..m] + [s[m]];
    SumIntAppend(f, s[..m], [s[m]]);
    assert s == s[..m + 1] + s[m + 1..];
    SumIntAppend(f, s[..m + 1], s[m + 1..]);
  }

  /** Every element is good at its position. */
  ghost predicate Each<T>(good: (nat, T) -> bool, a: seq<T>) {
    a == [] || (Each(good, a[..|a| - 1]) && good(|a| - 1, a[|a| - 1]))
  }

  lemma EachSnoc<T>(good: (nat, T) -> bool, a: seq<T>, x: T)
    requires Each(good, a) && good(|a|, x)
    ensures Each(good, a + [x])
  {
    assert (a + [x])[..|a|] == a;
  }

  /** Whatever holds of f holds of g, for a loop that knows only g. */
  ghost predicate Implies<T(!new)>(f: (nat, T) -> bool, g: (nat, T) -> bool) {
    forall i: nat, x: T {:trigger f(i, x)} :: f(i, x) ==> g(i, x)
  }

  /** The same, for a loop that knows only f. */
  ghost predicate Grants<T(!new)>(f: (nat, T) -> bool, g: (nat, T) -> bool) {
    forall i: nat, x: T {:trigger g(i, x)} :: f(i, x) ==> g(i, x)
  }

  /** The same truth values, for a loop that knows only f. */
  ghost predicate Tells(f: nat -> bool, g: nat -> bool) {
    forall i: nat {:trigger g(i)} :: f(i) == g(i)
  }

  lemma {:induction false} EachAt<T>(good: (nat, T) -> bool, a: seq<T>)
    requires Each(good, a)
    ensures forall i :: 0 <= i < |a| ==> good(i, a[i])
  {
    if a != [] {
      EachAt(good, a[..|a| - 1]);
    }
  }

  lemma MultisetOfSplit<T>(a: seq<T>, x: T, b: seq<T>)
    ensures multiset(a + ([x] + b)) == multiset(a + b) + multiset{x}
  {
  }

  lemma SplitAt<T>(s: seq<T>, i: nat)
    requires i < |s|
    ensures s == s[..i] + ([s[i]] + s[i + 1..])
  {
  }

  /** Where the first element of a sits in a rearrangement b of a. */
  lemma FindFirst<T>(a: seq<T>, b: seq<T>) returns (i: nat)
    requires a != [] && multiset(a) == multiset(b)
    ensures i < |b| && b[i] == a[0]
    ensures multiset(a[1..]) == multiset(b[..i] + b[i + 1..])
  {
    StillThere(a, b, a[0]);
    i :| 0 <= i < |b| && b[i] == a[0];
    MultisetWithout(b, i);
    TailMultiset(a);
  }

  lemma TailMultiset<T>(a: seq<T>)
    requires a != []
    ensures multiset(a[1..]) == multiset(a) - multiset{a[0]}
  {
    assert a == [a[0]] + a[1..];
  }

  lemma StillThere<T>(a: seq<T>, b: seq<T>, x: T)
    requires x in a && multiset(a) == multiset(b)
    ensures x in b
  {
    assert x in multiset(a);
  }

  lemma MultisetWithout<T>(s: seq<T>, i: nat)
    requires i < |s|
    ensures multiset(s[..i] + s[i + 1..]) == multiset(s) - multiset{s[i]}
  {
    SplitAt(s, i);
    MultisetOfSplit(s[..i], s[i], s[i + 1..]);
  }

  function Map<S, T>(f: S -> T, s: seq<S>): seq<T> {
    seq(|s|, i requires 0 <= i < |s| => f(s[i]))
  }

  lemma MapSplit<S, T>(f: S -> T, a: seq<S>, x: S, b: seq<S>)
    ensures multiset(Map(f, a + ([x] + b))) == multiset(Map(f, a + b)) + multiset{f(x)}
  {
    assert Map(f, a + ([x] + b)) == Map(f, a) + ([f(x)] + Map(f, b));
    assert Map(f, a + b) == Map(f, a) + Map(f, b);
    MultisetOfSplit(Map(f, a), f(x), Map(f, b));
  }

  /** Images of rearrangements are rearrangements. */
  lemma {:induction false} MapPermuted<S, T>(f: S -> T, a: seq<S>, b: seq<S>)
    requires multiset(a) == multiset(b)
    ensures multiset(Map(f, a)) == multiset(Map(f, b))
    decreases |a|
  {
    if a == [] {
      SameLength(a, b);
    } else {
      var i := FindFirst(a, b);
      MapPermuted(f, a[1..], b[..i] + b[i + 1..]);
      SplitAt(b, i);
      MapSplit(f, b[..i], b[i], b[i + 1..]);
      assert a == [] + ([a[0]] + a[1..]) && [] + a[1..] == a[1..];
      MapSplit(f, [], a[0], a[1..]);
    }
  }

  lemma SumIntSplit<T>(f: T -> int, a: seq<T>, x: T, b: seq<T>)
    ensures SumInt(f, a + ([x] + b)) == SumInt(f, a + b) + f(x)
  {
    SumIntAppend(f, a, [x] + b);
    SumIntAppend(f, a, b);
    assert ([x] + b)[1..] == b;
  }

  /** A sum does not depend on the order of its terms. */
  lemma {:induction false} SumIntPermutation<T>(f: T -> int, a: seq<T>, b: seq<T>)
    requires multiset(a) == multiset(b)
    ensures SumInt(f, a) == SumInt(f, b)
    decreases |a|
  {
    if a == [] {
      assert |multiset(b)| == 0;
    } else {
      var i := FindFirst(a, b);
      SumIntPermutation(f, a[1..], b[..i] + b[i + 1..]);
      SplitAt(b, i);
      SumIntSplit(f, b[..i], b[i], b[i + 1..]);
    }
  }

  lemma {:induction false} SumIntCongruence<T>(f: T -> int, g: T -> int, s: seq<T>)
    requires forall x :: x in s ==> f(x) == g(x)
    ensures SumInt(f, s) == SumInt(g, s)
  {
    if s != [] {
      assert s[0] in s;
      SumIntCongruence(f, g, s[1..]);
    }
  }

  ghost predicate StrictlyIncreasing(s: seq<int>) {
    forall i, j :: 0 <= i < j < |s| ==> s[i] < s[j]
  }

  ghost predicate SortedBy<T>(key: T -> int, s: seq<T>) {
    forall i, j :: 0 <= i < j < |s| ==> key(s[i]) <= key(s[j])
  }

  lemma InsertKeepsSorted<T>(key: T -> int, s: seq<T>, k: nat, x: T)
    requires k <= |s| && SortedBy(key, s)
    requires k == 0 || key(s[k - 1]) <= key(x)
    requires k == |s| || key(x) <= key(s[k])
    ensures SortedBy(key, s[..k] + ([x] + s[k..]))
  {
    var r := s[..k] + ([x] + s[k..]);
    forall i, j | 0 <= i < j < |r|
      ensures key(r[i]) <= key(r[j])
    {
      assert i < k ==> r[i] == s[i] && key(s[i]) <= key(s[k - 1]);
      assert i > k ==> r[i] == s[i - 1];
      assert j < k ==> r[j] == s[j];
      assert j > k ==> r[j] == s[j - 1] && key(s[k]) <= key(s[j - 1]);
    }
  }

  method InsertAt<T>(ghost key: T -> int, s: seq<T>, k: nat, x: T) returns (r: seq<T>)
    requires k <= |s| && SortedBy(key, s)
    requires k == 0 || key(s[k - 1]) <= key(x)
    requires k == |s| || key(x) <= key(s[k])
    ensures multiset(r) == multiset(s + [x]) && |r| == |s| + 1 && SortedBy(key, r)
  {
    InsertKeepsSorted(key, s, k, x);
    MultisetOfSplit(s[..k], x, s[k..]);
    assert s == s[..k] + s[k..];
    r := s[..k] + ([x] + s[k..]);
  }

  /** Insert x after the last element whose key does not exceed its own. */
  method InsertSorted<T>(key: T -> int, s: seq<T>, x: T) returns (r: seq<T>)
    requires SortedBy(key, s)
    ensures multiset(r) == multiset(s) + multiset{x}
    ensures |r| == |s| + 1
    ensures SortedBy(key, r)
  {
    var k := |s|;
    while k > 0 && key(s[k - 1]) > key(x)
      invariant 0 <= k <= |s|
      invariant k == |s| || key(x) <= key(s[k])
    {
      k := k - 1;
    }
    r := InsertAt(key, s, k, x);
  }

  /** The effect of std::sort with a key comparison: an ordered rearrangement. */
  method Sort<T>(key: T -> int, s: seq<T>) returns (r: seq<T>)
    ensures multiset(r) == multiset(s)
    ensures |r| == |s|
    ensures SortedBy(key, r)
  {
    r := [];
    for n := 0 to |s|
      invariant multiset(r) == multiset(s[..n])
      invariant |r| == n
      invariant SortedBy(key, r)
    {
      assert s[..n + 1] == s[..n] + [s[n]];
      r := InsertSorted(key, r, s[n]);
    }
    assert s[..|s|] == s;
  }

  /** Put a sorted rearrangement back in place. */
  method SortInPlace<T>(key: T -> int, a: array<T>)
    modifies a
    ensures multiset(a[..]) == multiset(old(a[..]))
    ensures SortedBy(key, a[..])
  {
    var sorted := Sort(key, a[..]);
    SameLength(sorted, a[..]);
    forall i | 0 <= i < a.Length {
      a[i] := sorted[i];
    }
    assert a[..] == sorted;
  }

  lemma SameLength<T>(a: seq<T>, b: seq<T>)
    requires multiset(a) == multiset(b)
    ensures |a| == |b|
  {
    assert |multiset(a)| == |a| && |multiset(b)| == |b|;
  }

  lemma CountOfBoth<T>(a: seq<T>, b: seq<T>, x: T)
    ensures multiset(a + b)[x] == multiset(a)[x] + multiset(b)[x]
  {
  }

  lemma InEither<T>(a: seq<T>, b: seq<T>, x: T)
    ensures x in a + b <==> x in a || x in b
  {
  }

  lemma CountLast<T>(s: seq<T>, x: T)
    requires s != []
    ensures multiset(s)[x] == multiset(s[..|s| - 1])[x] + if s[|s| - 1] == x then 1 else 0
  {
    assert s == s[..|s| - 1] + [s[|s| - 1]];
  }

  /** An element counted twice sits at two positions. */
  lemma {:induction false} TwoPositions<T>(s: seq<T>, x: T) returns (i: nat, j: nat)
    requires multiset(s)[x] >= 2
    ensures i < j < |s| && s[i] == s[j] == x
  {
    var n := |s| - 1;
    assert s == s[..n] + [s[n]];
    if s[n] == x {
      assert multiset(s[..n])[x] >= 1;
      assert x in s[..n];
      i :| 0 <= i < n && s[i] == x;
      j := n;
    } else {
      assert multiset(s[..n])[x] == multiset(s)[x];
      i, j := TwoPositions(s[..n], x);
    }
  }

  lemma TwiceCounted<T>(s: seq<T>, i: nat, j: nat)
    requires i < j < |s| && s[i] == s[j]
    ensures multiset(s)[s[i]] >= 2
  {
    MultisetWithout(s, j);
    assert (s[..j] + s[j + 1..])[i] == s[i];
    assert s[i] in multiset(s[..j] + s[j + 1..]);
  }

  ghost function SumBelow(n: nat, f: nat -> int): int {
    if n == 0 then 0 else SumBelow(n - 1, f) + f(n - 1)
  }

  lemma {:induction false} SumBelowNonnegative(n: nat, f: nat -> int)
    requires forall i :: 0 <= i < n ==> f(i) >= 0
    ensures SumBelow(n, f) >= 0
  {
    if n > 0 {
      SumBelowNonnegative(n - 1, f);
    }
  }

  lemma {:induction false} SumBelowMonotone(n: nat, f: nat -> int, g: nat -> int)
    requires forall i :: 0 <= i < n ==> f(i) <= g(i)
    ensures SumBelow(n, f) <= SumBelow(n, g)
  {
    if n > 0 {
      SumBelowMonotone(n - 1, f, g);
    }
  }

  lemma {:induction false} SumBelowStrict(n: nat, f: nat -> int, g: nat -> int, k: nat)
    requires k < n && f(k) < g(k) && forall i :: 0 <= i < n ==> f(i) <= g(i)
    ensures SumBelow(n, f) < SumBelow(n, g)
  {
    if k == n - 1 {
      SumBelowMonotone(n - 1, f, g);
    } else {
      SumBelowStrict(n - 1, f, g, k);
    }
  }

  lemma {:induction false} SumBelowAdd(n: nat, f: nat -> int, g: nat -> int, h: nat -> int)
    requires forall i :: 0 <= i < n ==> h(i) == f(i) + g(i)
    ensures SumBelow(n, h) == SumBelow(n, f) + SumBelow(n, g)
  {
    if n > 0 {
      SumBelowAdd(n - 1, f, g, h);
    }
  }

  lemma {:induction false} SumBelowZero(n: nat, f: nat -> int)
    requires forall i :: 0 <= i < n ==> f(i) == 0
    ensures SumBelow(n, f) == 0
  {
    if n > 0 {
      SumBelowZero(n - 1, f);
    }
  }

  /** A sum is the value of whatever grows by its terms. */
  lemma {:induction false} SumBelowTelescopes(n: nat, f: nat -> int, g: nat -> int)
    requires g(0) == 0 && forall i :: 0 <= i < n ==> g(i + 1) == g(i) + f(i)
    ensures SumBelow(n, f) == g(n)
  {
    if n > 0 {
      SumBelowTelescopes(n - 1, f, g);
      assert g(n - 1 + 1) == g(n - 1) + f(n - 1);
    }
  }

  lemma {:induction false} SumBelowSingle(n: nat, f: nat -> int, k: nat)
    requires k < n && forall i :: 0 <= i < n && i != k ==> f(i) == 0
    ensures SumBelow(n, f) == f(k)
  {
    if k == n - 1 {
      SumBelowZero(n - 1, f);
    } else {
      SumBelowSingle(n - 1, f, k);
    }
  }

  ghost function AtIndex(f: nat -> (nat -> int), j: nat): nat -> int {
    (b: nat) => f(b)(j)
  }

  ghost function UpTo(f: nat -> (nat -> int), n: nat): nat -> int {
    (b: nat) => SumBelow(n, f(b))
  }

  lemma UpToStep(f: nat -> (nat -> int), n: nat, b: nat)
    ensures UpTo(f, 0)(b) == 0
    ensures UpTo(f, n + 1)(b) == UpTo(f, n)(b) + AtIndex(f, n)(b)
  {
    var row := f(b);
    assert SumBelow(n + 1, row) == SumBelow(n, row) + row(n);
  }

  /** A double sum may be taken in either order. */
  lemma {:induction false} SumBelowExchange(m: nat, n: nat, f: nat -> (nat -> int), h: nat -> int)
    requires forall j :: 0 <= j < n ==> h(j) == SumBelow(m, AtIndex(f, j))
    ensures SumBelow(m, UpTo(f, n)) == SumBelow(n, h)
  {
    if n == 0 {
      forall b | 0 <= b < m
        ensures UpTo(f, 0)(b) == 0
      {
        UpToStep(f, 0, b);
      }
      SumBelowZero(m, UpTo(f, 0));
    } else {
      SumBelowExchange(m, n - 1, f, h);
      forall b | 0 <= b < m
        ensures UpTo(f, n)(b) == UpTo(f, n - 1)(b) + AtIndex(f, n - 1)(b)
      {
        UpToStep(f, n - 1, b);
      }
      SumBelowAdd(m, UpTo(f, n - 1), AtIndex(f, n - 1), UpTo(f, n));
    }
  }
}
