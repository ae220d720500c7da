/** Sequences as bags: what holds of a sequence in any order. */
module Collections {
  import opened Types

  ghost predicate SameBag<T>(a: seq<T>, b: seq<T>) {
    multiset(a) == multiset(b)
  }

  function Without<T>(s: seq<T>, k: nat): seq<T>
    requires k < |s|
  {
    s[..k] + s[k + 1..]
  }

  lemma WithoutInit<T>(s: seq<T>, k: nat)
    requires k < |s|
    ensures var n := |s| - 1;
            s == s[..n] + [s[n]] && Without(s, k) == if k < n then Without(s[..n], k) + [s[n]] else s[..n]
  {
    var n := |s| - 1;
    if k < n {
      assert s[k + 1..] == s[k + 1..n] + [s[n]];
      assert s[..n][k + 1..] == s[k + 1..n];
    }
  }

  /** Taking `x` and `y` off a bag in either order. */
  lemma TakeInTurn<T>(all: multiset<T>, butX: multiset<T>, butBoth: multiset<T>, butY: multiset<T>, x: multiset<T>, y: multiset<T>)
    requires all == butX + x && butX == butBoth + y && butY == butBoth + x
    ensures all == butY + y
  {
  }

  lemma TakeSame<T>(a: multiset<T>, b: multiset<T>, x: T)
    requires a + multiset{x} == b + multiset{x}
    ensures a == b
  {
    assert a == a + multiset{x} - multiset{x} && b == b + multiset{x} - multiset{x};
  }

  lemma WithoutBag<T>(s: seq<T>, k: nat)
    requires k < |s|
    ensures multiset(s) == multiset(Without(s, k)) + multiset{s[k]}
  {
    assert s == s[..k] + [s[k]] + s[k + 1..];
  }

  /** Two orders of one bag: the last element of one is found in the other. */
  lemma LastElsewhere<T>(a: seq<T>, b: seq<T>) returns (k: nat)
    requires SameBag(a, b) && a != []
    ensures k < |b| && b[k] == a[|a| - 1] && SameBag(a[..|a| - 1], Without(b, k))
  {
    var x := a[|a| - 1];
    assert x in multiset(a);
    k :| 0 <= k < |b| && b[k] == x;
    WithoutBag(b, k);
    WithoutBag(a, |a| - 1);
    assert Without(a, |a| - 1) == a[..|a| - 1];
    TakeSame(multiset(a[..|a| - 1]), multiset(Without(b, k)), x);
  }

  lemma EmptyBag<T>(a: seq<T>, b: seq<T>)
    requires SameBag(a, b) && a == []
    ensures b == []
  {
    assert |multiset(b)| == 0;
  }

  lemma SameSize<T>(a: seq<T>, b: seq<T>)
    requires SameBag(a, b)
    ensures |a| == |b|
  {
    assert |multiset(a)| == |a| && |multiset(b)| == |b|;
  }

  lemma SameMembers<T>(a: seq<T>, b: seq<T>, x: T)
    requires SameBag(a, b)
    ensures x in a <==> x in b
  {
    assert x in a <==> x in multiset(a);
    assert x in b <==> x in multiset(b);
  }

  // ---------- Element by element ----------

  /** What every element contributes, in order. */
  function FlatMap<T, U>(f: T -> seq<U>, s: seq<T>): seq<U> {
    if s == [] then [] else FlatMap(f, s[..|s| - 1]) + f(s[|s| - 1])
  }

  lemma FlatMapNext<T, U>(f: T -> seq<U>, s: seq<T>, x: T)
    ensures FlatMap(f, s + [x]) == FlatMap(f, s) + f(x)
  {
    assert (s + [x])[..|s|] == s;
  }

  lemma {:induction false} FlatMapWithout<T, U>(f: T -> seq<U>, s: seq<T>, k: nat)
    requires k < |s|
    ensures multiset(FlatMap(f, s)) == multiset(FlatMap(f, Without(s, k))) + multiset(f(s[k]))
    decreases |s|
  {
    var n := |s| - 1;
    var init, last := s[..n], s[n];
    WithoutInit(s, k);
    if k < n {
      FlatMapWithout(f, init, k);
      FlatMapNext(f, Without(init, k), last);
      TakeInTurn(multiset(FlatMap(f, s)), multiset(FlatMap(f, init)), multiset(FlatMap(f, Without(init, k))),
                 multiset(FlatMap(f, Without(s, k))), multiset(f(last)), multiset(f(s[k])));
    }
  }

  /** A reordering of the elements is a reordering of what they contribute. */
  lemma {:induction false} FlatMapBag<T, U>(f: T -> seq<U>, a: seq<T>, b: seq<T>)
    requires SameBag(a, b)
    ensures SameBag(FlatMap(f, a), FlatMap(f, b))
    decreases |a|
  {
    if a == [] {
      EmptyBag(a, b);
    } else {
      var k := LastElsewhere(a, b);
      FlatMapBag(f, a[..|a| - 1], Without(b, k));
      FlatMapWithout(f, b, k);
    }
  }

  /** Contributions that are alike make bags that are alike. */
  lemma {:induction false} FlatMapAlike<T, U>(f: T -> seq<U>, g: T -> seq<U>, s: seq<T>)
    requires forall x :: x in s ==> SameBag(f(x), g(x))
    ensures SameBag(FlatMap(f, s), FlatMap(g, s))
    decreases |s|
  {
    if s != [] {
      var n := |s| - 1;
      assert s == s[..n] + [s[n]];
      FlatMapAlike(f, g, s[..n]);
    }
  }

  // ---------- Without repetition ----------

  lemma {:induction false} CountOnce<T(!new)>(a: seq<T>, x: T)
    requires Distinct(a)
    ensures multiset(a)[x] == if x in a then 1 else 0
    decreases |a|
  {
    if a != [] {
      var n := |a| - 1;
      CountOnce(a[..n], x);
      assert a == a[..n] + [a[n]];
    }
  }

  /** Without repetition, the same members make the same bag. */
  lemma OnceEach<T(!new)>(a: seq<T>, b: seq<T>)
    requires Distinct(a) && Distinct(b) && forall x :: x in a <==> x in b
    ensures SameBag(a, b)
  {
    forall x ensures multiset(a)[x] == multiset(b)[x] {
      CountOnce(a, x);
      CountOnce(b, x);
    }
  }
}
