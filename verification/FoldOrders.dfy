/** Aggregates over their inputs in any order. */
module FoldOrders {
  import opened Types
  import opened Values
  import opened Expressions
  import opened Collections
  import opened AggregateFolds

  function Amount(v: Value): int {
    if v.Integer? then v.i else 0
  }

  /** The sum of the amounts above zero, and of those below. */
  function Gains(values: seq<Value>): int {
    if values == [] then 0 else
      var n := |values| - 1;
      Gains(values[..n]) + if Amount(values[n]) > 0 then Amount(values[n]) else 0
  }

  function Losses(values: seq<Value>): int {
    if values == [] then 0 else
      var n := |values| - 1;
      Losses(values[..n]) + if Amount(values[n]) < 0 then Amount(values[n]) else 0
  }

  /** The sum fits in 32 bits whatever is added first. */
  ghost predicate FitsInAnyOrder(values: seq<Value>) {
    INT32_MIN <= Losses(values) && Gains(values) < INT32_LIMIT
  }

  lemma SumsNext(values: seq<Value>, v: Value)
    ensures Total(values + [v]) == Total(values) + Amount(v)
    ensures Gains(values + [v]) == Gains(values) + if Amount(v) > 0 then Amount(v) else 0
    ensures Losses(values + [v]) == Losses(values) + if Amount(v) < 0 then Amount(v) else 0
  {
    assert (values + [v])[..|values|] == values;
  }

  lemma {:induction false} SumsWithout(values: seq<Value>, k: nat)
    requires k < |values|
    ensures var v, rest := values[k], Without(values, k);
            && Total(values) == Total(rest) + Amount(v)
            && Gains(values) == Gains(rest) + (if Amount(v) > 0 then Amount(v) else 0)
            && Losses(values) == Losses(rest) + (if Amount(v) < 0 then Amount(v) else 0)
    decreases |values|
  {
    var n := |values| - 1;
    WithoutInit(values, k);
    SumsNext(values[..n], values[n]);
    if k < n {
      SumsWithout(values[..n], k);
      SumsNext(Without(values[..n], k), values[n]);
    }
  }

  lemma {:induction false} SumsBag(a: seq<Value>, b: seq<Value>)
    requires SameBag(a, b)
    ensures Total(a) == Total(b) && Gains(a) == Gains(b) && Losses(a) == Losses(b)
    decreases |a|
  {
    if a == [] {
      EmptyBag(a, b);
    } else {
      var n := |a| - 1;
      var k := LastElsewhere(a, b);
      SumsBag(a[..n], Without(b, k));
      SumsWithout(b, k);
      SumsNext(a[..n], a[n]);
      assert a == a[..n] + [a[n]];
    }
  }

  /** Partial sums lie between the losses and the gains. */
  lemma {:induction false} BetweenSums(values: seq<Value>, k: nat)
    requires k <= |values|
    ensures Losses(values) <= Total(values[..k]) <= Gains(values)
    ensures Losses(values) <= 0 <= Gains(values)
    decreases |values|
  {
    if values == [] {
    } else {
      var n := |values| - 1;
      SumsNext(values[..n], values[n]);
      assert values == values[..n] + [values[n]];
      BetweenSums(values[..n], if k <= n then k else n);
      if k <= n {
        assert values[..n][..k] == values[..k];
      } else {
        assert values[..k] == values && values[..n][..n] == values[..n];
      }
    }
  }

  /** The amounts above zero (or those below) first, and then the others. */
  function Rising(values: seq<Value>, up: bool): seq<Value> {
    if values == [] then [] else
      var n := |values| - 1;
      Rising(values[..n], up) + if (Amount(values[n]) > 0) == up then [values[n]] else []
  }

  lemma RisingNext(values: seq<Value>, v: Value, up: bool)
    ensures Rising(values + [v], up) == if (Amount(v) > 0) == up then Rising(values, up) + [v] else Rising(values, up)
  {
    assert (values + [v])[..|values|] == values;
  }

  lemma {:induction false} RisingBag(values: seq<Value>)
    ensures SameBag(values, Rising(values, true) + Rising(values, false))
    ensures SameBag(values, Rising(values, false) + Rising(values, true))
    decreases |values|
  {
    if values != [] {
      var init, v := values[..|values| - 1], values[|values| - 1];
      assert values == init + [v];
      RisingBag(init);
      RisingNext(init, v, true);
      RisingNext(init, v, false);
      Dealt(init, v, Rising(init, true), Rising(init, false));
      Dealt(init, v, Rising(init, false), Rising(init, true));
    }
  }

  /** One more element on either pile. */
  lemma Dealt<T>(s: seq<T>, x: T, l: seq<T>, r: seq<T>)
    requires SameBag(s, l + r)
    ensures SameBag(s + [x], l + [x] + r) && SameBag(s + [x], l + (r + [x]))
  {
  }

  lemma NoSums()
    ensures Rising([], true) == [] == Rising([], false) && Total([]) == 0 == Gains([]) == Losses([])
  {
  }

  lemma {:induction false} RisingSums(values: seq<Value>)
    ensures Total(Rising(values, true)) == Gains(values) && Total(Rising(values, false)) == Losses(values)
    decreases |values|
  {
    hide Rising, Gains, Losses, Total;
    if values == [] {
      NoSums();
    } else {
      var init, v := values[..|values| - 1], values[|values| - 1];
      assert values == init + [v];
      SumsNext(init, v);
      RisingSums(init);
      RisingNext(init, v, true);
      RisingNext(init, v, false);
      SumsNext(Rising(init, Amount(v) > 0), v);
    }
  }

  /** The sum can be computed in every order exactly when gains and losses fit on their own. */
  lemma SumsFitInAnyOrderExactly(values: seq<Value>)
    ensures (forall b :: SameBag(values, b) ==> SumsFit(b)) <==> FitsInAnyOrder(values)
  {
    if FitsInAnyOrder(values) {
      forall b | SameBag(values, b) ensures SumsFit(b) {
        SumsBag(values, b);
        forall k | 0 <= k <= |b| ensures INT32_MIN <= Total(b[..k]) < INT32_LIMIT {
          BetweenSums(b, k);
        }
      }
    }
    RisingBag(values);
    RisingSums(values);
    if forall b :: SameBag(values, b) ==> SumsFit(b) {
      FirstPart(Rising(values, true), Rising(values, false));
      FirstPart(Rising(values, false), Rising(values, true));
    }
  }

  /** A sum that fits passes through the sum of its first part. */
  lemma FirstPart(l: seq<Value>, r: seq<Value>)
    requires SumsFit(l + r)
    ensures INT32_MIN <= Total(l) < INT32_LIMIT
  {
    assert (l + r)[..|l|] == l;
  }

  lemma {:induction false} NonNullIsFlatMap(values: seq<Value>)
    ensures NonNull(values) == FlatMap((v: Value) => if v.Null? then [] else [v], values)
    decreases |values|
  {
    if values != [] {
      NonNullIsFlatMap(values[..|values| - 1]);
    }
  }

  lemma NonNullBag(a: seq<Value>, b: seq<Value>)
    requires SameBag(a, b)
    ensures SameBag(NonNull(a), NonNull(b))
  {
    NonNullIsFlatMap(a);
    NonNullIsFlatMap(b);
    FlatMapBag((v: Value) => if v.Null? then [] else [v], a, b);
  }

  /** What an aggregate means depends on the bag of its inputs only. */
  lemma MeansOnce(kind: AggregationType, a: seq<Value>, b: seq<Value>, t: TypeId, r: Value, r': Value)
    requires SameBag(a, b) && Suits(kind, t) && AllOf(a, t) && Means(kind, a, r) && Means(kind, b, r')
    ensures r == r'
  {
    NonNullBag(a, b);
    SumsBag(a, b);
    SameSize(a, b);
    SameSize(NonNull(a), NonNull(b));
    NonNullOf(a, t);
    if (kind.Min? || kind.Max?) && NonNull(a) != [] {
      SameMembers(NonNull(a), NonNull(b), r);
      SameMembers(NonNull(a), NonNull(b), r');
      LessOrder(r, r', r);
    }
  }

  /** An aggregate that can be computed in every order has the same value in every order. */
  lemma FoldBag(kind: AggregationType, a: seq<Value>, b: seq<Value>, t: TypeId)
    requires SameBag(a, b) && Suits(kind, t) && AllOf(a, t)
    requires Fold(kind, a).Some? && (kind.Sum? ==> FitsInAnyOrder(a))
    ensures Fold(kind, b) == Fold(kind, a)
  {
    forall v | v in b ensures v.Type() == t {
      SameMembers(a, b, v);
    }
    FoldDefinedExactly(kind, a, t);
    FoldDefinedExactly(kind, b, t);
    NonNullBag(a, b);
    SameSize(a, b);
    SameSize(NonNull(a), NonNull(b));
    SumsFitInAnyOrderExactly(a);
    FoldMeans(kind, a, t);
    FoldMeans(kind, b, t);
    MeansOnce(kind, a, b, t, Fold(kind, a).value, Fold(kind, b).value);
  }
}
