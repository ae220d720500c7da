/** The running states of the aggregates, against what the aggregates mean. */
module AggregateFolds {
  import opened Types
  import opened Values
  import opened Expressions

  datatype AggregationType = CountStar | Count | Sum | Min | Max

  // ---------- One aggregate ----------

  /** Integer addition; `None` is a type mismatch, or a sum that does not fit. */
  function Add(a: Value, b: Value): Option<Value> {
    if a.Type() == INTEGER && b.Type() == INTEGER && INT32_MIN <= a.AsInteger() + b.AsInteger() < INT32_LIMIT then
      Some(Integer(a.AsInteger() + b.AsInteger()))
    else None
  }

  function Initial(kind: AggregationType): Value {
    if kind.CountStar? || kind.Count? then Integer(0) else Null(INVALID)
  }

  /** `input` replaces `current` if the comparison says so. */
  function Better(current: Value, input: Value, isLess: Option<bool>): Option<Value> {
    if isLess.None? then None else if isLess.value then Some(input) else Some(current)
  }

  /** The running state after one more input. */
  function Feed(kind: AggregationType, current: Value, input: Value): Option<Value> {
    if kind.CountStar? then Add(current, Integer(1))
    else if input.Null? then Some(current)
    else if kind.Count? then Add(current, Integer(1))
    else if current.Null? then Some(input)
    else match kind
      case Sum => Add(current, input)
      case Min => Better(current, input, Less(input, current))
      case _ => Better(current, input, Less(current, input))
  }

  function Fold(kind: AggregationType, inputs: seq<Value>): Option<Value> {
    if inputs == [] then Some(Initial(kind)) else
      var n := |inputs| - 1;
      var before := Fold(kind, inputs[..n]);
      if before.None? then None else Feed(kind, before.value, inputs[n])
  }

  // ---------- What the aggregates mean ----------

  function NonNull(values: seq<Value>): seq<Value> {
    if values == [] then [] else
      var n := |values| - 1;
      NonNull(values[..n]) + if values[n].Null? then [] else [values[n]]
  }

  function Total(values: seq<Value>): int {
    if values == [] then 0 else
      var n := |values| - 1;
      Total(values[..n]) + if values[n].Integer? then values[n].i else 0
  }

  ghost predicate AllOf(values: seq<Value>, t: TypeId) {
    forall v :: v in values ==> v.Type() == t
  }

  /** The type an aggregate can be computed on. */
  predicate Suits(kind: AggregationType, t: TypeId) {
    (kind.Sum? ==> t == INTEGER) && (kind.Min? || kind.Max? ==> t == INTEGER || t == VARCHAR)
  }

  /** `r` is in `values`, and nothing there comes before it. */
  ghost predicate First(values: seq<Value>, r: Value) {
    r in values && forall v :: v in values ==> Less(v, r) == Some(false)
  }

  ghost predicate Last(values: seq<Value>, r: Value) {
    r in values && forall v :: v in values ==> Less(r, v) == Some(false)
  }

  ghost predicate Means(kind: AggregationType, values: seq<Value>, r: Value) {
    if kind.CountStar? then r.Integer? && r.i == |values|
    else if kind.Count? then r.Integer? && r.i == |NonNull(values)|
    else if NonNull(values) == [] then r == Null(INVALID)
    else if kind.Sum? then r.Integer? && r.i == Total(values)
    else if kind.Min? then First(NonNull(values), r)
    else Last(NonNull(values), r)
  }

  lemma TextLessOrder(a: string, b: string, c: string)
    ensures TextLess(a, b) && TextLess(b, c) ==> TextLess(a, c)
    ensures !(TextLess(a, b) && TextLess(b, a))
    ensures a == b || TextLess(a, b) || TextLess(b, a)
    decreases |a|
  {
    if a != [] && b != [] {
      TextLessOrder(a[1..], b[1..], if c == [] then c else c[1..]);
      assert a == [a[0]] + a[1..] && b == [b[0]] + b[1..];
    }
  }

  /** On integers and texts the comparison is a strict total order of the payloads. */
  lemma LessOrder(a: Value, b: Value, c: Value)
    requires a.Type() == b.Type() == c.Type() && Suits(Min, a.Type())
    ensures Less(a, b) == Some(false) && Less(b, c) == Some(false) ==> Less(a, c) == Some(false)
    ensures Less(a, b) == Some(true) ==> Less(b, a) == Some(false)
    ensures Less(a, b) == Some(false) && Less(b, a) == Some(false) <==> a.CompareEquals(b) == Some(true)
    ensures Less(a, b).Some? && Less(a, a) == Some(false)
  {
    if a.Type() == VARCHAR {
      var x, y, z := a.AsString(), b.AsString(), c.AsString();
      TextLessOrder(x, y, z);
      TextLessOrder(y, x, x);
      TextLessOrder(z, y, x);
      TextLessOrder(x, x, x);
      TextLessOrder(y, z, x);
      TextLessOrder(x, z, y);
    }
  }

  lemma {:induction false} NonNullOf(values: seq<Value>, t: TypeId)
    requires AllOf(values, t)
    ensures forall v :: v in NonNull(values) ==> v in values && !v.Null?
    ensures |NonNull(values)| <= |values|
    decreases |values|
  {
    if values != [] {
      NonNullOf(values[..|values| - 1], t);
    }
  }

  lemma {:induction false} NothingTotals(values: seq<Value>)
    ensures NonNull(values) == [] ==> Total(values) == 0
    decreases |values|
  {
    if values != [] {
      NothingTotals(values[..|values| - 1]);
    }
  }

  /** The running state means what the aggregate stands for. */
  lemma {:induction false} FoldMeans(kind: AggregationType, values: seq<Value>, t: TypeId)
    requires Suits(kind, t) && AllOf(values, t) && Fold(kind, values).Some?
    ensures Means(kind, values, Fold(kind, values).value)
    decreases |values|
  {
    if values != [] {
      var n := |values| - 1;
      FoldMeans(kind, values[..n], t);
      NonNullOf(values[..n], t);
      FeedMeans(kind, values[..n], values[n], t, Fold(kind, values[..n]).value);
      assert values == values[..n] + [values[n]];
    }
  }

  lemma FeedMeans(kind: AggregationType, values: seq<Value>, v: Value, t: TypeId, r: Value)
    requires Suits(kind, t) && AllOf(values, t) && v.Type() == t && Means(kind, values, r) && Feed(kind, r, v).Some?
    ensures Means(kind, values + [v], Feed(kind, r, v).value)
  {
    NonNullOf(values, t);
    NothingTotals(values);
    assert (values + [v])[..|values|] == values;
    if (kind.Min? || kind.Max?) && !v.Null? {
      LessOrder(v, v, v);
      forall w | w in NonNull(values)
        ensures Less(w, r) == Some(false) && Less(r, v) == Some(false) ==> Less(w, v) == Some(false)
        ensures Less(v, r) == Some(false) && Less(r, w) == Some(false) ==> Less(v, w) == Some(false)
      {
        LessOrder(w, r, v);
        LessOrder(v, r, w);
      }
      if NonNull(values) != [] {
        LessOrder(v, r, r);
        LessOrder(r, v, v);
      }
    }
  }

  /** No sum on the way leaves the integers of 32 bits. */
  ghost predicate SumsFit(values: seq<Value>) {
    forall k :: 0 <= k <= |values| ==> INT32_MIN <= Total(values[..k]) < INT32_LIMIT
  }

  lemma SumsFitNext(values: seq<Value>)
    requires values != []
    ensures var n := |values| - 1;
            SumsFit(values) <==> SumsFit(values[..n]) && INT32_MIN <= Total(values) < INT32_LIMIT
  {
    var n := |values| - 1;
    assert values[..n + 1] == values;
    assert forall k :: 0 <= k <= n ==> values[..n][..k] == values[..k];
    if SumsFit(values) {
      forall k | 0 <= k <= n ensures INT32_MIN <= Total(values[..n][..k]) < INT32_LIMIT {
        assert INT32_MIN <= Total(values[..k]) < INT32_LIMIT;
      }
      assert INT32_MIN <= Total(values[..n + 1]) < INT32_LIMIT;
    }
    if SumsFit(values[..n]) && INT32_MIN <= Total(values) < INT32_LIMIT {
      forall k | 0 <= k <= n + 1 ensures INT32_MIN <= Total(values[..k]) < INT32_LIMIT {
        assert k <= n ==> INT32_MIN <= Total(values[..n][..k]) < INT32_LIMIT;
      }
    }
  }

  /** When an aggregate of suitable type can be computed. */
  ghost predicate CanFold(kind: AggregationType, values: seq<Value>) {
    && (kind.CountStar? ==> |values| < INT32_LIMIT)
    && (kind.Count? ==> |NonNull(values)| < INT32_LIMIT)
    && (kind.Sum? ==> SumsFit(values))
  }

  lemma {:induction false} FoldDefinedExactly(kind: AggregationType, values: seq<Value>, t: TypeId)
    requires Suits(kind, t) && AllOf(values, t)
    ensures Fold(kind, values).Some? <==> CanFold(kind, values)
    decreases |values|
  {
    if values == [] {
      assert SumsFit(values);
    } else {
      var n := |values| - 1;
      FoldDefinedExactly(kind, values[..n], t);
      SumsFitNext(values);
      NonNullNext(values[..n], values[n]);
      if Fold(kind, values[..n]).Some? {
        FoldMeans(kind, values[..n], t);
        FeedDefined(kind, values[..n], values[n], t, Fold(kind, values[..n]).value);
        assert values == values[..n] + [values[n]];
      } else {
        assert values == values[..n] + [values[n]];
      }
    }
  }

  lemma NonNullNext(values: seq<Value>, v: Value)
    ensures NonNull(values + [v]) == NonNull(values) + if v.Null? then [] else [v]
  {
    assert (values + [v])[..|values|] == values;
  }

  lemma FeedDefined(kind: AggregationType, values: seq<Value>, v: Value, t: TypeId, r: Value)
    requires Suits(kind, t) && AllOf(values, t) && v.Type() == t && Means(kind, values, r)
    requires kind.Sum? ==> INT32_MIN <= Total(values) < INT32_LIMIT
    ensures Feed(kind, r, v).Some? <==>
              && (kind.CountStar? ==> |values| + 1 < INT32_LIMIT)
              && (kind.Count? ==> |NonNull(values + [v])| < INT32_LIMIT)
              && (kind.Sum? ==> INT32_MIN <= Total(values + [v]) < INT32_LIMIT)
  {
    hide NonNull, Total, TextLess;
    NonNullOf(values, t);
    NonNullNext(values, v);
    NothingTotals(values);
    TotalNext(values, v);
    if (kind.Min? || kind.Max?) && !v.Null? && NonNull(values) != [] {
      LessOrder(v, r, r);
      LessOrder(r, v, v);
    }
  }

  lemma TotalNext(values: seq<Value>, v: Value)
    ensures Total(values + [v]) == Total(values) + if v.Integer? then v.i else 0
  {
    assert (values + [v])[..|values|] == values;
  }
}
