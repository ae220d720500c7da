/** Expressions over rows, as far as the optimizer and the joins tell them apart. */
module Expressions {
  import opened Types
  import opened Values

  type Row = seq<Value>

  datatype ComparisonType = Equal | NotEqual | LessThan | LessThanOrEqual | GreaterThan | GreaterThanOrEqual

  datatype Expr =
    | Column(tupleIdx: nat, col: nat)
    | Constant(value: Value)
    | Comparison(comparison: ComparisonType, left: Expr, right: Expr)
    | Other(onRow: Row -> Option<Value>, onPair: (Row, Row) -> Option<Value>)   // arithmetic and logic

  predicate TextLess(a: string, b: string) {
    b != [] && (a == [] || a[0] < b[0] || (a[0] == b[0] && TextLess(a[1..], b[1..])))
  }

  /** The strict order on the payloads of two values; `None` is an exception. */
  function Less(a: Value, b: Value): Option<bool> {
    if a.Type() != b.Type() then None else
      match a.Type()
      case INTEGER => Some(a.AsInteger() < b.AsInteger())
      case VARCHAR => Some(TextLess(a.AsString(), b.AsString()))
      case _ => None
  }

  function Negate(b: Option<bool>): Option<bool> {
    if b.Some? then Some(!b.value) else None
  }

  function Compare(comparison: ComparisonType, a: Value, b: Value): Option<Value> {
    var outcome :=
      match comparison
      case Equal => a.CompareEquals(b)
      case NotEqual => Negate(a.CompareEquals(b))
      case LessThan => Less(a, b)
      case LessThanOrEqual => Negate(Less(b, a))
      case GreaterThan => Less(b, a)
      case GreaterThanOrEqual => Negate(Less(a, b));
    if outcome.Some? then Some(Boolean(outcome.value)) else None
  }

  function CompareResults(comparison: ComparisonType, a: Option<Value>, b: Option<Value>): Option<Value> {
    if a.Some? && b.Some? then Compare(comparison, a.value, b.value) else None
  }

  function Cell(row: Row, col: nat): Option<Value> {
    if col < |row| then Some(row[col]) else None
  }

  /** The value on one row; `None` is an exception. */
  function Evaluate(e: Expr, row: Row): Option<Value> {
    match e
    case Column(_, col) => Cell(row, col)
    case Constant(value) => Some(value)
    case Comparison(comparison, left, right) =>
      CompareResults(comparison, Evaluate(left, row), Evaluate(right, row))
    case Other(onRow, _) => onRow(row)
  }

  /** The value on a pair of rows; tuple index 0 is the left one. */
  function EvaluateJoin(e: Expr, l: Row, r: Row): Option<Value> {
    match e
    case Column(tupleIdx, col) => Cell(if tupleIdx == 0 then l else r, col)
    case Constant(value) => Some(value)
    case Comparison(comparison, left, right) =>
      CompareResults(comparison, EvaluateJoin(left, l, r), EvaluateJoin(right, l, r))
    case Other(_, onPair) => onPair(l, r)
  }

  /** A predicate may yield a Boolean or a null; anything else is an exception. */
  predicate IsVerdict(v: Option<Value>) {
    v.Some? && (v.value.Null? || v.value.Boolean?)
  }

  function EvaluateAll(es: seq<Expr>, row: Row): (r: Option<seq<Value>>)
    ensures r.Some? ==> |r.value| == |es|
  {
    if es == [] then Some([]) else
      var n := |es| - 1;
      var before, last := EvaluateAll(es[..n], row), Evaluate(es[n], row);
      if before.Some? && last.Some? then Some(before.value + [last.value]) else None
  }

  /** Value `i` is that of expression `i`, and there is an exception if any of them raises one. */
  lemma {:induction false} EvaluatedMeans(es: seq<Expr>, row: Row)
    ensures EvaluateAll(es, row).Some? <==> forall i :: 0 <= i < |es| ==> Evaluate(es[i], row).Some?
    ensures var values := EvaluateAll(es, row);
            values.Some? ==> forall i :: 0 <= i < |es| ==> Evaluate(es[i], row) == Some(values.value[i])
    decreases |es|
  {
    if es != [] {
      var n := |es| - 1;
      EvaluatedMeans(es[..n], row);
      assert forall i :: 0 <= i < n ==> es[..n][i] == es[i];
    }
  }

  /** A tuple cannot be made of values without a type. */
  predicate Storable(row: Row) {
    forall i :: 0 <= i < |row| ==> row[i].Type() != INVALID
  }

  // ---------- Integer keys ----------

  predicate HasKey(row: Row, col: nat) {
    col < |row| && row[col].Type() == INTEGER
  }

  predicate KeyIs(row: Row, col: nat, key: int) {
    HasKey(row, col) && row[col].AsInteger() == key
  }
}
