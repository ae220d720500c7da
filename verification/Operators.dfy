/** The operators over one input: projection, sorting, limits and aggregation, as plans use them. */
module Operators {
  import opened Types
  import opened Values
  import opened Expressions
  import opened Collections
  import opened Aggregations

  // ---------- Projection ----------

  /** The new row; `None` when an expression raises an exception, or the row cannot be stored. */
  function ProjectedRow(exprs: seq<Expr>, row: Row): Option<Row> {
    var values := EvaluateAll(exprs, row);
    if values.Some? && Storable(values.value) then values else None
  }

  function Projected(exprs: seq<Expr>, rows: seq<Row>): Option<seq<Row>> {
    if rows == [] then Some([]) else
      var n := |rows| - 1;
      var before, last := Projected(exprs, rows[..n]), ProjectedRow(exprs, rows[n]);
      if before.Some? && last.Some? then Some(before.value + [last.value]) else None
  }

  // ---------- Sorting ----------

  datatype OrderBy = OrderBy(ascending: bool, key: Expr)

  /** Whether row `a` goes before row `b`: the first key in which they differ decides. */
  function GoesFirst(orderBys: seq<OrderBy>, a: Row, b: Row): Option<bool> {
    if orderBys == [] then Some(false) else
      var x, y := Evaluate(orderBys[0].key, a), Evaluate(orderBys[0].key, b);
      if x.None? || y.None? then None else
        var same := x.value.CompareEquals(y.value);
        if same.None? then None
        else if same.value then GoesFirst(orderBys[1..], a, b)
        else if orderBys[0].ascending then Less(x.value, y.value) else Less(y.value, x.value)
  }

  /** No comparison that sorting may make raises an exception. */
  ghost predicate Comparable(orderBys: seq<OrderBy>, rows: seq<Row>) {
    |rows| > 1 ==> forall a, b :: a in rows && b in rows ==> GoesFirst(orderBys, a, b).Some?
  }

  /** No row comes after one that it goes before. */
  predicate Ordered(orderBys: seq<OrderBy>, rows: seq<Row>) {
    forall i, j :: 0 <= i < j < |rows| ==> GoesFirst(orderBys, rows[j], rows[i]) == Some(false)
  }

  ghost predicate IsSorting(orderBys: seq<OrderBy>, rows: seq<Row>, sorted: seq<Row>) {
    SameBag(rows, sorted) && Ordered(orderBys, sorted)
  }

  /** The sorted rows; how rows that tie are ordered is left open, but depends on the input only. */
  ghost function Sorted(orderBys: seq<OrderBy>, rows: seq<Row>): (r: Option<seq<Row>>)
    ensures r.Some? ==> IsSorting(orderBys, rows, r.value)
  {
    if Comparable(orderBys, rows) && exists sorted :: IsSorting(orderBys, rows, sorted) then
      var sorted :| IsSorting(orderBys, rows, sorted);
      Some(sorted)
    else None
  }

  // ---------- Limits ----------

  function Limited(count: nat, rows: seq<Row>): (r: seq<Row>)
    ensures r <= rows && |r| <= count && (|r| == count || r == rows)
  {
    if count < |rows| then rows[..count] else rows
  }

  // ---------- Aggregation ----------

  /** `result` has a row for every key, in some order. */
  ghost predicate IsAggregation(groupBys: seq<Expr>, aggregates: seq<Aggregate>, rows: seq<Row>, result: seq<Row>) {
    var entries := EntriesOf(groupBys, aggregates, rows);
    && entries.Some? && Computable(entries.value, aggregates, |groupBys|)
    && exists keys :: IsGrouping(result, entries.value, aggregates, |groupBys|, keys)
  }

  /** The groups; their order is left open, but depends on the input only. */
  ghost function Aggregated(groupBys: seq<Expr>, aggregates: seq<Aggregate>, rows: seq<Row>): (r: Option<seq<Row>>)
    ensures r.Some? ==> IsAggregation(groupBys, aggregates, rows, r.value)
  {
    if exists result :: IsAggregation(groupBys, aggregates, rows, result) then
      var result :| IsAggregation(groupBys, aggregates, rows, result);
      Some(result)
    else None
  }
}
