/** Query plans, what they compute over a database, and the optimizer's rewriting of them. */
module Plans {
  import opened Types
  import opened Values
  import opened Expressions
  import opened Joins
  import opened Operators
  import Aggregations

  // ---------- The database ----------

  /** A row of a table and where it is stored. */
  datatype Stored = Stored(rid: Rid, row: Row)

  datatype Index = Index(oid: nat, lookupAttr: nat, pointLookup: bool, entries: map<int, seq<Rid>>)

  /** A table: its rows in scan order and its indexes in the order the catalog lists them. */
  datatype Table = Table(rows: seq<Stored>, indexes: seq<Index>)

  type Database = map<nat, Table>

  // ---------- Plans ----------

  datatype Operator =
    | SeqScan(table: nat, condition: Option<Expr>)
    | IndexScan(table: nat, index: nat, key: Expr, condition: Option<Expr>)
    | NestedLoop(condition: Option<Expr>)
    | Hash(leftKey: Expr, rightKey: Expr)
    | Projection(exprs: seq<Expr>)
    | Sort(orderBys: seq<OrderBy>)
    | Aggregation(groupBys: seq<Expr>, aggregates: seq<Aggregations.Aggregate>)
    | Limit(count: nat)

  datatype Plan = Plan(operator: Operator, children: seq<Plan>)

  // ---------- Scans ----------

  predicate Keeps(condition: Option<Expr>, row: Row) {
    condition.None? || Evaluate(condition.value, row) == Some(Boolean(true))
  }

  ghost predicate ScanDefined(rows: seq<Stored>, condition: Option<Expr>) {
    forall i :: 0 <= i < |rows| ==> condition.None? || IsVerdict(Evaluate(condition.value, rows[i].row))
  }

  function Filtered(rows: seq<Stored>, condition: Option<Expr>): seq<Stored> {
    if rows == [] then [] else
      var n := |rows| - 1;
      Filtered(rows[..n], condition) + if Keeps(condition, rows[n].row) then [rows[n]] else []
  }

  function RowsOf(rows: seq<Stored>): (r: seq<Row>)
    ensures |r| == |rows| && forall i :: 0 <= i < |rows| ==> r[i] == rows[i].row
  {
    seq(|rows|, i requires 0 <= i < |rows| => rows[i].row)
  }

  /** The row stored at `rid`. */
  function RowAt(rows: seq<Stored>, rid: Rid): Option<Row> {
    if rows == [] then None
    else if rows[0].rid == rid then Some(rows[0].row)
    else RowAt(rows[1..], rid)
  }

  function FetchAll(rows: seq<Stored>, rids: seq<Rid>): Option<seq<Row>> {
    if rids == [] then Some([]) else
      var n := |rids| - 1;
      var before, last := FetchAll(rows, rids[..n]), RowAt(rows, rids[n]);
      if before.Some? && last.Some? then Some(before.value + [last.value]) else None
  }

  function FindIndex(indexes: seq<Index>, oid: nat): Option<Index> {
    if indexes == [] then None
    else if indexes[0].oid == oid then Some(indexes[0])
    else FindIndex(indexes[1..], oid)
  }

  function Lookup(index: Index, key: int): seq<Rid> {
    if key in index.entries then index.entries[key] else []
  }

  // ---------- What a plan computes ----------

  /** The rows that a plan yields; `None` when its execution raises an exception. */
  ghost function Run(db: Database, plan: Plan): Option<seq<Row>> {
    match plan.operator
    case SeqScan(table, condition) =>
      if table in db && ScanDefined(db[table].rows, condition) then Some(RowsOf(Filtered(db[table].rows, condition)))
      else None
    case IndexScan(table, oid, key, _) =>
      if table in db then RunIndexScan(db[table], oid, Evaluate(key, [])) else None
    case NestedLoop(condition) =>
      if |plan.children| != 2 then None else
        RunNested(Run(db, plan.children[0]), Run(db, plan.children[1]), condition)
    case Hash(leftKey, rightKey) =>
      if |plan.children| != 2 then None else
        RunHash(Run(db, plan.children[0]), Run(db, plan.children[1]), leftKey, rightKey)
    case _ =>
      if |plan.children| != 1 then None else
        var rows := Run(db, plan.children[0]);
        if rows.Some? then Applied(plan.operator, rows.value) else None
  }

  function RunIndexScan(table: Table, oid: nat, key: Option<Value>): Option<seq<Row>> {
    var index := FindIndex(table.indexes, oid);
    if index.Some? && key.Some? && key.value.Type() == INTEGER then
      FetchAll(table.rows, Lookup(index.value, key.value.AsInteger()))
    else None
  }

  /** What an operator over one input makes of its rows. */
  ghost function Applied(operator: Operator, rows: seq<Row>): Option<seq<Row>> {
    match operator
    case Projection(exprs) => Projected(exprs, rows)
    case Sort(orderBys) => Sorted(orderBys, rows)
    case Aggregation(groupBys, aggregates) => Aggregated(groupBys, aggregates, rows)
    case Limit(count) => Some(Limited(count, rows))
    case _ => None
  }

  /** Without a left row the right side does not run. */
  ghost function RunNested(left: Option<seq<Row>>, right: Option<seq<Row>>, condition: Option<Expr>): Option<seq<Row>> {
    if left == Some([]) then left
    else if left.Some? && right.Some? && JoinDefined(left.value, right.value, condition) then
      Some(Nested(left.value, right.value, condition))
    else None
  }

  ghost function RunHash(left: Option<seq<Row>>, right: Option<seq<Row>>, leftKey: Expr, rightKey: Expr): Option<seq<Row>> {
    if left.Some? && right.Some? && KeysDefined(left.value, leftKey) && KeysDefined(right.value, rightKey) then
      Some(Hashed(left.value, right.value, leftKey, rightKey))
    else None
  }

  // ---------- The optimizer ----------

  /** The column and the constant of a condition `column = constant`, written either way round. */
  function PointLookup(condition: Option<Expr>): Option<(nat, Expr)> {
    match condition
    case Some(Comparison(Equal, Column(_, col), Constant(v))) => Some((col, Constant(v)))
    case Some(Comparison(Equal, Constant(v), Column(_, col))) => Some((col, Constant(v)))
    case _ => None
  }

  /** The first index that looks up integers in column `col`. */
  function UsableIndex(indexes: seq<Index>, col: nat): (r: Option<Index>)
    ensures r.Some? ==> r.value in indexes && r.value.pointLookup && r.value.lookupAttr == col
  {
    if indexes == [] then None
    else if indexes[0].pointLookup && indexes[0].lookupAttr == col then Some(indexes[0])
    else UsableIndex(indexes[1..], col)
  }

  function SeqScanToIndexScan(catalog: Option<Database>, plan: Plan): Plan {
    if catalog.None? || !plan.operator.SeqScan? then plan else
      var lookup := PointLookup(plan.operator.condition);
      if lookup.None? || plan.operator.table !in catalog.value then plan else
        var index := UsableIndex(catalog.value[plan.operator.table].indexes, lookup.value.0);
        if index.None? then plan else
          Plan(IndexScan(plan.operator.table, index.value.oid, lookup.value.1, plan.operator.condition), [])
  }

  /** The columns of a condition `left.i = right.j`, written either way round. */
  function JoinColumns(condition: Option<Expr>): (r: Option<(nat, nat)>)
    ensures r.Some? ==> condition.Some? && IsColumnEquality(condition.value, r.value.0, r.value.1)
  {
    match condition
    case Some(Comparison(Equal, Column(a, i), Column(b, j))) =>
      if a == 0 && b == 1 then Some((i, j)) else if a == 1 && b == 0 then Some((j, i)) else None
    case _ => None
  }

  function NestedLoopToHash(plan: Plan): Plan {
    if !plan.operator.NestedLoop? then plan else
      var columns := JoinColumns(plan.operator.condition);
      if columns.None? then plan else Plan(Hash(Column(0, columns.value.0), Column(0, columns.value.1)), plan.children)
  }

  function Optimized(catalog: Option<Database>, plan: Plan): Plan {
    var children := seq(|plan.children|, i requires 0 <= i < |plan.children| => Optimized(catalog, plan.children[i]));
    NestedLoopToHash(SeqScanToIndexScan(catalog, Plan(plan.operator, children)))
  }

  /** Rewrites the children one after the other, and then the node itself. */
  method Optimize(catalog: Option<Database>, plan: Plan) returns (result: Plan)
    ensures result == Optimized(catalog, plan)
    decreases plan
  {
    result := plan;
    for i := 0 to |plan.children|
      invariant result.operator == plan.operator && |result.children| == |plan.children|
      invariant forall k :: 0 <= k < i ==> result.children[k] == Optimized(catalog, plan.children[k])
      invariant forall k :: i <= k < |plan.children| ==> result.children[k] == plan.children[k]
    {
      var child := Optimize(catalog, result.children[i]);
      result := result.(children := result.children[i := child]);
    }
    assert result.children == seq(|plan.children|, i requires 0 <= i < |plan.children| => Optimized(catalog, plan.children[i]));
    result := SeqScanToIndexScan(catalog, result);
    result := NestedLoopToHash(result);
  }
}
