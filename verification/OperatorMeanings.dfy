/** What the operators of a plan yield, row by row and cell by cell, and which nodes the optimizer rewrites. */
module OperatorMeanings {
  import opened Types
  import opened Values
  import opened Expressions
  import opened Comparisons
  import opened Collections
  import opened Joins
  import opened Operators
  import opened Plans
  import opened Aggregations
  import AggregateFolds
  import GroupKeys
  import Bags

  // ---------- Scans ----------

  /** A scan yields the rows that satisfy its condition, in their order. */
  lemma {:induction false} FilteredMeans(rows: seq<Stored>, condition: Option<Expr>) returns (positions: seq<nat>)
    ensures |positions| == |Filtered(rows, condition)|
    ensures forall k :: 0 <= k < |positions| ==> positions[k] < |rows| && Filtered(rows, condition)[k] == rows[positions[k]]
    ensures forall a, b :: 0 <= a < b < |positions| ==> positions[a] < positions[b]
    ensures forall j: nat :: j in positions <==>
              j < |rows| && (condition.Some? ==> Evaluate(condition.value, rows[j].row) == Some(Boolean(true)))
    decreases |rows|
  {
    positions := [];
    if rows != [] {
      var n := |rows| - 1;
      positions := FilteredMeans(rows[..n], condition);
      if Keeps(condition, rows[n].row) {
        positions := positions + [n];
      }
    }
  }

  /** An index scan yields, in the order of the list, the rows stored at the ids on it; a missing one is an exception. */
  lemma {:induction false} FetchedMeans(rows: seq<Stored>, rids: seq<Rid>)
    requires Bags.DistinctRids(rows)
    ensures FetchAll(rows, rids).Some? <==> forall k :: 0 <= k < |rids| ==> exists i :: 0 <= i < |rows| && rows[i].rid == rids[k]
    ensures var fetched := FetchAll(rows, rids);
            fetched.Some? ==>
              && |fetched.value| == |rids|
              && forall k, i :: 0 <= k < |rids| && 0 <= i < |rows| && rows[i].rid == rids[k] ==> fetched.value[k] == rows[i].row
    decreases |rids|
  {
    if rids != [] {
      var n := |rids| - 1;
      FetchedMeans(rows, rids[..n]);
      RowAtMeans(rows, rids[n]);
      assert forall k :: 0 <= k < n ==> rids[..n][k] == rids[k];
      assert rids[n] == rids[|rids| - 1];
    }
  }

  lemma {:induction false} RowAtMeans(rows: seq<Stored>, rid: Rid)
    requires Bags.DistinctRids(rows)
    ensures RowAt(rows, rid).Some? <==> exists i :: 0 <= i < |rows| && rows[i].rid == rid
    ensures forall i :: 0 <= i < |rows| && rows[i].rid == rid ==> RowAt(rows, rid) == Some(rows[i].row)
    decreases |rows|
  {
    if rows != [] && rows[0].rid != rid {
      RowAtMeans(rows[1..], rid);
      if exists i :: 0 <= i < |rows| && rows[i].rid == rid {
        var i :| 0 <= i < |rows| && rows[i].rid == rid;
        assert rows[1..][i - 1].rid == rid;
      }
    }
  }

  // ---------- Projection ----------

  /** Cell `i` of the new row is the value of expression `i`. */
  ghost predicate CellsAre(exprs: seq<Expr>, row: Row, projected: Row) {
    |projected| == |exprs| && forall i :: 0 <= i < |exprs| ==> Evaluate(exprs[i], row) == Some(projected[i])
  }

  lemma ProjectedRowMeans(exprs: seq<Expr>, row: Row)
    ensures ProjectedRow(exprs, row).Some? <==>
              forall i :: 0 <= i < |exprs| ==> var v := Evaluate(exprs[i], row); v.Some? && v.value.Type() != INVALID
    ensures var projected := ProjectedRow(exprs, row);
            projected.Some? ==> CellsAre(exprs, row, projected.value)
  {
    EvaluatedMeans(exprs, row);
  }

  /** Cell `i` of every row is the value of expression `i` on that row; it is an exception if there is none, or it has no type. */
  lemma {:induction false} ProjectedMeans(exprs: seq<Expr>, rows: seq<Row>)
    ensures Projected(exprs, rows).Some? <==>
              forall k, i :: 0 <= k < |rows| && 0 <= i < |exprs| ==>
                var v := Evaluate(exprs[i], rows[k]); v.Some? && v.value.Type() != INVALID
    ensures var projected := Projected(exprs, rows);
            projected.Some? ==>
              && |projected.value| == |rows|
              && forall k :: 0 <= k < |rows| ==> CellsAre(exprs, rows[k], projected.value[k])
    decreases |rows|
  {
    hide Evaluate, ProjectedRow, Value.Type, CellsAre;
    if rows != [] {
      var n := |rows| - 1;
      ProjectedMeans(exprs, rows[..n]);
      ProjectedRowMeans(exprs, rows[n]);
      assert forall k :: 0 <= k < n ==> rows[..n][k] == rows[k];
    }
  }

  // ---------- Sorting ----------

  /** The comparison that puts a row before another by a key, in the direction of the key. */
  function Direction(orderBy: OrderBy): ComparisonType {
    if orderBy.ascending then LessThan else GreaterThan
  }

  /** The rows are alike in the first `k` keys and differ in the next one, in which `a` comes first. */
  ghost predicate FirstBy(orderBys: seq<OrderBy>, a: Row, b: Row, k: nat) {
    && k < |orderBys|
    && (forall j :: 0 <= j < k ==>
          CompareResults(Equal, Evaluate(orderBys[j].key, a), Evaluate(orderBys[j].key, b)) == Some(Boolean(true)))
    && CompareResults(Direction(orderBys[k]), Evaluate(orderBys[k].key, a), Evaluate(orderBys[k].key, b)) == Some(Boolean(true))
  }

  /** One row goes before another exactly by the first key in which they differ, in the direction of that key. */
  lemma {:induction false} GoesFirstMeans(orderBys: seq<OrderBy>, a: Row, b: Row)
    requires GoesFirst(orderBys, a, b).Some?
    ensures GoesFirst(orderBys, a, b) == Some(true) <==> exists k: nat :: FirstBy(orderBys, a, b, k)
    decreases |orderBys|
  {
    if orderBys == [] {
      assert forall k: nat :: !FirstBy(orderBys, a, b, k);
    } else {
      var x, y := Evaluate(orderBys[0].key, a).value, Evaluate(orderBys[0].key, b).value;
      CompareMeans(LessThan, x, y);
      CompareMeans(GreaterThan, x, y);
      if x.CompareEquals(y) == Some(true) {
        hide Compare;
        GoesFirstMeans(orderBys[1..], a, b);
        NotItself(x, y);
        forall k: nat ensures FirstBy(orderBys, a, b, k) <==> k > 0 && FirstBy(orderBys[1..], a, b, k - 1) {
          FirstByNext(orderBys, a, b, k);
        }
        if exists k: nat :: FirstBy(orderBys[1..], a, b, k) {
          var k: nat :| FirstBy(orderBys[1..], a, b, k);
          assert FirstBy(orderBys, a, b, k + 1);
        }
      } else {
        assert forall k: nat :: FirstBy(orderBys, a, b, k) ==> k == 0;
        assert GoesFirst(orderBys, a, b) == Some(true) ==> FirstBy(orderBys, a, b, 0);
      }
    }
  }

  /** Alike in the first key, the rows are told apart by the others. */
  lemma FirstByNext(orderBys: seq<OrderBy>, a: Row, b: Row, k: nat)
    requires orderBys != [] && Evaluate(orderBys[0].key, a).Some? && Evaluate(orderBys[0].key, b).Some?
    requires var x, y := Evaluate(orderBys[0].key, a).value, Evaluate(orderBys[0].key, b).value;
             && Compare(Equal, x, y) == Some(Boolean(true))
             && Compare(LessThan, x, y) != Some(Boolean(true)) && Compare(GreaterThan, x, y) != Some(Boolean(true))
    ensures FirstBy(orderBys, a, b, k) <==> k > 0 && FirstBy(orderBys[1..], a, b, k - 1)
  {
    hide Compare, Evaluate;
    var rest := orderBys[1..];
    if k > 0 && FirstBy(rest, a, b, k - 1) {
      assert orderBys[k] == rest[k - 1];
      assert forall j :: 0 < j < k ==> orderBys[j] == rest[j - 1];
    }
    if k > 0 && FirstBy(orderBys, a, b, k) {
      assert rest[k - 1] == orderBys[k];
      assert forall j :: 0 <= j < k - 1 ==> rest[j] == orderBys[j + 1];
    }
  }

  /** Values that compare as equal are not one before the other. */
  lemma NotItself(x: Value, y: Value)
    requires x.CompareEquals(y) == Some(true)
    ensures Compare(Equal, x, y) == Some(Boolean(true))
    ensures Compare(LessThan, x, y) != Some(Boolean(true)) && Compare(GreaterThan, x, y) != Some(Boolean(true))
  {
    if x.Type() == VARCHAR {
      AggregateFolds.TextLessOrder(x.AsString(), y.AsString(), x.AsString());
    }
  }

  /** Sorted by one integer column, the rows rise, or fall, in that column. */
  lemma SortedByColumn(ascending: bool, tupleIdx: nat, col: nat, rows: seq<Row>, sorted: seq<Row>, i: nat, j: nat, x: int32, y: int32)
    requires Sorted([OrderBy(ascending, Column(tupleIdx, col))], rows) == Some(sorted)
    requires i < j < |sorted| && CellIs(sorted[i], col, x) && CellIs(sorted[j], col, y)
    ensures if ascending then x <= y else x >= y
  {
    var orderBys := [OrderBy(ascending, Column(tupleIdx, col))];
    assert GoesFirst(orderBys, sorted[j], sorted[i]) == Some(false);
    assert orderBys[1..] == [];
  }

  // ---------- Aggregation ----------

  /**
   In a plan, too, an aggregation that can be computed is the group-by of its rows exactly when no
   two groups share a key, and with column types whose keys can be read back it means what it says.
   */
  lemma AggregatedMeans(groupBys: seq<Expr>, aggregates: seq<Aggregate>, rows: seq<Row>, result: seq<Row>)
    requires Aggregated(groupBys, aggregates, rows) == Some(result)
    ensures GroupsOfRows(groupBys, aggregates, rows, result) <==> KeysApart(groupBys, rows)
    ensures forall types, nullText, inputTypes ::
              GroupKeys.Readable(types, nullText) && RowsTyped(groupBys, aggregates, rows, types, nullText, inputTypes) ==>
                GroupsOfRows(groupBys, aggregates, rows, result) && AggregatesMean(groupBys, aggregates, rows, result)
  {
    hide IsGrouping, GroupsOfRows, KeysApart, RowsTyped, Computable, EntriesOf, Outcome, GroupKeys.Readable, AggregateFolds.Means, ValuesOn;
    var entries := EntriesOf(groupBys, aggregates, rows).value;
    ComputableFolds(entries, aggregates, |groupBys|);
    var keys :| IsGrouping(result, entries, aggregates, |groupBys|, keys);
    GroupsExactly(result, entries, aggregates, |groupBys|, keys);
    GroupByOnRows(groupBys, aggregates, rows, entries, result);
    ApartOnRows(groupBys, aggregates, rows, entries);
    forall types, nullText, inputTypes |
      GroupKeys.Readable(types, nullText) && RowsTyped(groupBys, aggregates, rows, types, nullText, inputTypes)
      ensures GroupsOfRows(groupBys, aggregates, rows, result) && AggregatesMean(groupBys, aggregates, rows, result)
    {
      AggregationOnRows(groupBys, aggregates, rows, entries, result, keys, types, nullText, inputTypes);
    }
  }

  lemma ComputableFolds(entries: seq<Entry>, aggregates: seq<Aggregate>, width: nat)
    requires Sized(entries, width, |aggregates|) && Computable(entries, aggregates, width)
    ensures FoldsDefined(entries, aggregates, width)
  {
  }

  // ---------- The optimizer ----------

  /** A nested-loop join becomes a hash join on the two columns exactly when its condition equates a left column with a right one. */
  lemma HashChosenExactly(condition: Option<Expr>, children: seq<Plan>, i: nat, j: nat)
    ensures NestedLoopToHash(Plan(NestedLoop(condition), children)) == Plan(Hash(Column(0, i), Column(0, j)), children) <==>
              (condition.Some? && IsColumnEquality(condition.value, i, j))
    ensures NestedLoopToHash(Plan(NestedLoop(condition), children)) == Plan(NestedLoop(condition), children) <==>
              forall i: nat, j: nat :: !(condition.Some? && IsColumnEquality(condition.value, i, j))
  {
    var columns := JoinColumns(condition);
    if columns.Some? {
      assert IsColumnEquality(condition.value, columns.value.0, columns.value.1);
    }
  }

  /** A condition `column = constant`, written either way round, with `t` for the input that the column is of. */
  predicate IsPoint(condition: Option<Expr>, t: nat, col: nat, v: Value) {
    condition == Some(Comparison(Equal, Column(t, col), Constant(v))) || condition == Some(Comparison(Equal, Constant(v), Column(t, col)))
  }

  /** Index `n` is the first that looks up integers in column `col`. */
  predicate FirstUsable(indexes: seq<Index>, col: nat, n: nat) {
    && n < |indexes| && indexes[n].pointLookup && indexes[n].lookupAttr == col
    && forall m :: 0 <= m < n ==> !(indexes[m].pointLookup && indexes[m].lookupAttr == col)
  }

  lemma {:induction false} UsableIsFirst(indexes: seq<Index>, col: nat)
    ensures match UsableIndex(indexes, col)
            case None => forall n: nat :: !FirstUsable(indexes, col, n)
            case Some(index) => exists n: nat :: FirstUsable(indexes, col, n) && index == indexes[n]
    decreases |indexes|
  {
    if indexes != [] {
      if indexes[0].pointLookup && indexes[0].lookupAttr == col {
        assert FirstUsable(indexes, col, 0);
      } else {
        UsableIsFirst(indexes[1..], col);
        forall n: nat ensures FirstUsable(indexes, col, n) <==> n > 0 && FirstUsable(indexes[1..], col, n - 1) {
          assert n > 0 && n < |indexes| ==> indexes[n] == indexes[1..][n - 1];
          assert forall m :: 0 < m < n && n < |indexes| ==> indexes[m] == indexes[1..][m - 1];
          assert FirstUsable(indexes, col, n) ==> forall m :: 0 <= m < n - 1 ==> indexes[1..][m] == indexes[m + 1];
        }
        if exists n: nat :: FirstUsable(indexes[1..], col, n) {
          var n: nat :| FirstUsable(indexes[1..], col, n) && (UsableIndex(indexes, col).Some? ==> UsableIndex(indexes, col).value == indexes[1..][n]);
          assert FirstUsable(indexes, col, n + 1);
        }
      }
    }
  }

  lemma LookupIsPoint(condition: Option<Expr>) returns (t: nat)
    requires PointLookup(condition).Some?
    ensures var (col, e) := PointLookup(condition).value;
            e.Constant? && IsPoint(condition, t, col, e.value)
  {
    match condition
    case Some(Comparison(_, left, right)) =>
      t := if left.Column? then left.tupleIdx else right.tupleIdx;
  }

  /**
   A scan becomes an index scan exactly when its condition equates a column with a constant and
   the catalog has an index that looks up integers in that column: the first such index, for that constant.
   */
  lemma IndexChosenExactly(catalog: Database, table: nat, condition: Option<Expr>, children: seq<Plan>)
    ensures var scan := Plan(SeqScan(table, condition), children);
            && (forall t: nat, col: nat, v: Value, n: nat ::
                  IsPoint(condition, t, col, v) && table in catalog && FirstUsable(catalog[table].indexes, col, n) ==>
                    SeqScanToIndexScan(Some(catalog), scan) ==
                    Plan(IndexScan(table, catalog[table].indexes[n].oid, Constant(v), condition), []))
            && (SeqScanToIndexScan(Some(catalog), scan) == scan <==>
                  forall t: nat, col: nat, v: Value, n: nat ::
                    !(IsPoint(condition, t, col, v) && table in catalog && FirstUsable(catalog[table].indexes, col, n)))
  {
    if table in catalog {
      var indexes := catalog[table].indexes;
      forall col: nat, n: nat, m: nat | FirstUsable(indexes, col, n) && FirstUsable(indexes, col, m) ensures n == m {
      }
      var lookup := PointLookup(condition);
      if lookup.Some? {
        UsableIsFirst(indexes, lookup.value.0);
        var t := LookupIsPoint(condition);
      }
    }
  }

  /** A node that the optimizer would rewrite. */
  ghost predicate Rewritable(catalog: Database, operator: Operator) {
    match operator
    case NestedLoop(condition) => exists i: nat, j: nat :: condition.Some? && IsColumnEquality(condition.value, i, j)
    case SeqScan(table, condition) =>
      table in catalog && exists t: nat, col: nat, v: Value, n: nat :: IsPoint(condition, t, col, v) && FirstUsable(catalog[table].indexes, col, n)
    case _ => false
  }

  /** No node of the plan is one that the optimizer would rewrite. */
  ghost predicate NothingLeft(catalog: Database, plan: Plan) {
    !Rewritable(catalog, plan.operator) && forall i :: 0 <= i < |plan.children| ==> NothingLeft(catalog, plan.children[i])
  }

  /** One pass rewrites all there is to rewrite, anywhere in the plan. */
  lemma {:induction false} OptimizedCompletely(catalog: Database, plan: Plan)
    ensures NothingLeft(catalog, Optimized(Some(catalog), plan))
    decreases plan
  {
    hide Rewritable;
    forall i | 0 <= i < |plan.children| ensures NothingLeft(catalog, Optimized(Some(catalog), plan.children[i])) {
      OptimizedCompletely(catalog, plan.children[i]);
    }
    var children := seq(|plan.children|, i requires 0 <= i < |plan.children| => Optimized(Some(catalog), plan.children[i]));
    NodeRewritten(catalog, Plan(plan.operator, children));
  }

  lemma NodeRewritten(catalog: Database, plan: Plan)
    ensures var result := NestedLoopToHash(SeqScanToIndexScan(Some(catalog), plan));
            !Rewritable(catalog, result.operator) && (result.children == plan.children || result.children == [])
  {
    match plan.operator
    case NestedLoop(condition) =>
      if Rewritable(catalog, plan.operator) {
        var i: nat, j: nat :| condition.Some? && IsColumnEquality(condition.value, i, j);
        HashChosenExactly(condition, plan.children, i, j);
      }
    case SeqScan(table, condition) =>
      IndexChosenExactly(catalog, table, condition, plan.children);
    case _ =>
  }

  /** A second pass changes nothing. */
  lemma {:induction false} OptimizedOnce(catalog: Database, plan: Plan)
    requires NothingLeft(catalog, plan)
    ensures Optimized(Some(catalog), plan) == plan
    decreases plan
  {
    forall i | 0 <= i < |plan.children| ensures Optimized(Some(catalog), plan.children[i]) == plan.children[i] {
      OptimizedOnce(catalog, plan.children[i]);
    }
    var children := seq(|plan.children|, i requires 0 <= i < |plan.children| => Optimized(Some(catalog), plan.children[i]));
    assert children == plan.children;
    match plan.operator
    case NestedLoop(condition) =>
      assert forall i: nat, j: nat :: !(condition.Some? && IsColumnEquality(condition.value, i, j));
      HashChosenExactly(condition, plan.children, 0, 0);
    case SeqScan(table, condition) =>
      IndexChosenExactly(catalog, table, condition, plan.children);
    case _ =>
  }

  // ---------- Plans ----------

  /** A sequential scan raises an exception exactly when the table is not there, or the condition on some row raises one or is no truth value. */
  lemma SeqScanMeans(db: Database, table: nat, condition: Option<Expr>, children: seq<Plan>) returns (positions: seq<nat>)
    requires table in db
    ensures var rows := Run(db, Plan(SeqScan(table, condition), children));
            && (rows.None? <==> condition.Some? && exists i :: 0 <= i < |db[table].rows| && Raises(Evaluate(condition.value, db[table].rows[i].row)))
            && (rows.Some? ==>
                  && |positions| == |rows.value|
                  && (forall k :: 0 <= k < |positions| ==> positions[k] < |db[table].rows| && rows.value[k] == db[table].rows[positions[k]].row)
                  && (forall a, b :: 0 <= a < b < |positions| ==> positions[a] < positions[b])
                  && forall j: nat :: j in positions <==>
                       && j < |db[table].rows|
                       && (condition.Some? ==> Evaluate(condition.value, db[table].rows[j].row) == Some(Boolean(true))))
  {
    positions := FilteredMeans(db[table].rows, condition);
    assert condition.Some? ==> forall i :: 0 <= i < |db[table].rows| ==>
      IsVerdict(Evaluate(condition.value, db[table].rows[i].row)) == !Raises(Evaluate(condition.value, db[table].rows[i].row));
  }

  /** The value is an exception, or not null and no Boolean. */
  predicate Raises(v: Option<Value>) {
    match v
    case None => true
    case Some(Null(_)) => false
    case Some(Boolean(_)) => false
    case Some(_) => true
  }

  /** A nested-loop join raises an exception exactly when its predicate on some pair of rows raises one or is no truth value. */
  lemma JoinRaises(left: seq<Row>, right: seq<Row>, condition: Option<Expr>)
    ensures !JoinDefined(left, right, condition) <==>
              condition.Some? && exists i, j :: 0 <= i < |left| && 0 <= j < |right| && Raises(EvaluateJoin(condition.value, left[i], right[j]))
  {
    assert condition.Some? ==> forall i, j :: 0 <= i < |left| && 0 <= j < |right| ==>
      PairDefined(condition, left[i], right[j]) == !Raises(EvaluateJoin(condition.value, left[i], right[j]));
  }

  /** What a node over one input yields, said of the rows that the input yields. */
  lemma UnaryMeans(db: Database, operator: Operator, child: Plan, rows: seq<Row>)
    requires Run(db, child) == Some(rows)
    ensures var result := Run(db, Plan(operator, [child]));
            match operator
            case Projection(exprs) =>
              result.Some? ==> |result.value| == |rows| && forall k :: 0 <= k < |rows| ==> CellsAre(exprs, rows[k], result.value[k])
            case Sort(orderBys) => result.Some? ==> SameBag(rows, result.value) && Ordered(orderBys, result.value)
            case Aggregation(groupBys, aggregates) =>
              result.Some? ==> (GroupsOfRows(groupBys, aggregates, rows, result.value) <==> KeysApart(groupBys, rows))
            case Limit(count) => result == Some(if count < |rows| then rows[..count] else rows)
            case _ => true
  {
    hide GroupsOfRows, KeysApart, Aggregated;
    match operator
    case Projection(exprs) => ProjectedMeans(exprs, rows);
    case Aggregation(groupBys, aggregates) =>
      if Aggregated(groupBys, aggregates, rows).Some? {
        AggregatedMeans(groupBys, aggregates, rows, Aggregated(groupBys, aggregates, rows).value);
      }
    case _ =>
  }
}
