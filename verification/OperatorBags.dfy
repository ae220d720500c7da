/** Which operators respect bags, and on which inputs. */
module OperatorBags {
  import opened Types
  import opened Values
  import opened Expressions
  import opened Collections
  import opened GroupKeys
  import opened AggregateFolds
  import opened FoldOrders
  import opened Aggregations
  import opened Operators

  /** Both run without an exception and yield the same rows, in some order. */
  ghost predicate SameRows(a: Option<seq<Row>>, b: Option<seq<Row>>) {
    a.Some? && b.Some? && SameBag(a.value, b.value)
  }

  // ---------- Projection ----------

  function ProjectedOne(exprs: seq<Expr>, row: Row): seq<Row> {
    if ProjectedRow(exprs, row).Some? then [ProjectedRow(exprs, row).value] else []
  }

  lemma {:induction false} ProjectedIsFlatMap(exprs: seq<Expr>, rows: seq<Row>)
    ensures Projected(exprs, rows).Some? <==> forall row :: row in rows ==> ProjectedRow(exprs, row).Some?
    ensures Projected(exprs, rows).Some? ==> Projected(exprs, rows).value == FlatMap(row => ProjectedOne(exprs, row), rows)
    decreases |rows|
  {
    if rows != [] {
      var n := |rows| - 1;
      ProjectedIsFlatMap(exprs, rows[..n]);
      assert rows == rows[..n] + [rows[n]];
      assert rows[n] in rows && forall row :: row in rows[..n] ==> row in rows;
    }
  }

  /** Projection respects bags. */
  lemma ProjectedBag(exprs: seq<Expr>, a: seq<Row>, b: seq<Row>)
    requires SameBag(a, b) && Projected(exprs, a).Some?
    ensures Projected(exprs, b).Some? && SameBag(Projected(exprs, a).value, Projected(exprs, b).value)
  {
    ProjectedIsFlatMap(exprs, a);
    ProjectedIsFlatMap(exprs, b);
    forall row | row in b ensures ProjectedRow(exprs, row).Some? {
      SameMembers(a, b, row);
    }
    FlatMapBag(row => ProjectedOne(exprs, row), a, b);
  }

  // ---------- Sorting ----------

  lemma SortingOf(orderBys: seq<OrderBy>, a: seq<Row>, b: seq<Row>)
    requires SameBag(a, b)
    ensures Comparable(orderBys, a) ==> Comparable(orderBys, b)
    ensures forall sorted :: IsSorting(orderBys, a, sorted) ==> IsSorting(orderBys, b, sorted)
  {
    SameSize(a, b);
    forall x, y | Comparable(orderBys, a) && |a| > 1 && x in b && y in b ensures GoesFirst(orderBys, x, y).Some? {
      SameMembers(a, b, x);
      SameMembers(a, b, y);
    }
  }

  /** Sorting respects bags. */
  lemma SortedBag(orderBys: seq<OrderBy>, a: seq<Row>, b: seq<Row>)
    requires SameBag(a, b) && Sorted(orderBys, a).Some?
    ensures Sorted(orderBys, b).Some? && SameBag(Sorted(orderBys, a).value, Sorted(orderBys, b).value)
  {
    SortingOf(orderBys, a, b);
    assert IsSorting(orderBys, b, Sorted(orderBys, a).value);
  }

  /** Whether the first key alone puts `x` before `y`. */
  function KeyFirst(ascending: bool, x: Value, y: Value): bool {
    if ascending then Less(x, y) == Some(true) else Less(y, x) == Some(true)
  }

  /** Two rows that sorting can compare: their first keys have one type, and differ only if it has an order. */
  lemma FirstKeys(orderBys: seq<OrderBy>, a: Row, b: Row)
    requires orderBys != [] && GoesFirst(orderBys, a, b).Some?
    ensures var x, y := Evaluate(orderBys[0].key, a), Evaluate(orderBys[0].key, b);
            && x.Some? && y.Some? && x.value.Type() == y.value.Type() != INVALID
            && (x.value.CompareEquals(y.value) == Some(true) ==> GoesFirst(orderBys, a, b) == GoesFirst(orderBys[1..], a, b))
            && (x.value.CompareEquals(y.value) == Some(false) ==>
                  && Suits(Min, x.value.Type())
                  && GoesFirst(orderBys, a, b) == Some(KeyFirst(orderBys[0].ascending, x.value, y.value)))
  {
  }

  /** A row never goes before one that goes before it, */
  lemma {:induction false} NotBoth(orderBys: seq<OrderBy>, a: Row, b: Row)
    requires GoesFirst(orderBys, a, b) == Some(true) && GoesFirst(orderBys, b, a).Some?
    ensures GoesFirst(orderBys, b, a) == Some(false)
    decreases |orderBys|
  {
    if orderBys != [] {
      FirstKeys(orderBys, a, b);
      FirstKeys(orderBys, b, a);
      var x, y := Evaluate(orderBys[0].key, a).value, Evaluate(orderBys[0].key, b).value;
      if x.CompareEquals(y) == Some(true) {
        NotBoth(orderBys[1..], a, b);
      } else {
        LessOrder(x, y, x);
        LessOrder(y, x, y);
      }
    }
  }

  /** and not going before is transitive. */
  lemma {:induction false} NotFirstTransitive(orderBys: seq<OrderBy>, a: Row, b: Row, c: Row)
    requires GoesFirst(orderBys, b, a) == Some(false) && GoesFirst(orderBys, c, b) == Some(false) && GoesFirst(orderBys, c, a).Some?
    ensures GoesFirst(orderBys, c, a) == Some(false)
    decreases |orderBys|
  {
    if orderBys != [] {
      FirstKeys(orderBys, b, a);
      FirstKeys(orderBys, c, b);
      FirstKeys(orderBys, c, a);
      var x, y, z := Evaluate(orderBys[0].key, a).value, Evaluate(orderBys[0].key, b).value, Evaluate(orderBys[0].key, c).value;
      if Suits(Min, x.Type()) {
        LessOrder(x, y, z);
        LessOrder(z, y, x);
        LessOrder(y, x, z);
        LessOrder(y, z, x);
        LessOrder(x, z, y);
        LessOrder(z, x, y);
      }
      if x.CompareEquals(y) == Some(true) && y.CompareEquals(z) == Some(true) {
        NotFirstTransitive(orderBys[1..], a, b, c);
      }
    }
  }

  function Inserted(orderBys: seq<OrderBy>, s: seq<Row>, row: Row): seq<Row> {
    if s == [] then [row] else
      var n := |s| - 1;
      if GoesFirst(orderBys, row, s[n]) == Some(true) then Inserted(orderBys, s[..n], row) + [s[n]] else s + [row]
  }

  lemma {:induction false} InsertedBag(orderBys: seq<OrderBy>, s: seq<Row>, row: Row)
    ensures SameBag(s + [row], Inserted(orderBys, s, row))
    decreases |s|
  {
    hide GoesFirst;
    if s != [] {
      var n := |s| - 1;
      InsertedBag(orderBys, s[..n], row);
      assert s == s[..n] + [s[n]];
    }
  }

  lemma OrderedNext(orderBys: seq<OrderBy>, s: seq<Row>, row: Row)
    requires Ordered(orderBys, s) && forall a :: a in s ==> GoesFirst(orderBys, row, a) == Some(false)
    ensures Ordered(orderBys, s + [row])
  {
  }

  ghost predicate AllComparable(orderBys: seq<OrderBy>, rows: seq<Row>) {
    forall a, b :: a in rows && b in rows ==> GoesFirst(orderBys, a, b).Some?
  }

  lemma LastLast(orderBys: seq<OrderBy>, s: seq<Row>, row: Row)
    requires Ordered(orderBys, s) && s != [] && AllComparable(orderBys, s + [row])
    requires GoesFirst(orderBys, row, s[|s| - 1]) == Some(false)
    ensures Ordered(orderBys, s + [row])
  {
    var n := |s| - 1;
    forall a | a in s ensures GoesFirst(orderBys, row, a) == Some(false) {
      var i :| 0 <= i < |s| && s[i] == a;
      assert a in s + [row] && row in s + [row];
      if i < n {
        NotFirstTransitive(orderBys, a, s[n], row);
      }
    }
    OrderedNext(orderBys, s, row);
  }

  lemma TrueOrFalse(verdict: Option<bool>)
    requires verdict.Some?
    ensures verdict == Some(true) || verdict == Some(false)
  {
    match verdict
    case Some(b) =>
      if b {
        assert verdict == Some(true);
      } else {
        assert verdict == Some(false);
      }
  }

  lemma {:induction false} InsertedOrdered(orderBys: seq<OrderBy>, s: seq<Row>, row: Row)
    requires Ordered(orderBys, s) && AllComparable(orderBys, s + [row])
    ensures Ordered(orderBys, Inserted(orderBys, s, row))
    decreases |s|
  {
    hide GoesFirst;
    if s != [] {
      var n := |s| - 1;
      assert s == s[..n] + [s[n]] && s[n] in s + [row] && row in s + [row];
      if GoesFirst(orderBys, row, s[n]) == Some(true) {
        assert forall a :: a in s[..n] + [row] ==> a in s + [row];
        InsertedOrdered(orderBys, s[..n], row);
        InsertedBag(orderBys, s[..n], row);
        NotBoth(orderBys, row, s[n]);
        var r := Inserted(orderBys, s[..n], row);
        forall a | a in r ensures GoesFirst(orderBys, s[n], a) == Some(false) {
          SameMembers(s[..n] + [row], r, a);
        }
        OrderedNext(orderBys, r, s[n]);
      } else {
        TrueOrFalse(GoesFirst(orderBys, row, s[n]));
        LastLast(orderBys, s, row);
      }
    }
  }

  /** Rows that sorting can compare can be sorted. */
  lemma {:induction false} SortingExists(orderBys: seq<OrderBy>, rows: seq<Row>) returns (sorted: seq<Row>)
    requires Comparable(orderBys, rows)
    ensures IsSorting(orderBys, rows, sorted)
    decreases |rows|
  {
    if |rows| <= 1 {
      sorted := rows;
    } else {
      var n := |rows| - 1;
      assert rows == rows[..n] + [rows[n]] && forall a :: a in rows[..n] ==> a in rows;
      var s := SortingExists(orderBys, rows[..n]);
      forall a | a in s + [rows[n]] ensures a in rows {
        SameMembers(rows[..n], s, a);
      }
      InsertedOrdered(orderBys, s, rows[n]);
      InsertedBag(orderBys, s, rows[n]);
      sorted := Inserted(orderBys, s, rows[n]);
    }
  }

  /** Sorting fails exactly when a comparison does. */
  lemma SortedExactly(orderBys: seq<OrderBy>, rows: seq<Row>)
    ensures Sorted(orderBys, rows).Some? <==> Comparable(orderBys, rows)
  {
    if Comparable(orderBys, rows) {
      var sorted := SortingExists(orderBys, rows);
    }
  }

  /** Only rows that are equal tie. */
  ghost predicate TiesEqual(orderBys: seq<OrderBy>, rows: seq<Row>) {
    forall a, b :: a in rows && b in rows && GoesFirst(orderBys, a, b) == Some(false) == GoesFirst(orderBys, b, a) ==> a == b
  }

  /** Then there is one way to sort. */
  lemma {:induction false} SortingOnce(orderBys: seq<OrderBy>, rows: seq<Row>, s: seq<Row>, t: seq<Row>)
    requires TiesEqual(orderBys, rows) && IsSorting(orderBys, rows, s) && IsSorting(orderBys, rows, t)
    ensures s == t
    decreases |rows|
  {
    hide GoesFirst;
    SameSize(rows, s);
    SameSize(rows, t);
    if s != [] {
      FirstAgrees(orderBys, rows, s, t);
      var n := |s| - 1;
      assert s == s[..n] + [s[n]] && t == t[..n] + [s[n]];
      TakeSame(multiset(s[..n]), multiset(t[..n]), s[n]);
      forall a | a in s[..n] ensures a in rows {
        SameMembers(rows, s, a);
      }
      SortingOnce(orderBys, s[..n], s[..n], t[..n]);
    }
  }

  lemma FirstAgrees(orderBys: seq<OrderBy>, rows: seq<Row>, s: seq<Row>, t: seq<Row>)
    requires TiesEqual(orderBys, rows) && IsSorting(orderBys, rows, s) && IsSorting(orderBys, rows, t) && |s| == |t| > 0
    ensures s[|s| - 1] == t[|t| - 1]
  {
    var n := |s| - 1;
    var x, y := s[n], t[n];
    SameMembers(rows, s, x);
    SameMembers(rows, t, y);
    SameMembers(rows, s, y);
    SameMembers(rows, t, x);
    var i :| 0 <= i < |s| && s[i] == y;
    var j :| 0 <= j < |t| && t[j] == x;
    assert i == n || GoesFirst(orderBys, x, y) == Some(false);
    assert j == n || GoesFirst(orderBys, y, x) == Some(false);
  }

  /** When only equal rows tie, the order of the input does not show. */
  lemma SortedFixed(orderBys: seq<OrderBy>, a: seq<Row>, b: seq<Row>)
    requires SameBag(a, b) && Sorted(orderBys, a).Some? && TiesEqual(orderBys, a)
    ensures Sorted(orderBys, b) == Sorted(orderBys, a)
  {
    SortedBag(orderBys, a, b);
    SortingOf(orderBys, b, a);
    SortingOnce(orderBys, a, Sorted(orderBys, a).value, Sorted(orderBys, b).value);
  }

  // ---------- Limits ----------

  ghost predicate AllSame(rows: seq<Row>) {
    forall a, b :: a in rows && b in rows ==> a == b
  }

  /** A limit that takes nothing, or everything, or any of some equal rows. */
  ghost predicate LimitFree(count: nat, rows: seq<Row>) {
    count == 0 || |rows| <= count || AllSame(rows)
  }

  /** A limit keeps its answer under every reordering of its input exactly when it does not choose. */
  lemma LimitedBagExactly(count: nat, rows: seq<Row>)
    ensures (forall b :: SameBag(rows, b) ==> SameBag(Limited(count, rows), Limited(count, b))) <==> LimitFree(count, rows)
  {
    if LimitFree(count, rows) {
      forall b | SameBag(rows, b) ensures SameBag(Limited(count, rows), Limited(count, b)) {
        LimitedBag(count, rows, b);
      }
    } else {
      var b := LimitChooses(count, rows);
    }
  }

  /** Equal rows have one order. */
  lemma SameOrder(a: seq<Row>, b: seq<Row>)
    requires SameBag(a, b) && AllSame(a)
    ensures a == b
  {
    SameSize(a, b);
    forall i | 0 <= i < |a| ensures a[i] == b[i] {
      SameMembers(a, b, b[i]);
      assert a[i] in a && b[i] in b;
    }
  }

  lemma LimitedBag(count: nat, a: seq<Row>, b: seq<Row>)
    requires LimitFree(count, a) && SameBag(a, b)
    ensures SameBag(Limited(count, a), Limited(count, b))
  {
    SameSize(a, b);
    if count < |a| && count > 0 {
      SameOrder(a, b);
    } else if count == 0 {
      assert Limited(0, a) == [] == Limited(0, b);
    }
  }

  /** Otherwise exchanging a row taken for one left out shows. */
  lemma LimitChooses(count: nat, rows: seq<Row>) returns (b: seq<Row>)
    requires !LimitFree(count, rows)
    ensures SameBag(rows, b) && !SameBag(Limited(count, rows), Limited(count, b))
  {
    var i, j := DifferentAcross(count, rows);
    b := rows[i := rows[j]][j := rows[i]];
    Exchange(rows, i, j);
    var taken := rows[..count];
    assert Limited(count, rows) == taken && Limited(count, b) == taken[i := rows[j]];
    OneLess(taken, i, rows[j]);
  }

  lemma DifferentAcross(count: nat, rows: seq<Row>) returns (i: nat, j: nat)
    requires !LimitFree(count, rows)
    ensures i < count <= j < |rows| && rows[i] != rows[j]
  {
    i, j := 0, count;
    if rows[0] == rows[count] {
      var a, b :| a in rows && b in rows && a != b;
      var x := if a == rows[0] then b else a;
      var k :| 0 <= k < |rows| && rows[k] == x;
      if k < count {
        i := k;
      } else {
        j := k;
      }
    }
  }

  lemma Exchange<T>(s: seq<T>, i: nat, j: nat)
    requires i < j < |s|
    ensures SameBag(s, s[i := s[j]][j := s[i]])
  {
  }

  lemma OneLess(s: seq<Row>, i: nat, x: Row)
    requires i < |s| && x != s[i]
    ensures !SameBag(s, s[i := x])
  {
    assert multiset(s[i := x])[s[i]] == multiset(s)[s[i]] - 1;
  }

  // ---------- Aggregation ----------

  /** What aggregation makes of a row, when it can. */
  function EntryRow(groupBys: seq<Expr>, aggregates: seq<Aggregate>, row: Row): seq<Entry> {
    if EntryOf(groupBys, aggregates, row).Some? then [EntryOf(groupBys, aggregates, row).value] else []
  }

  lemma {:induction false} EntriesIsFlatMap(groupBys: seq<Expr>, aggregates: seq<Aggregate>, rows: seq<Row>)
    ensures EntriesOf(groupBys, aggregates, rows).Some? <==> forall row :: row in rows ==> EntryOf(groupBys, aggregates, row).Some?
    ensures EntriesOf(groupBys, aggregates, rows).Some? ==>
              EntriesOf(groupBys, aggregates, rows).value == FlatMap(row => EntryRow(groupBys, aggregates, row), rows)
    decreases |rows|
  {
    if rows != [] {
      var n := |rows| - 1;
      EntriesIsFlatMap(groupBys, aggregates, rows[..n]);
      assert rows == rows[..n] + [rows[n]];
      assert rows[n] in rows && forall row :: row in rows[..n] ==> row in rows;
    }
  }

  lemma EntriesBag(groupBys: seq<Expr>, aggregates: seq<Aggregate>, a: seq<Row>, b: seq<Row>)
    requires SameBag(a, b) && EntriesOf(groupBys, aggregates, a).Some?
    ensures EntriesOf(groupBys, aggregates, b).Some?
    ensures SameBag(EntriesOf(groupBys, aggregates, a).value, EntriesOf(groupBys, aggregates, b).value)
  {
    EntriesIsFlatMap(groupBys, aggregates, a);
    EntriesIsFlatMap(groupBys, aggregates, b);
    forall row | row in b ensures EntryOf(groupBys, aggregates, row).Some? {
      SameMembers(a, b, row);
    }
    FlatMapBag(row => EntryRow(groupBys, aggregates, row), a, b);
  }

  function FiledInput(key: string, i: nat, e: Entry): seq<Value> {
    if HashKey(e.group) == key && i < |e.inputs| then [e.inputs[i]] else []
  }

  lemma {:induction false} FiledIsFlatMap(entries: seq<Entry>, key: string, i: nat)
    requires forall k :: 0 <= k < |entries| ==> i < |entries[k].inputs|
    ensures FiledInputs(entries, key, i) == FlatMap(e => FiledInput(key, i, e), entries)
    decreases |entries|
  {
    if entries != [] {
      FiledIsFlatMap(entries[..|entries| - 1], key, i);
    }
  }

  lemma FiledBag(a: seq<Entry>, b: seq<Entry>, key: string, i: nat, width: nat, n: nat)
    requires SameBag(a, b) && Sized(a, width, n) && Sized(b, width, n) && i < n
    ensures SameBag(FiledInputs(a, key, i), FiledInputs(b, key, i))
  {
    FiledIsFlatMap(a, key, i);
    FiledIsFlatMap(b, key, i);
    FlatMapBag(e => FiledInput(key, i, e), a, b);
  }

  /** The sums of every group can be computed in any order. */
  ghost predicate SumsSafe(entries: seq<Entry>, aggregates: seq<Aggregate>, width: nat)
    requires Sized(entries, width, |aggregates|)
  {
    forall key, i :: 0 <= i < |aggregates| && aggregates[i].kind.Sum? ==> FitsInAnyOrder(FiledInputs(entries, key, i))
  }

  /** No two groups share a key, every aggregate has inputs of one suitable type, and sums fit in any order. */
  ghost predicate GroupsSafe(groupBys: seq<Expr>, aggregates: seq<Aggregate>, rows: seq<Row>) {
    var entries := EntriesOf(groupBys, aggregates, rows);
    entries.Some? ==>
      && Apart(entries.value) && SumsSafe(entries.value, aggregates, |groupBys|)
      && exists types :: InputsTyped(entries.value, aggregates, |groupBys|, types)
  }

  /** With the keys apart, the grouping values filed under a key do not depend on the order. */
  lemma FirstGroupBag(a: seq<Entry>, b: seq<Entry>, key: string)
    requires SameBag(a, b) && Apart(a)
    ensures Filed(a, key) <==> Filed(b, key)
    ensures FirstGroup(a, key) == FirstGroup(b, key)
  {
    if Filed(a, key) {
      FiledEither(a, b, key);
    }
    if Filed(b, key) {
      FiledEither(b, a, key);
    }
    if Filed(a, key) {
      FirstGroupFiled(a, key);
      FirstGroupFiled(b, key);
      var i :| 0 <= i < |a| && a[i].group == FirstGroup(a, key);
      var j :| 0 <= j < |b| && b[j].group == FirstGroup(b, key);
      SameMembers(a, b, b[j]);
      var k :| 0 <= k < |a| && a[k] == b[j];
    } else {
      NoFirstGroup(a, key);
      NoFirstGroup(b, key);
    }
  }

  lemma {:induction false} NoFirstGroup(entries: seq<Entry>, key: string)
    requires !Filed(entries, key)
    ensures FirstGroup(entries, key) == []
    decreases |entries|
  {
    if entries != [] {
      var n := |entries| - 1;
      assert entries == entries[..n] + [entries[n]];
      FiledNext(entries[..n], entries[n], key);
      NoFirstGroup(entries[..n], key);
    }
  }

  lemma FiledEither(a: seq<Entry>, b: seq<Entry>, key: string)
    requires SameBag(a, b) && Filed(a, key)
    ensures Filed(b, key)
  {
    var i :| 0 <= i < |a| && HashKey(a[i].group) == key;
    SameMembers(a, b, a[i]);
    var j :| 0 <= j < |b| && b[j] == a[i];
  }

  lemma {:induction false} FiledInputsTyped(entries: seq<Entry>, key: string, i: nat, t: TypeId)
    requires forall k :: 0 <= k < |entries| ==> i < |entries[k].inputs| && entries[k].inputs[i].Type() == t
    ensures AllOf(FiledInputs(entries, key, i), t)
    decreases |entries|
  {
    if entries != [] {
      FiledInputsTyped(entries[..|entries| - 1], key, i, t);
    }
  }

  /** Every group has the same aggregates in every order of the rows. */
  lemma FoldsBag(a: seq<Entry>, b: seq<Entry>, aggregates: seq<Aggregate>, width: nat, types: seq<TypeId>, key: string, i: nat)
    requires SameBag(a, b) && Sized(a, width, |aggregates|) && Sized(b, width, |aggregates|) && i < |aggregates|
    requires FoldsDefined(a, aggregates, width) && SumsSafe(a, aggregates, width) && InputsTyped(a, aggregates, width, types)
    ensures Fold(aggregates[i].kind, FiledInputs(b, key, i)) == Fold(aggregates[i].kind, FiledInputs(a, key, i))
    ensures Fold(aggregates[i].kind, FiledInputs(a, key, i)).Some?
  {
    FiledBag(a, b, key, i, width, |aggregates|);
    FiledInputsTyped(a, key, i, types[i]);
    FoldBag(aggregates[i].kind, FiledInputs(a, key, i), FiledInputs(b, key, i), types[i]);
  }

  lemma OutcomeBag(a: seq<Entry>, b: seq<Entry>, aggregates: seq<Aggregate>, width: nat, types: seq<TypeId>, key: string)
    requires SameBag(a, b) && Sized(a, width, |aggregates|) && Sized(b, width, |aggregates|)
    requires FoldsDefined(a, aggregates, width) && SumsSafe(a, aggregates, width) && InputsTyped(a, aggregates, width, types)
    requires Apart(a) && FoldsDefined(b, aggregates, width)
    ensures Present(a, width, key) <==> Present(b, width, key)
    ensures Outcome(b, aggregates, width, key) == Outcome(a, aggregates, width, key)
  {
    hide FoldsDefined, SumsSafe, InputsTyped, FiledInputs, FirstGroup, Folds, Fold, Filed;
    FirstGroupBag(a, b, key);
    SameSize(a, b);
    var x, y := Folds(a, aggregates, width, key), Folds(b, aggregates, width, key);
    forall i | 0 <= i < |aggregates| ensures x[i] == y[i] {
      FoldsBag(a, b, aggregates, width, types, key, i);
    }
    assert x == y;
  }

  /** A result for one order of the rows is a result for every other. */
  lemma AggregationOf(groupBys: seq<Expr>, aggregates: seq<Aggregate>, a: seq<Row>, b: seq<Row>, result: seq<Row>)
    requires SameBag(a, b) && IsAggregation(groupBys, aggregates, a, result) && GroupsSafe(groupBys, aggregates, a)
    ensures IsAggregation(groupBys, aggregates, b, result)
  {
    var width := |groupBys|;
    EntriesBag(groupBys, aggregates, a, b);
    var x, y := EntriesOf(groupBys, aggregates, a).value, EntriesOf(groupBys, aggregates, b).value;
    var types :| InputsTyped(x, aggregates, width, types);
    var keys :| IsGrouping(result, x, aggregates, width, keys);
    hide IsGrouping, FiledInputs, FirstGroup, Folds, Fold, Filed, Outcome, SumsSafe, InputsTyped, EntriesOf, Present;
    FoldsStay(x, y, aggregates, width, types);
    forall key ensures Present(x, width, key) <==> Present(y, width, key)
               ensures Outcome(y, aggregates, width, key) == Outcome(x, aggregates, width, key)
    {
      OutcomeBag(x, y, aggregates, width, types, key);
    }
    GroupingStays(result, x, y, aggregates, width, keys);
  }

  lemma FoldsStay(a: seq<Entry>, b: seq<Entry>, aggregates: seq<Aggregate>, width: nat, types: seq<TypeId>)
    requires SameBag(a, b) && Sized(a, width, |aggregates|) && Sized(b, width, |aggregates|)
    requires FoldsDefined(a, aggregates, width) && SumsSafe(a, aggregates, width) && InputsTyped(a, aggregates, width, types)
    ensures FoldsDefined(b, aggregates, width)
  {
    forall key, i | 0 <= i < |aggregates| ensures Fold(aggregates[i].kind, FiledInputs(b, key, i)).Some? {
      FoldsBag(a, b, aggregates, width, types, key, i);
    }
  }

  lemma GroupingStays(result: seq<Row>, a: seq<Entry>, b: seq<Entry>, aggregates: seq<Aggregate>, width: nat, keys: seq<string>)
    requires Sized(a, width, |aggregates|) && Sized(b, width, |aggregates|)
    requires FoldsDefined(a, aggregates, width) && FoldsDefined(b, aggregates, width)
    requires forall key :: Present(a, width, key) <==> Present(b, width, key)
    requires forall key :: Outcome(b, aggregates, width, key) == Outcome(a, aggregates, width, key)
    requires IsGrouping(result, a, aggregates, width, keys)
    ensures IsGrouping(result, b, aggregates, width, keys)
  {
  }

  /** Two results for the same rows differ in their order only. */
  lemma GroupingsAlike(r: seq<Row>, s: seq<Row>, entries: seq<Entry>, aggregates: seq<Aggregate>, width: nat, keys: seq<string>, keys': seq<string>)
    requires Sized(entries, width, |aggregates|) && FoldsDefined(entries, aggregates, width)
    requires IsGrouping(r, entries, aggregates, width, keys) && IsGrouping(s, entries, aggregates, width, keys')
    ensures SameBag(r, s)
  {
    hide FoldsDefined, Outcome, Present;
    forall key ensures key in keys <==> key in keys' {
      assert key in keys <==> Present(entries, width, key);
    }
    OnceEach(keys, keys');
    ghost var f := (key: string) => [OutcomeOr(entries, aggregates, width, key)];
    RowsOfKeysAre(r, f, keys);
    RowsOfKeysAre(s, f, keys');
    FlatMapBag(f, keys, keys');
  }

  ghost function OutcomeOr(entries: seq<Entry>, aggregates: seq<Aggregate>, width: nat, key: string): Row {
    if Sized(entries, width, |aggregates|) && FoldsDefined(entries, aggregates, width) then Outcome(entries, aggregates, width, key) else []
  }

  lemma {:induction false} RowsOfKeysAre(r: seq<Row>, f: string -> seq<Row>, keys: seq<string>)
    requires |r| == |keys| && forall k :: 0 <= k < |keys| ==> f(keys[k]) == [r[k]]
    ensures r == FlatMap(f, keys)
    decreases |keys|
  {
    if keys != [] {
      var n := |keys| - 1;
      RowsOfKeysAre(r[..n], f, keys[..n]);
      assert r == r[..n] + [r[n]];
    }
  }

  /** Aggregation respects the bag of an input whose keys are apart and whose sums fit in any order. */
  lemma AggregatedBag(groupBys: seq<Expr>, aggregates: seq<Aggregate>, a: seq<Row>, b: seq<Row>)
    requires SameBag(a, b) && Aggregated(groupBys, aggregates, a).Some? && GroupsSafe(groupBys, aggregates, a)
    ensures Aggregated(groupBys, aggregates, b).Some?
    ensures SameBag(Aggregated(groupBys, aggregates, a).value, Aggregated(groupBys, aggregates, b).value)
  {
    var r := Aggregated(groupBys, aggregates, a).value;
    AggregationOf(groupBys, aggregates, a, b, r);
    var s := Aggregated(groupBys, aggregates, b).value;
    var entries := EntriesOf(groupBys, aggregates, b).value;
    var keys :| IsGrouping(r, entries, aggregates, |groupBys|, keys);
    var keys' :| IsGrouping(s, entries, aggregates, |groupBys|, keys');
    GroupingsAlike(r, s, entries, aggregates, |groupBys|, keys, keys');
  }

  /** The keys of the entries, each once. */
  lemma {:induction false} KeysOnce(entries: seq<Entry>) returns (keys: seq<string>)
    ensures Distinct(keys) && forall key :: key in keys <==> Filed(entries, key)
    decreases |entries|
  {
    keys := [];
    if entries != [] {
      var n := |entries| - 1;
      keys := KeysOnce(entries[..n]);
      assert entries == entries[..n] + [entries[n]];
      var last := HashKey(entries[n].group);
      forall key ensures Filed(entries, key) <==> key in keys || key == last {
        FiledNext(entries[..n], entries[n], key);
      }
      if last !in keys {
        keys := keys + [last];
      }
    }
  }

  lemma GroupingExists(entries: seq<Entry>, aggregates: seq<Aggregate>, width: nat) returns (result: seq<Row>, keys: seq<string>)
    requires Sized(entries, width, |aggregates|) && FoldsDefined(entries, aggregates, width)
    ensures IsGrouping(result, entries, aggregates, width, keys)
  {
    hide FoldsDefined, Outcome, Filed;
    keys := KeysOnce(entries);
    if entries == [] && width == 0 {
      forall key ensures !Filed(entries, key) {
        NoneFiled(key);
      }
      keys := ["SINGLE_GROUP"];
    }
    result := seq(|keys|, k requires 0 <= k < |keys| => Outcome(entries, aggregates, width, keys[k]));
  }

  lemma NoneFiled(key: string)
    ensures !Filed([], key)
  {
  }

  /** Aggregation fails exactly when an expression, a running state or a row without types does. */
  lemma AggregatedExactly(groupBys: seq<Expr>, aggregates: seq<Aggregate>, rows: seq<Row>)
    ensures var entries := EntriesOf(groupBys, aggregates, rows);
            Aggregated(groupBys, aggregates, rows).Some? <==> entries.Some? && Computable(entries.value, aggregates, |groupBys|)
  {
    var entries := EntriesOf(groupBys, aggregates, rows);
    if entries.Some? && Computable(entries.value, aggregates, |groupBys|) {
      var result, keys := GroupingExists(entries.value, aggregates, |groupBys|);
      assert IsAggregation(groupBys, aggregates, rows, result);
    }
  }
}
