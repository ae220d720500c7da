/** For aggregation the order of the rows shows exactly when two groups share a key or a sum may leave 32 bits. */
module GroupOrders {
  import opened Types
  import opened Values
  import opened Expressions
  import opened Collections
  import opened GroupKeys
  import opened AggregateFolds
  import opened FoldOrders
  import opened Aggregations
  import opened Operators
  import opened OperatorBags

  // ---------- Two groups with one key ----------

  lemma {:induction false} EntryAt(groupBys: seq<Expr>, aggregates: seq<Aggregate>, rows: seq<Row>, k: nat)
    requires k < |rows| && EntriesOf(groupBys, aggregates, rows).Some?
    ensures EntryOf(groupBys, aggregates, rows[k]) == Some(EntriesOf(groupBys, aggregates, rows).value[k])
    decreases |rows|
  {
    var n := |rows| - 1;
    if k < n {
      EntryAt(groupBys, aggregates, rows[..n], k);
    }
  }

  /** The first row of all decides the grouping values filed under its key. */
  lemma {:induction false} FirstIsFirst(entries: seq<Entry>)
    requires entries != []
    ensures FirstGroup(entries, HashKey(entries[0].group)) == entries[0].group
    decreases |entries|
  {
    hide HashKey;
    var n := |entries| - 1;
    var key := HashKey(entries[0].group);
    assert entries == entries[..n] + [entries[n]];
    FiledNext(entries[..n], entries[n], key);
    if n > 0 {
      FirstIsFirst(entries[..n]);
      assert HashKey(entries[..n][0].group) == key;
    } else {
      NothingAtAll(key);
    }
  }

  function ToFront(rows: seq<Row>, k: nat): seq<Row>
    requires k < |rows|
  {
    [rows[k]] + Without(rows, k)
  }

  lemma ToFrontBag(rows: seq<Row>, k: nat)
    requires k < |rows|
    ensures SameBag(rows, ToFront(rows, k))
  {
    WithoutBag(rows, k);
  }

  /** Results with different grouping values under one key are not the same rows. */
  lemma GroupShows(a: seq<Entry>, b: seq<Entry>, aggregates: seq<Aggregate>, width: nat, r: seq<Row>, s: seq<Row>,
                   keys: seq<string>, keys': seq<string>, key: string)
    requires Sized(a, width, |aggregates|) && Sized(b, width, |aggregates|) && b != []
    requires FoldsDefined(a, aggregates, width) && FoldsDefined(b, aggregates, width)
    requires IsGrouping(r, a, aggregates, width, keys) && IsGrouping(s, b, aggregates, width, keys')
    requires Filed(a, key) && FirstGroup(a, key) != FirstGroup(b, key)
    ensures !SameBag(r, s)
  {
    hide FoldsDefined, Folds, FirstGroup, HashKey;
    assert Present(a, width, key) && key in keys;
    var k :| 0 <= k < |keys| && keys[k] == key;
    GroupOfRow(a, aggregates, width, key);
    if SameBag(r, s) {
      SameMembers(r, s, r[k]);
      var m :| 0 <= m < |s| && s[m] == r[k];
      assert keys'[m] in keys' && Present(b, width, keys'[m]);
      GroupOfRow(b, aggregates, width, keys'[m]);
    }
  }

  /** The grouping values can be read off a row, and the key off them. */
  lemma GroupOfRow(entries: seq<Entry>, aggregates: seq<Aggregate>, width: nat, key: string)
    requires Sized(entries, width, |aggregates|) && FoldsDefined(entries, aggregates, width) && Filed(entries, key)
    ensures |FirstGroup(entries, key)| == width && HashKey(FirstGroup(entries, key)) == key
    ensures Outcome(entries, aggregates, width, key)[..width] == FirstGroup(entries, key)
  {
    FirstGroupFiled(entries, key);
  }

  /** When two groups share a key, the first row decides which of them the result has. */
  lemma SharedKeyShows(groupBys: seq<Expr>, aggregates: seq<Aggregate>, rows: seq<Row>) returns (b: seq<Row>)
    requires Aggregated(groupBys, aggregates, rows).Some?
    requires !Apart(EntriesOf(groupBys, aggregates, rows).value)
    ensures SameBag(rows, b)
    ensures !SameRows(Aggregated(groupBys, aggregates, rows), Aggregated(groupBys, aggregates, b))
  {
    hide HashKey, Fold, FiledInputs, FirstGroup, FoldsDefined;
    var width, entries := |groupBys|, EntriesOf(groupBys, aggregates, rows).value;
    var j, k :| 0 <= j < |entries| && 0 <= k < |entries| && HashKey(entries[j].group) == HashKey(entries[k].group)
                && entries[j].group != entries[k].group;
    var key := HashKey(entries[j].group);
    var x := if entries[j].group != FirstGroup(entries, key) then j else k;
    b := ToFront(rows, x);
    ToFrontBag(rows, x);
    EntriesBag(groupBys, aggregates, rows, b);
    var entries' := EntriesOf(groupBys, aggregates, b).value;
    EntryAt(groupBys, aggregates, rows, x);
    EntryAt(groupBys, aggregates, b, 0);
    FirstIsFirst(entries');
    if Aggregated(groupBys, aggregates, b).Some? {
      var r, s := Aggregated(groupBys, aggregates, rows).value, Aggregated(groupBys, aggregates, b).value;
      var keys :| IsGrouping(r, entries, aggregates, width, keys);
      var keys' :| IsGrouping(s, entries', aggregates, width, keys');
      GroupShows(entries, entries', aggregates, width, r, s, keys, keys', key);
    }
  }

  // ---------- Sums ----------

  lemma {:induction false} FlatMapAppend<T, U>(f: T -> seq<U>, a: seq<T>, b: seq<T>)
    ensures FlatMap(f, a + b) == FlatMap(f, a) + FlatMap(f, b)
    decreases |b|
  {
    if b == [] {
      assert a + b == a;
    } else {
      var n := |b| - 1;
      FlatMapAppend(f, a, b[..n]);
      FlatMapNext(f, a + b[..n], b[n]);
      assert a + b == (a + b[..n]) + [b[n]];
    }
  }

  /** What a row adds to the inputs of aggregate `i` that are filed under `key`. */
  function Share(groupBys: seq<Expr>, aggregates: seq<Aggregate>, key: string, i: nat, row: Row): seq<Value> {
    var e := EntryOf(groupBys, aggregates, row);
    if e.Some? then FiledInput(key, i, e.value) else []
  }

  lemma {:induction false} SharesAreFiled(groupBys: seq<Expr>, aggregates: seq<Aggregate>, rows: seq<Row>, key: string, i: nat)
    requires EntriesOf(groupBys, aggregates, rows).Some? && i < |aggregates|
    ensures FiledInputs(EntriesOf(groupBys, aggregates, rows).value, key, i) ==
            FlatMap(row => Share(groupBys, aggregates, key, i, row), rows)
    decreases |rows|
  {
    hide HashKey;
    if rows != [] {
      var n := |rows| - 1;
      SharesAreFiled(groupBys, aggregates, rows[..n], key, i);
      var before, last := EntriesOf(groupBys, aggregates, rows[..n]).value, EntryOf(groupBys, aggregates, rows[n]).value;
      FiledInputsNext(before, last, key, i);
      assert EntriesOf(groupBys, aggregates, rows).value == before + [last];
      assert FlatMap(row => Share(groupBys, aggregates, key, i, row), rows) ==
             FlatMap(row => Share(groupBys, aggregates, key, i, row), rows[..n]) + FiledInput(key, i, last);
    }
  }

  /** The rows that add an amount above zero (or not) come first, with those that add nothing. */
  function Early(f: Row -> seq<Value>, up: bool, rows: seq<Row>, early: bool): seq<Row> {
    if rows == [] then [] else
      var n := |rows| - 1;
      Early(f, up, rows[..n], early) + if IsEarly(f, up, rows[n]) == early then [rows[n]] else []
  }

  predicate IsEarly(f: Row -> seq<Value>, up: bool, row: Row) {
    f(row) == [] || (Amount(f(row)[0]) > 0) == up
  }

  lemma EarlyNext(f: Row -> seq<Value>, up: bool, init: seq<Row>, row: Row, early: bool)
    ensures Early(f, up, init + [row], early) ==
            if IsEarly(f, up, row) == early then Early(f, up, init, early) + [row] else Early(f, up, init, early)
  {
    assert (init + [row])[..|init|] == init;
  }

  lemma NothingIsEarly(f: Row -> seq<Value>, up: bool)
    ensures Early(f, up, [], true) == [] == Early(f, up, [], false)
  {
  }

  lemma {:induction false} EarlyBag(f: Row -> seq<Value>, up: bool, rows: seq<Row>)
    ensures SameBag(rows, Early(f, up, rows, true) + Early(f, up, rows, false))
    decreases |rows|
  {
    hide IsEarly, Early;
    if rows == [] {
      NothingIsEarly(f, up);
    } else {
      var init, row := rows[..|rows| - 1], rows[|rows| - 1];
      EarlyBag(f, up, init);
      assert rows == init + [row];
      EarlyNext(f, up, init, row, true);
      EarlyNext(f, up, init, row, false);
      Dealt(init, row, Early(f, up, init, true), Early(f, up, init, false));
    }
  }

  lemma {:induction false} EarlyShares(f: Row -> seq<Value>, up: bool, rows: seq<Row>)
    requires forall row :: |f(row)| <= 1
    ensures FlatMap(f, Early(f, up, rows, true)) == Rising(FlatMap(f, rows), up)
    ensures FlatMap(f, Early(f, up, rows, false)) == Rising(FlatMap(f, rows), !up)
    decreases |rows|
  {
    hide Early, Rising, IsEarly, FlatMap;
    if rows == [] {
      NothingEarly(f, up);
    } else {
      var init, row := rows[..|rows| - 1], rows[|rows| - 1];
      EarlyShares(f, up, init);
      assert rows == init + [row];
      EarlyNext(f, up, init, row, true);
      EarlyNext(f, up, init, row, false);
      OneShare(f, up, FlatMap(f, init), row);
      FlatMapNext(f, init, row);
      FlatMapNext(f, Early(f, up, init, true), row);
      FlatMapNext(f, Early(f, up, init, false), row);
    }
  }

  lemma NothingEarly(f: Row -> seq<Value>, up: bool)
    ensures FlatMap(f, Early(f, up, [], true)) == Rising(FlatMap(f, []), up)
    ensures FlatMap(f, Early(f, up, [], false)) == Rising(FlatMap(f, []), !up)
  {
  }

  /** What one more row adds. */
  lemma OneShare(f: Row -> seq<Value>, up: bool, shares: seq<Value>, row: Row)
    requires |f(row)| <= 1
    ensures Rising(shares + f(row), up) == if IsEarly(f, up, row) then Rising(shares, up) + f(row) else Rising(shares, up)
    ensures Rising(shares + f(row), !up) == if IsEarly(f, up, row) then Rising(shares, !up) else Rising(shares, !up) + f(row)
  {
    if f(row) == [] {
      assert shares + f(row) == shares;
    } else {
      assert f(row) == [f(row)[0]];
      RisingNext(shares, f(row)[0], true);
      RisingNext(shares, f(row)[0], false);
    }
  }

  /** A sum whose gains or losses do not fit cannot be computed with them first. */
  lemma FirstTooMuch(values: seq<Value>) returns (up: bool)
    requires AllOf(values, INTEGER) && !FitsInAnyOrder(values)
    ensures Fold(Sum, Rising(values, up) + Rising(values, !up)).None?
  {
    up := Gains(values) >= INT32_LIMIT;
    var b := Rising(values, up) + Rising(values, !up);
    RisingBag(values);
    RisingSums(values);
    assert SameBag(values, b);
    forall v | v in b ensures v.Type() == INTEGER {
      SameMembers(values, b, v);
    }
    FoldDefinedExactly(Sum, b, INTEGER);
    if SumsFit(b) {
      FirstPart(Rising(values, up), Rising(values, !up));
    }
  }

  /** When a sum may leave 32 bits, in some order of the rows it does. */
  lemma SumShows(groupBys: seq<Expr>, aggregates: seq<Aggregate>, rows: seq<Row>, types: seq<TypeId>) returns (b: seq<Row>)
    requires var entries := EntriesOf(groupBys, aggregates, rows);
             && entries.Some? && InputsTyped(entries.value, aggregates, |groupBys|, types)
             && !SumsSafe(entries.value, aggregates, |groupBys|)
    ensures SameBag(rows, b) && Aggregated(groupBys, aggregates, b).None?
  {
    hide HashKey, Fold, FirstGroup;
    var entries := EntriesOf(groupBys, aggregates, rows).value;
    var key, i :| 0 <= i < |aggregates| && aggregates[i].kind.Sum? && !FitsInAnyOrder(FiledInputs(entries, key, i));
    var f := (row: Row) => Share(groupBys, aggregates, key, i, row);
    FiledInputsTyped(entries, key, i, types[i]);
    var up := FirstTooMuch(FiledInputs(entries, key, i));
    b := Early(f, up, rows, true) + Early(f, up, rows, false);
    EarlyBag(f, up, rows);
    SharesInOrder(groupBys, aggregates, rows, key, i, up);
    if Aggregated(groupBys, aggregates, b).Some? {
      FoldOfResult(groupBys, aggregates, b, key, i);
    }
  }

  /** A result means that every aggregate could be computed. */
  lemma FoldOfResult(groupBys: seq<Expr>, aggregates: seq<Aggregate>, rows: seq<Row>, key: string, i: nat)
    requires Aggregated(groupBys, aggregates, rows).Some? && i < |aggregates|
    ensures EntriesOf(groupBys, aggregates, rows).Some?
    ensures Fold(aggregates[i].kind, FiledInputs(EntriesOf(groupBys, aggregates, rows).value, key, i)).Some?
  {
  }

  lemma SharesInOrder(groupBys: seq<Expr>, aggregates: seq<Aggregate>, rows: seq<Row>, key: string, i: nat, up: bool)
    requires EntriesOf(groupBys, aggregates, rows).Some? && i < |aggregates|
    ensures var f := (row: Row) => Share(groupBys, aggregates, key, i, row);
            var b := Early(f, up, rows, true) + Early(f, up, rows, false);
            var inputs := FiledInputs(EntriesOf(groupBys, aggregates, rows).value, key, i);
            && EntriesOf(groupBys, aggregates, b).Some?
            && FiledInputs(EntriesOf(groupBys, aggregates, b).value, key, i) == Rising(inputs, up) + Rising(inputs, !up)
  {
    hide HashKey;
    var f := (row: Row) => Share(groupBys, aggregates, key, i, row);
    var b := Early(f, up, rows, true) + Early(f, up, rows, false);
    EarlyBag(f, up, rows);
    EntriesBag(groupBys, aggregates, rows, b);
    SharesAreFiled(groupBys, aggregates, rows, key, i);
    SharesAreFiled(groupBys, aggregates, b, key, i);
    EarlyShares(f, up, rows);
    FlatMapAppend(f, Early(f, up, rows, true), Early(f, up, rows, false));
  }

  // ---------- Aggregation ----------

  /** Every aggregate has inputs of one type that suits it. */
  ghost predicate TypedInputs(groupBys: seq<Expr>, aggregates: seq<Aggregate>, rows: seq<Row>) {
    var entries := EntriesOf(groupBys, aggregates, rows);
    entries.Some? && exists types :: InputsTyped(entries.value, aggregates, |groupBys|, types)
  }

  /** On typed inputs, aggregation gives the same bag for every order of the rows exactly when they are safe. */
  lemma AggregatedBagExactly(groupBys: seq<Expr>, aggregates: seq<Aggregate>, rows: seq<Row>)
    requires Aggregated(groupBys, aggregates, rows).Some? && TypedInputs(groupBys, aggregates, rows)
    ensures (forall b :: SameBag(rows, b) ==>
               SameRows(Aggregated(groupBys, aggregates, rows), Aggregated(groupBys, aggregates, b))) <==>
            GroupsSafe(groupBys, aggregates, rows)
  {
    hide Aggregated, Apart, SumsSafe, InputsTyped, EntriesOf;
    if GroupsSafe(groupBys, aggregates, rows) {
      forall b | SameBag(rows, b) ensures SameRows(Aggregated(groupBys, aggregates, rows), Aggregated(groupBys, aggregates, b)) {
        AggregatedBag(groupBys, aggregates, rows, b);
      }
    } else {
      var entries := EntriesOf(groupBys, aggregates, rows).value;
      if Apart(entries) {
        var types :| InputsTyped(entries, aggregates, |groupBys|, types);
        var b := SumShows(groupBys, aggregates, rows, types);
      } else {
        var b := SharedKeyShows(groupBys, aggregates, rows);
      }
    }
  }
}
