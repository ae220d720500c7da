/** Aggregation over a table of running states filed under text keys, against the group-by it stands for. */
module Aggregations {
  import opened Types
  import opened Values
  import opened Expressions
  import opened GroupKeys
  import opened AggregateFolds

  datatype Aggregate = Aggregate(kind: AggregationType, input: Expr)

  /** What one row contributes: its grouping values and the inputs of its aggregates. */
  datatype Entry = Entry(group: seq<Value>, inputs: seq<Value>)

  // ---------- Rows ----------

  function InputsOf(aggregates: seq<Aggregate>): (r: seq<Expr>)
    ensures |r| == |aggregates|
  {
    seq(|aggregates|, i requires 0 <= i < |aggregates| => aggregates[i].input)
  }

  function EntryOf(groupBys: seq<Expr>, aggregates: seq<Aggregate>, row: Row): (r: Option<Entry>)
    ensures r.Some? ==> |r.value.group| == |groupBys| && |r.value.inputs| == |aggregates|
  {
    var group, inputs := EvaluateAll(groupBys, row), EvaluateAll(InputsOf(aggregates), row);
    if group.Some? && inputs.Some? then Some(Entry(group.value, inputs.value)) else None
  }

  predicate Sized(entries: seq<Entry>, width: nat, n: nat) {
    forall k :: 0 <= k < |entries| ==> |entries[k].group| == width && |entries[k].inputs| == n
  }

  function EntriesOf(groupBys: seq<Expr>, aggregates: seq<Aggregate>, rows: seq<Row>): (r: Option<seq<Entry>>)
    ensures r.Some? ==> |r.value| == |rows| && Sized(r.value, |groupBys|, |aggregates|)
  {
    if rows == [] then Some([]) else
      var n := |rows| - 1;
      var before, last := EntriesOf(groupBys, aggregates, rows[..n]), EntryOf(groupBys, aggregates, rows[n]);
      if before.Some? && last.Some? then Some(before.value + [last.value]) else None
  }

  // ---------- The table ----------

  datatype State = State(group: seq<Value>, values: seq<Value>)

  type Table = map<string, State>

  /** The inputs of aggregate `i` on the rows filed under `key`, in order. */
  function FiledInputs(entries: seq<Entry>, key: string, i: nat): seq<Value>
    requires forall k :: 0 <= k < |entries| ==> i < |entries[k].inputs|
  {
    if entries == [] then [] else
      var n := |entries| - 1;
      FiledInputs(entries[..n], key, i) + if HashKey(entries[n].group) == key then [entries[n].inputs[i]] else []
  }

  predicate Filed(entries: seq<Entry>, key: string) {
    exists k :: 0 <= k < |entries| && HashKey(entries[k].group) == key
  }

  /** The grouping values of the first row filed under `key`. */
  function FirstGroup(entries: seq<Entry>, key: string): seq<Value> {
    if entries == [] then []
    else if Filed(entries[..|entries| - 1], key) || HashKey(entries[|entries| - 1].group) != key then
      FirstGroup(entries[..|entries| - 1], key)
    else entries[|entries| - 1].group
  }

  /** The running states are those of the rows filed under `key`. */
  ghost predicate StateOk(state: State, entries: seq<Entry>, aggregates: seq<Aggregate>, width: nat, key: string)
    requires Sized(entries, width, |aggregates|)
  {
    && state.group == FirstGroup(entries, key) && |state.values| == |aggregates|
    && forall i :: 0 <= i < |aggregates| ==>
         Fold(aggregates[i].kind, FiledInputs(entries, key, i)) == Some(state.values[i])
  }

  ghost predicate TableOk(table: Table, entries: seq<Entry>, aggregates: seq<Aggregate>, width: nat)
    requires Sized(entries, width, |aggregates|)
  {
    && (forall key :: key in table <==> Filed(entries, key))
    && (forall key :: key in table ==> StateOk(table[key], entries, aggregates, width, key))
  }

  function Initials(aggregates: seq<Aggregate>): (r: seq<Value>)
    ensures |r| == |aggregates|
  {
    seq(|aggregates|, i requires 0 <= i < |aggregates| => Initial(aggregates[i].kind))
  }

  lemma {:induction false} NothingFiled(entries: seq<Entry>, key: string, i: nat)
    requires forall k :: 0 <= k < |entries| ==> i < |entries[k].inputs|
    requires !Filed(entries, key)
    ensures FiledInputs(entries, key, i) == [] && FirstGroup(entries, key) == []
    decreases |entries|
  {
    if entries != [] {
      var n := |entries| - 1;
      assert !Filed(entries[..n], key) by {
        assert forall k :: 0 <= k < n ==> entries[..n][k] == entries[k];
      }
      NothingFiled(entries[..n], key, i);
    }
  }

  lemma FiledNext(entries: seq<Entry>, entry: Entry, key: string)
    ensures Filed(entries + [entry], key) <==> Filed(entries, key) || HashKey(entry.group) == key
    ensures FirstGroup(entries + [entry], key) ==
            if Filed(entries, key) || HashKey(entry.group) != key then FirstGroup(entries, key) else entry.group
  {
    var all := entries + [entry];
    assert all[..|entries|] == entries && all[|entries|] == entry;
    if Filed(entries, key) {
      var k :| 0 <= k < |entries| && HashKey(entries[k].group) == key;
      assert all[k] == entries[k];
    }
  }

  lemma FiledInputsNext(entries: seq<Entry>, entry: Entry, key: string, i: nat)
    requires forall k :: 0 <= k < |entries| ==> i < |entries[k].inputs|
    requires i < |entry.inputs|
    ensures FiledInputs(entries + [entry], key, i) ==
            FiledInputs(entries, key, i) + if HashKey(entry.group) == key then [entry.inputs[i]] else []
  {
    assert (entries + [entry])[..|entries|] == entries;
  }

  /** Evaluates grouping expressions one by one, building the key. */
  method KeyOfRow(groupBys: seq<Expr>, row: Row) returns (group: Option<seq<Value>>, key: string)
    ensures group == EvaluateAll(groupBys, row)
    ensures group.Some? ==> key == HashKey(group.value)
  {
    var values: seq<Value> := [];
    key := "";
    for i := 0 to |groupBys|
      invariant EvaluateAll(groupBys[..i], row) == Some(values) && key == KeyText(values)
    {
      EvaluateAllPrefix(groupBys, row, i + 1);
      assert groupBys[..i + 1][..i] == groupBys[..i];
      var value := Evaluate(groupBys[i], row);
      if value.None? {
        return None, "";
      }
      assert (values + [value.value])[..|values|] == values;
      values, key := values + [value.value], key + value.value.ToString() + "#";
    }
    assert groupBys[..|groupBys|] == groupBys;
    if key == "" {
      key := "SINGLE_GROUP";
    }
    group := Some(values);
  }

  /** An exception on the way is an exception of the whole. */
  lemma {:induction false} EvaluateAllPrefix(es: seq<Expr>, row: Row, n: nat)
    requires n <= |es|
    ensures EvaluateAll(es[..n], row).None? ==> EvaluateAll(es, row).None?
    decreases |es|
  {
    if n < |es| {
      EvaluateAllPrefix(es[..|es| - 1], row, n);
      assert es[..|es| - 1][..n] == es[..n];
    } else {
      assert es[..n] == es;
    }
  }

  method EvaluateInputs(aggregates: seq<Aggregate>, row: Row) returns (inputs: Option<seq<Value>>)
    ensures inputs == EvaluateAll(InputsOf(aggregates), row)
  {
    var es := InputsOf(aggregates);
    var values: seq<Value> := [];
    for i := 0 to |es|
      invariant EvaluateAll(es[..i], row) == Some(values)
    {
      EvaluateAllPrefix(es, row, i + 1);
      assert es[..i + 1][..i] == es[..i];
      var value := Evaluate(es[i], row);
      if value.None? {
        return None;
      }
      values := values + [value.value];
    }
    assert es[..|es|] == es;
    inputs := Some(values);
  }

  ghost predicate Feeds(aggregates: seq<Aggregate>, values: seq<Value>, inputs: seq<Value>, n: nat)
    requires n <= |aggregates| == |values| == |inputs|
  {
    forall i :: 0 <= i < n ==> Feed(aggregates[i].kind, values[i], inputs[i]).Some?
  }

  /** Updates all running states of a group with one row; `None` is an exception. */
  method FeedAll(aggregates: seq<Aggregate>, values: seq<Value>, inputs: seq<Value>) returns (result: Option<seq<Value>>)
    requires |aggregates| == |values| == |inputs|
    ensures result.Some? <==> Feeds(aggregates, values, inputs, |values|)
    ensures result.Some? ==> |result.value| == |values|
    ensures result.Some? ==> forall i :: 0 <= i < |values| ==> Feed(aggregates[i].kind, values[i], inputs[i]) == Some(result.value[i])
  {
    var current := values;
    for i := 0 to |aggregates|
      invariant |current| == |values| && Feeds(aggregates, values, inputs, i)
      invariant forall j :: 0 <= j < i ==> Feed(aggregates[j].kind, values[j], inputs[j]) == Some(current[j])
      invariant forall j :: i <= j < |values| ==> current[j] == values[j]
    {
      var next := Feed(aggregates[i].kind, current[i], inputs[i]);
      if next.None? {
        return None;
      }
      current := current[i := next.value];
    }
    result := Some(current);
  }

  // ---------- Building the table ----------

  /** No running state of any group raises an exception. */
  ghost predicate FoldsDefined(entries: seq<Entry>, aggregates: seq<Aggregate>, width: nat)
    requires Sized(entries, width, |aggregates|)
  {
    forall key, i :: 0 <= i < |aggregates| ==> Fold(aggregates[i].kind, FiledInputs(entries, key, i)).Some?
  }

  /** The state of a group before its next row. */
  function StateIn(table: Table, aggregates: seq<Aggregate>, group: seq<Value>): State {
    if HashKey(group) in table then table[HashKey(group)] else State(group, Initials(aggregates))
  }

  lemma StateInOk(table: Table, entries: seq<Entry>, aggregates: seq<Aggregate>, width: nat, group: seq<Value>)
    requires Sized(entries, width, |aggregates|) && TableOk(table, entries, aggregates, width)
    ensures var state := StateIn(table, aggregates, group);
            && |state.values| == |aggregates|
            && forall i :: 0 <= i < |aggregates| ==>
                 Fold(aggregates[i].kind, FiledInputs(entries, HashKey(group), i)) == Some(state.values[i])
    ensures StateIn(table, aggregates, group).group ==
            if Filed(entries, HashKey(group)) then FirstGroup(entries, HashKey(group)) else group
  {
    if HashKey(group) !in table {
      forall i | 0 <= i < |aggregates| ensures FiledInputs(entries, HashKey(group), i) == [] {
        NothingFiled(entries, HashKey(group), i);
      }
    }
  }

  lemma FoldNext(kind: AggregationType, inputs: seq<Value>, input: Value)
    ensures var before := Fold(kind, inputs);
            Fold(kind, inputs + [input]) == if before.None? then None else Feed(kind, before.value, input)
  {
    assert (inputs + [input])[..|inputs|] == inputs;
  }

  /** The running states of one group after one more row. */
  lemma FoldFiledNext(entries: seq<Entry>, entry: Entry, key: string, kind: AggregationType, i: nat)
    requires forall k :: 0 <= k < |entries| ==> i < |entries[k].inputs|
    requires i < |entry.inputs|
    ensures var before := Fold(kind, FiledInputs(entries, key, i));
            Fold(kind, FiledInputs(entries + [entry], key, i)) ==
            if HashKey(entry.group) != key || before.None? then before else Feed(kind, before.value, entry.inputs[i])
  {
    FiledInputsNext(entries, entry, key, i);
    FoldNext(kind, FiledInputs(entries, key, i), entry.inputs[i]);
    assert FiledInputs(entries, key, i) + [] == FiledInputs(entries, key, i);
  }

  /** Filing one more row keeps the table. */
  lemma TableNext(table: Table, entries: seq<Entry>, aggregates: seq<Aggregate>, width: nat, entry: Entry, values: seq<Value>)
    requires Sized(entries, width, |aggregates|) && TableOk(table, entries, aggregates, width)
    requires |entry.group| == width && |entry.inputs| == |aggregates| == |values|
    requires var state := StateIn(table, aggregates, entry.group);
             |state.values| == |aggregates| && forall i :: 0 <= i < |aggregates| ==>
               Feed(aggregates[i].kind, state.values[i], entry.inputs[i]) == Some(values[i])
    ensures var key := HashKey(entry.group);
            TableOk(table[key := State(StateIn(table, aggregates, entry.group).group, values)], entries + [entry], aggregates, width)
  {
    hide HashKey, FiledInputs, FirstGroup, Fold, Filed;
    var key, all := HashKey(entry.group), entries + [entry];
    var table' := table[key := State(StateIn(table, aggregates, entry.group).group, values)];
    StateInOk(table, entries, aggregates, width, entry.group);
    forall other ensures other in table' <==> Filed(all, other) {
      FiledNext(entries, entry, other);
    }
    forall other | other in table' ensures StateOk(table'[other], all, aggregates, width, other) {
      FiledNext(entries, entry, other);
      assert other != key ==> StateOk(table[other], entries, aggregates, width, other);
      forall i | 0 <= i < |aggregates|
        ensures Fold(aggregates[i].kind, FiledInputs(all, other, i)) == Some(table'[other].values[i])
      {
        FoldFiledNext(entries, entry, other, aggregates[i].kind, i);
      }
    }
  }

  /** An exception in a running state stays one. */
  lemma {:induction false} FoldStops(entries: seq<Entry>, aggregates: seq<Aggregate>, width: nat, n: nat, key: string, i: nat)
    requires Sized(entries, width, |aggregates|) && n <= |entries| && i < |aggregates|
    requires Fold(aggregates[i].kind, FiledInputs(entries[..n], key, i)).None?
    ensures !FoldsDefined(entries, aggregates, width)
    decreases |entries| - n
  {
    hide HashKey, FiledInputs, Fold;
    if n == |entries| {
      assert entries[..n] == entries;
    } else {
      FoldFiledNext(entries[..n], entries[n], key, aggregates[i].kind, i);
      assert entries[..n + 1] == entries[..n] + [entries[n]];
      FoldStops(entries, aggregates, width, n + 1, key, i);
    }
  }

  lemma {:induction false} EntriesPrefix(groupBys: seq<Expr>, aggregates: seq<Aggregate>, rows: seq<Row>, n: nat)
    requires n <= |rows|
    ensures EntriesOf(groupBys, aggregates, rows).Some? ==>
              EntriesOf(groupBys, aggregates, rows[..n]) == Some(EntriesOf(groupBys, aggregates, rows).value[..n])
    decreases |rows|
  {
    if n < |rows| {
      EntriesPrefix(groupBys, aggregates, rows[..|rows| - 1], n);
      assert rows[..|rows| - 1][..n] == rows[..n];
      var all := EntriesOf(groupBys, aggregates, rows);
      if all.Some? {
        assert all.value[..|rows| - 1][..n] == all.value[..n];
      }
    } else {
      assert rows[..n] == rows;
      var all := EntriesOf(groupBys, aggregates, rows);
      assert all.Some? ==> all.value[..n] == all.value;
    }
  }

  lemma EntriesNext(groupBys: seq<Expr>, aggregates: seq<Aggregate>, rows: seq<Row>, n: nat, entries: seq<Entry>)
    requires n < |rows| && EntriesOf(groupBys, aggregates, rows[..n]) == Some(entries)
    ensures var entry := EntryOf(groupBys, aggregates, rows[n]);
            EntriesOf(groupBys, aggregates, rows[..n + 1]) == if entry.None? then None else Some(entries + [entry.value])
  {
    assert rows[..n + 1][..n] == rows[..n];
  }

  /** Files one row; `None` is an exception. */
  method FileRow(groupBys: seq<Expr>, aggregates: seq<Aggregate>, row: Row, table: Table, ghost entries: seq<Entry>)
    returns (table': Option<Table>)
    requires Sized(entries, |groupBys|, |aggregates|) && TableOk(table, entries, aggregates, |groupBys|)
    ensures var entry := EntryOf(groupBys, aggregates, row);
            && (table'.Some? ==> entry.Some? && TableOk(table'.value, entries + [entry.value], aggregates, |groupBys|))
            && (table'.None? && entry.Some? ==> !FoldsDefined(entries + [entry.value], aggregates, |groupBys|))
  {
    hide HashKey, TableOk, FoldsDefined, FiledInputs, FirstGroup, Fold, Feed;
    var group, key := KeyOfRow(groupBys, row);
    var inputs := EvaluateInputs(aggregates, row);
    if group.None? || inputs.None? {
      return None;
    }
    ghost var entry := Entry(group.value, inputs.value);
    StateInOk(table, entries, aggregates, |groupBys|, group.value);
    var current := table;
    if key !in current {
      current := current[key := State(group.value, Initials(aggregates))];
    }
    var values := FeedAll(aggregates, current[key].values, inputs.value);
    if values.None? {
      ghost var i :| 0 <= i < |aggregates| && Feed(aggregates[i].kind, current[key].values[i], inputs.value[i]).None?;
      FoldFiledNext(entries, entry, key, aggregates[i].kind, i);
      assert (entries + [entry])[..|entries| + 1] == entries + [entry];
      FoldStops(entries + [entry], aggregates, |groupBys|, |entries| + 1, key, i);
      return None;
    }
    TableNext(table, entries, aggregates, |groupBys|, entry, values.value);
    current := current[key := State(current[key].group, values.value)];
    assert current == table[key := State(StateIn(table, aggregates, group.value).group, values.value)];
    table' := Some(current);
  }

  method FileAll(groupBys: seq<Expr>, aggregates: seq<Aggregate>, rows: seq<Row>) returns (table: Option<Table>)
    ensures var entries := EntriesOf(groupBys, aggregates, rows);
            && (table.Some? <==> entries.Some? && FoldsDefined(entries.value, aggregates, |groupBys|))
            && (table.Some? ==> TableOk(table.value, entries.value, aggregates, |groupBys|))
  {
    hide HashKey, FiledInputs, FirstGroup, Fold, Feed;
    var current: Table := map[];
    ghost var entries: seq<Entry> := [];
    StartsOk(aggregates, |groupBys|);
    for n := 0 to |rows|
      invariant EntriesOf(groupBys, aggregates, rows[..n]) == Some(entries)
      invariant TableOk(current, entries, aggregates, |groupBys|) && FoldsDefined(entries, aggregates, |groupBys|)
    {
      var next := FileRow(groupBys, aggregates, rows[n], current, entries);
      EntriesNext(groupBys, aggregates, rows, n, entries);
      if next.None? {
        Stops(groupBys, aggregates, rows, n + 1);
        return None;
      }
      current, entries := next.value, entries + [EntryOf(groupBys, aggregates, rows[n]).value];
      TableFolds(current, entries, aggregates, |groupBys|);
    }
    assert rows[..|rows|] == rows;
    table := Some(current);
  }

  lemma StartsOk(aggregates: seq<Aggregate>, width: nat)
    ensures TableOk(map[], [], aggregates, width) && FoldsDefined([], aggregates, width)
  {
  }

  /** A table of states means that all of them could be computed. */
  lemma TableFolds(table: Table, entries: seq<Entry>, aggregates: seq<Aggregate>, width: nat)
    requires Sized(entries, width, |aggregates|) && TableOk(table, entries, aggregates, width)
    ensures FoldsDefined(entries, aggregates, width)
  {
    forall key, i | 0 <= i < |aggregates| ensures Fold(aggregates[i].kind, FiledInputs(entries, key, i)).Some? {
      if key in table {
        assert StateOk(table[key], entries, aggregates, width, key);
      } else {
        NothingFiled(entries, key, i);
      }
    }
  }

  /** An exception among the first `n` rows is one of the whole. */
  lemma Stops(groupBys: seq<Expr>, aggregates: seq<Aggregate>, rows: seq<Row>, n: nat)
    requires n <= |rows|
    requires var first := EntriesOf(groupBys, aggregates, rows[..n]);
             first.None? || !FoldsDefined(first.value, aggregates, |groupBys|)
    ensures var all := EntriesOf(groupBys, aggregates, rows);
            all.None? || !FoldsDefined(all.value, aggregates, |groupBys|)
  {
    EntriesPrefix(groupBys, aggregates, rows, n);
    var all := EntriesOf(groupBys, aggregates, rows);
    if all.Some? {
      var first := all.value[..n];
      var key, i :| 0 <= i < |aggregates| && Fold(aggregates[i].kind, FiledInputs(first, key, i)).None?;
      FoldStops(all.value, aggregates, |groupBys|, n, key, i);
    }
  }

  // ---------- The result ----------

  /** The keys that get a row: those of the rows, or one for an empty input without grouping. */
  ghost predicate Present(entries: seq<Entry>, width: nat, key: string) {
    Filed(entries, key) || (entries == [] && width == 0 && key == "SINGLE_GROUP")
  }

  ghost function Outcome(entries: seq<Entry>, aggregates: seq<Aggregate>, width: nat, key: string): (r: Row)
    requires Sized(entries, width, |aggregates|) && FoldsDefined(entries, aggregates, width)
    ensures |r| == |FirstGroup(entries, key)| + |aggregates|
  {
    FirstGroup(entries, key) + Folds(entries, aggregates, width, key)
  }

  ghost function Folds(entries: seq<Entry>, aggregates: seq<Aggregate>, width: nat, key: string): (r: seq<Value>)
    requires Sized(entries, width, |aggregates|) && FoldsDefined(entries, aggregates, width)
    ensures |r| == |aggregates|
    ensures forall i :: 0 <= i < |aggregates| ==> Fold(aggregates[i].kind, FiledInputs(entries, key, i)) == Some(r[i])
  {
    seq(|aggregates|, i requires 0 <= i < |aggregates| => Fold(aggregates[i].kind, FiledInputs(entries, key, i)).value)
  }

  ghost predicate Computable(entries: seq<Entry>, aggregates: seq<Aggregate>, width: nat)
    requires Sized(entries, width, |aggregates|)
  {
    FoldsDefined(entries, aggregates, width) &&
    forall key :: Present(entries, width, key) ==> Storable(Outcome(entries, aggregates, width, key))
  }

  /** One row for every key, in some order. */
  ghost predicate IsGrouping(result: seq<Row>, entries: seq<Entry>, aggregates: seq<Aggregate>, width: nat, keys: seq<string>)
    requires Sized(entries, width, |aggregates|) && FoldsDefined(entries, aggregates, width)
  {
    && |keys| == |result| && (forall j, k :: 0 <= j < k < |keys| ==> keys[j] != keys[k])
    && (forall key :: key in keys <==> Present(entries, width, key))
    && (forall k :: 0 <= k < |keys| ==> result[k] == Outcome(entries, aggregates, width, keys[k]))
  }

  ghost predicate Complete(table: Table, entries: seq<Entry>, aggregates: seq<Aggregate>, width: nat)
    requires Sized(entries, width, |aggregates|) && FoldsDefined(entries, aggregates, width)
  {
    && (forall key :: key in table <==> Present(entries, width, key))
    && (forall key :: key in table ==> table[key].group + table[key].values == Outcome(entries, aggregates, width, key))
  }

  lemma TableComplete(table: Table, entries: seq<Entry>, aggregates: seq<Aggregate>, width: nat)
    requires Sized(entries, width, |aggregates|) && TableOk(table, entries, aggregates, width)
    requires FoldsDefined(entries, aggregates, width)
    ensures var table' := if entries == [] && width == 0 then table["SINGLE_GROUP" := State([], Initials(aggregates))] else table;
            Complete(table', entries, aggregates, width)
  {
    hide FoldsDefined, FiledInputs, FirstGroup, Initials, HashKey, Outcome;
    forall key | key in table ensures table[key].group + table[key].values == Outcome(entries, aggregates, width, key) {
      StateIsOutcome(table[key], entries, aggregates, width, key);
    }
    if entries == [] && width == 0 {
      EmptyStateOk(aggregates, "SINGLE_GROUP");
      StateIsOutcome(State([], Initials(aggregates)), entries, aggregates, width, "SINGLE_GROUP");
    }
  }

  /** An empty input leaves the initial states. */
  lemma EmptyStateOk(aggregates: seq<Aggregate>, key: string)
    ensures StateOk(State([], Initials(aggregates)), [], aggregates, 0, key)
  {
  }

  lemma StateIsOutcome(state: State, entries: seq<Entry>, aggregates: seq<Aggregate>, width: nat, key: string)
    requires Sized(entries, width, |aggregates|) && FoldsDefined(entries, aggregates, width)
    requires StateOk(state, entries, aggregates, width, key)
    ensures state.group + state.values == Outcome(entries, aggregates, width, key)
  {
    hide FoldsDefined, FiledInputs, FirstGroup, Folds, Fold;
    var folds := Folds(entries, aggregates, width, key);
    assert forall i :: 0 <= i < |aggregates| ==> state.values[i] == folds[i];
    assert state.values == folds;
  }

  /** Turns the table into rows, in no particular order of the keys. */
  method Emit(table: Table, ghost entries: seq<Entry>, aggregates: seq<Aggregate>, ghost width: nat)
    returns (result: Option<seq<Row>>, ghost keys: seq<string>)
    requires Sized(entries, width, |aggregates|) && FoldsDefined(entries, aggregates, width)
    requires Complete(table, entries, aggregates, width)
    ensures result.Some? <==> Computable(entries, aggregates, width)
    ensures result.Some? ==> IsGrouping(result.value, entries, aggregates, width, keys)
  {
    hide FoldsDefined, Outcome, Present;
    var todo := table.Keys;
    var rows: seq<Row> := [];
    keys := [];
    while todo != {}
      invariant todo <= table.Keys && |keys| == |rows|
      invariant forall j, k :: 0 <= j < k < |keys| ==> keys[j] != keys[k]
      invariant forall key :: key in keys <==> key in table && key !in todo
      invariant forall k :: 0 <= k < |keys| ==> rows[k] == Outcome(entries, aggregates, width, keys[k]) && Storable(rows[k])
      decreases |todo|
    {
      var key := AnyOf(todo);
      var row := table[key].group + table[key].values;
      if !Storable(row) {
        return None, [];
      }
      rows, keys, todo := rows + [row], keys + [key], todo - {key};
    }
    result := Some(rows);
  }

  method Aggregation(groupBys: seq<Expr>, aggregates: seq<Aggregate>, rows: seq<Row>)
    returns (result: Option<seq<Row>>, ghost keys: seq<string>)
    ensures var entries := EntriesOf(groupBys, aggregates, rows);
            && (result.Some? <==> entries.Some? && Computable(entries.value, aggregates, |groupBys|))
            && (result.Some? ==> (IsGroupBy(result.value, entries.value, aggregates, |groupBys|) <==> Apart(entries.value)))
    ensures result.Some? ==> (GroupsOfRows(groupBys, aggregates, rows, result.value) <==> KeysApart(groupBys, rows))
    ensures result.Some? ==>
              forall types, nullText, inputTypes ::
                Readable(types, nullText) && RowsTyped(groupBys, aggregates, rows, types, nullText, inputTypes) ==>
                  GroupsOfRows(groupBys, aggregates, rows, result.value) && AggregatesMean(groupBys, aggregates, rows, result.value)
    ensures result.Some? ==>
              IsGrouping(result.value, EntriesOf(groupBys, aggregates, rows).value, aggregates, |groupBys|, keys)
  {
    hide FoldsDefined, FiledInputs, TableOk, IsGroupBy, Apart, GroupsOfRows, KeysApart, RowsTyped, AggregatesMean, Readable;
    keys := [];
    var table := FileAll(groupBys, aggregates, rows);
    if table.None? {
      return None, [];
    }
    ghost var entries := EntriesOf(groupBys, aggregates, rows).value;
    var current := table.value;
    TableComplete(current, entries, aggregates, |groupBys|);
    if |rows| == 0 && |groupBys| == 0 {
      current := current["SINGLE_GROUP" := State([], Initials(aggregates))];
    }
    result, keys := Emit(current, entries, aggregates, |groupBys|);
    if result.Some? {
      GroupsExactly(result.value, entries, aggregates, |groupBys|, keys);
      GroupByOnRows(groupBys, aggregates, rows, entries, result.value);
      ApartOnRows(groupBys, aggregates, rows, entries);
      forall types, nullText, inputTypes |
        Readable(types, nullText) && RowsTyped(groupBys, aggregates, rows, types, nullText, inputTypes)
        ensures GroupsOfRows(groupBys, aggregates, rows, result.value) && AggregatesMean(groupBys, aggregates, rows, result.value)
      {
        AggregationOnRows(groupBys, aggregates, rows, entries, result.value, keys, types, nullText, inputTypes);
      }
    }
  }

  // ---------- Group-by on values ----------

  /** The inputs of aggregate `i` on the rows whose grouping values are `group`. */
  function GroupInputs(entries: seq<Entry>, group: seq<Value>, i: nat): seq<Value>
    requires forall k :: 0 <= k < |entries| ==> i < |entries[k].inputs|
  {
    if entries == [] then [] else
      var n := |entries| - 1;
      GroupInputs(entries[..n], group, i) + if entries[n].group == group then [entries[n].inputs[i]] else []
  }

  predicate HasGroup(entries: seq<Entry>, group: seq<Value>) {
    exists k :: 0 <= k < |entries| && entries[k].group == group
  }

  /** The rows of a group-by: each group once, with its aggregates over exactly its rows. */
  ghost predicate IsGroupBy(result: seq<Row>, entries: seq<Entry>, aggregates: seq<Aggregate>, width: nat)
    requires Sized(entries, width, |aggregates|)
  {
    && (forall k :: 0 <= k < |result| ==> GroupRow(result[k], entries, aggregates, width))
    && (forall j, k :: 0 <= j < k < |result| ==> result[j][..width] != result[k][..width])
    && (forall k :: 0 <= k < |entries| ==> Covered(result, entries[k].group, width))
    && (entries == [] && width == 0 ==> |result| == 1)
  }

  ghost predicate GroupRow(row: Row, entries: seq<Entry>, aggregates: seq<Aggregate>, width: nat)
    requires Sized(entries, width, |aggregates|)
  {
    && |row| == width + |aggregates|
    && (HasGroup(entries, row[..width]) || (entries == [] && width == 0))
    && forall i :: 0 <= i < |aggregates| ==>
         Fold(aggregates[i].kind, GroupInputs(entries, row[..width], i)) == Some(row[width + i])
  }

  ghost predicate Covered(result: seq<Row>, group: seq<Value>, width: nat) {
    exists j :: 0 <= j < |result| && |result[j]| >= width && result[j][..width] == group
  }

  /** No two rows with different grouping values are filed under one key. */
  ghost predicate Apart(entries: seq<Entry>) {
    forall j, k :: 0 <= j < |entries| && 0 <= k < |entries| && HashKey(entries[j].group) == HashKey(entries[k].group) ==>
      entries[j].group == entries[k].group
  }

  lemma {:induction false} FirstGroupFiled(entries: seq<Entry>, key: string)
    requires Filed(entries, key)
    ensures HasGroup(entries, FirstGroup(entries, key)) && HashKey(FirstGroup(entries, key)) == key
    decreases |entries|
  {
    hide HashKey, Filed, FirstGroup;
    if entries == [] {
      NothingAtAll(key);
    } else {
      var n := |entries| - 1;
      assert entries == entries[..n] + [entries[n]];
      FiledNext(entries[..n], entries[n], key);
      if Filed(entries[..n], key) {
        FirstGroupFiled(entries[..n], key);
        var k :| 0 <= k < n && entries[..n][k].group == FirstGroup(entries[..n], key);
        assert entries[k].group == FirstGroup(entries, key);
      }
    }
  }

  lemma NothingAtAll(key: string)
    ensures !Filed([], key)
  {
  }

  /** With the keys apart, filing by key is grouping by value. */
  lemma {:induction false} FiledIsGrouped(entries: seq<Entry>, group: seq<Value>, i: nat)
    requires forall k :: 0 <= k < |entries| ==> i < |entries[k].inputs|
    requires forall k :: 0 <= k < |entries| && HashKey(entries[k].group) == HashKey(group) ==> entries[k].group == group
    ensures FiledInputs(entries, HashKey(group), i) == GroupInputs(entries, group, i)
    decreases |entries|
  {
    if entries != [] {
      FiledIsGrouped(entries[..|entries| - 1], group, i);
    }
  }

  lemma OutcomeIsGroupRow(entries: seq<Entry>, aggregates: seq<Aggregate>, width: nat, key: string)
    requires Sized(entries, width, |aggregates|) && FoldsDefined(entries, aggregates, width)
    requires Apart(entries) && Present(entries, width, key)
    ensures var row := Outcome(entries, aggregates, width, key);
            && GroupRow(row, entries, aggregates, width) && |row| >= width && row[..width] == FirstGroup(entries, key)
            && (entries != [] ==> HashKey(row[..width]) == key)
  {
    hide FoldsDefined, FiledInputs, FirstGroup, Folds, Fold, GroupInputs, HashKey, Filed, HasGroup;
    var group, folds := FirstGroup(entries, key), Folds(entries, aggregates, width, key);
    FiledGroup(entries, aggregates, width, key);
    Parts(group, folds);
    var row := group + folds;
    forall i | 0 <= i < |aggregates|
      ensures Fold(aggregates[i].kind, GroupInputs(entries, group, i)) == Some(row[width + i])
    {
      assert row[width + i] == folds[i] && FiledInputs(entries, key, i) == GroupInputs(entries, group, i);
    }
  }

  lemma Parts(group: seq<Value>, folds: seq<Value>)
    ensures (group + folds)[..|group|] == group
    ensures forall i :: 0 <= i < |folds| ==> (group + folds)[|group| + i] == folds[i]
  {
  }

  /** With the keys apart, a key stands for one group. */
  lemma FiledGroup(entries: seq<Entry>, aggregates: seq<Aggregate>, width: nat, key: string)
    requires Sized(entries, width, |aggregates|) && Apart(entries) && Present(entries, width, key)
    ensures var group := FirstGroup(entries, key);
            && |group| == width && (entries != [] ==> HasGroup(entries, group) && HashKey(group) == key)
            && (entries == [] ==> width == 0)
            && forall i :: 0 <= i < |aggregates| ==> FiledInputs(entries, key, i) == GroupInputs(entries, group, i)
  {
    hide HashKey;
    if entries != [] {
      FirstGroupFiled(entries, key);
      var group := FirstGroup(entries, key);
      var j :| 0 <= j < |entries| && entries[j].group == group;
      forall i | 0 <= i < |aggregates| ensures FiledInputs(entries, key, i) == GroupInputs(entries, group, i) {
        FiledIsGrouped(entries, group, i);
      }
    }
  }

  /** The result is the group-by exactly when no two groups share a key. */
  lemma GroupsExactly(result: seq<Row>, entries: seq<Entry>, aggregates: seq<Aggregate>, width: nat, keys: seq<string>)
    requires Sized(entries, width, |aggregates|) && FoldsDefined(entries, aggregates, width)
    requires IsGrouping(result, entries, aggregates, width, keys)
    ensures IsGroupBy(result, entries, aggregates, width) <==> Apart(entries)
  {
    if Apart(entries) {
      ApartGroups(result, entries, aggregates, width, keys);
    } else {
      SharedKeyLosesGroup(result, entries, aggregates, width, keys);
    }
  }

  lemma ApartGroups(result: seq<Row>, entries: seq<Entry>, aggregates: seq<Aggregate>, width: nat, keys: seq<string>)
    requires Sized(entries, width, |aggregates|) && FoldsDefined(entries, aggregates, width)
    requires IsGrouping(result, entries, aggregates, width, keys) && Apart(entries)
    ensures IsGroupBy(result, entries, aggregates, width)
  {
    hide FoldsDefined, Outcome, GroupRow, HasGroup, Apart, HashKey, FirstGroup, Filed;
    RowsOfKeys(result, entries, aggregates, width, keys);
    if entries == [] {
      OneKey(keys, width);
    }
    assert entries != [] ==> forall j, k :: 0 <= j < k < |result| ==> keys[j] != keys[k] && result[j][..width] != result[k][..width];
    forall k | 0 <= k < |entries| ensures Covered(result, entries[k].group, width) {
      ApartFirst(entries, k);
      var key := HashKey(entries[k].group);
      assert Present(entries, width, key);
      var j :| 0 <= j < |keys| && keys[j] == key;
      assert result[j][..width] == entries[k].group;
    }
  }

  lemma RowsOfKeys(result: seq<Row>, entries: seq<Entry>, aggregates: seq<Aggregate>, width: nat, keys: seq<string>)
    requires Sized(entries, width, |aggregates|) && FoldsDefined(entries, aggregates, width)
    requires IsGrouping(result, entries, aggregates, width, keys) && Apart(entries)
    ensures forall k :: 0 <= k < |result| ==>
              && GroupRow(result[k], entries, aggregates, width) && |result[k]| >= width
              && result[k][..width] == FirstGroup(entries, keys[k])
              && (entries != [] ==> HashKey(result[k][..width]) == keys[k])
  {
    hide FoldsDefined, Outcome, GroupRow, HasGroup, Apart, HashKey, FirstGroup, Filed, Present;
    forall k | 0 <= k < |result|
      ensures && GroupRow(result[k], entries, aggregates, width) && |result[k]| >= width
              && result[k][..width] == FirstGroup(entries, keys[k])
              && (entries != [] ==> HashKey(result[k][..width]) == keys[k])
    {
      assert keys[k] in keys;
      OutcomeIsGroupRow(entries, aggregates, width, keys[k]);
    }
  }

  lemma ApartFirst(entries: seq<Entry>, k: nat)
    requires Apart(entries) && k < |entries|
    ensures FirstGroup(entries, HashKey(entries[k].group)) == entries[k].group && Filed(entries, HashKey(entries[k].group))
  {
    var key := HashKey(entries[k].group);
    assert Filed(entries, key);
    FirstGroupFiled(entries, key);
    var j :| 0 <= j < |entries| && entries[j].group == FirstGroup(entries, key);
  }

  lemma OneKey(keys: seq<string>, width: nat)
    requires forall j, k :: 0 <= j < k < |keys| ==> keys[j] != keys[k]
    requires forall key :: key in keys <==> Present([], width, key)
    ensures |keys| == if width == 0 then 1 else 0
  {
    assert Present([], width, "SINGLE_GROUP") <==> width == 0;
    assert |keys| > 0 ==> keys[0] in keys;
    if |keys| > 1 {
      Differ(keys, 0, 1);
    }
  }

  lemma Differ(keys: seq<string>, j: nat, k: nat)
    requires j < k < |keys| && forall a, b :: 0 <= a < b < |keys| ==> keys[a] != keys[b]
    ensures keys[j] != keys[k] && keys[j] in keys && keys[k] in keys
  {
  }

  lemma SharedKeyLosesGroup(result: seq<Row>, entries: seq<Entry>, aggregates: seq<Aggregate>, width: nat, keys: seq<string>)
    requires Sized(entries, width, |aggregates|) && FoldsDefined(entries, aggregates, width)
    requires IsGrouping(result, entries, aggregates, width, keys) && !Apart(entries)
    ensures !IsGroupBy(result, entries, aggregates, width)
  {
    var j, k :| 0 <= j < |entries| && 0 <= k < |entries| && HashKey(entries[j].group) == HashKey(entries[k].group) &&
                entries[j].group != entries[k].group;
    if Covered(result, entries[j].group, width) && Covered(result, entries[k].group, width) {
      var a :| 0 <= a < |result| && |result[a]| >= width && result[a][..width] == entries[j].group;
      var b :| 0 <= b < |result| && |result[b]| >= width && result[b][..width] == entries[k].group;
      KeyOfOutcome(result, entries, aggregates, width, keys, a);
      KeyOfOutcome(result, entries, aggregates, width, keys, b);
    }
  }

  lemma KeyOfOutcome(result: seq<Row>, entries: seq<Entry>, aggregates: seq<Aggregate>, width: nat, keys: seq<string>, k: nat)
    requires Sized(entries, width, |aggregates|) && FoldsDefined(entries, aggregates, width) && entries != []
    requires IsGrouping(result, entries, aggregates, width, keys) && k < |result|
    ensures |result[k]| >= width && HashKey(result[k][..width]) == keys[k]
  {
    assert keys[k] in keys;
    FirstGroupFiled(entries, keys[k]);
    assert result[k][..width] == FirstGroup(entries, keys[k]);
  }

  /** Column types whose text can be read back keep the groups apart. */
  lemma ReadableApart(entries: seq<Entry>, types: seq<TypeId>, nullText: bool)
    requires Readable(types, nullText) && forall k :: 0 <= k < |entries| ==> Typed(entries[k].group, types, nullText)
    ensures Apart(entries)
  {
    forall j, k | 0 <= j < |entries| && 0 <= k < |entries| && HashKey(entries[j].group) == HashKey(entries[k].group)
      ensures entries[j].group == entries[k].group
    {
      var a, b := entries[j].group, entries[k].group;
      if a != [] {
        KeyNotEmpty(a);
        KeyNotEmpty(b);
        KeyReadable(a, b, types, nullText);
      }
    }
  }

  lemma KeyNotEmpty(values: seq<Value>)
    requires values != []
    ensures KeyText(values) != ""
  {
  }

  /** Input `i` of every row has type `inputTypes[i]`, one that aggregate `i` can be computed on. */
  ghost predicate InputsTyped(entries: seq<Entry>, aggregates: seq<Aggregate>, width: nat, inputTypes: seq<TypeId>)
    requires Sized(entries, width, |aggregates|)
  {
    && |inputTypes| == |aggregates|
    && forall i :: 0 <= i < |aggregates| ==>
         Suits(aggregates[i].kind, inputTypes[i]) &&
         forall k :: 0 <= k < |entries| ==> entries[k].inputs[i].Type() == inputTypes[i]
  }

  lemma {:induction false} GroupInputsTyped(entries: seq<Entry>, group: seq<Value>, i: nat, t: TypeId)
    requires forall k :: 0 <= k < |entries| ==> i < |entries[k].inputs| && entries[k].inputs[i].Type() == t
    ensures AllOf(GroupInputs(entries, group, i), t)
    decreases |entries|
  {
    if entries != [] {
      GroupInputsTyped(entries[..|entries| - 1], group, i, t);
    }
  }

  /** For suitable column types the result is what the query means: each group once, with its counts, sums and extremes. */
  lemma {:induction false} AggregationMeans(result: seq<Row>, entries: seq<Entry>, aggregates: seq<Aggregate>, width: nat, keys: seq<string>,
                         types: seq<TypeId>, nullText: bool, inputTypes: seq<TypeId>)
    requires Sized(entries, width, |aggregates|) && FoldsDefined(entries, aggregates, width)
    requires IsGrouping(result, entries, aggregates, width, keys) && InputsTyped(entries, aggregates, width, inputTypes)
    requires Readable(types, nullText) && forall k :: 0 <= k < |entries| ==> Typed(entries[k].group, types, nullText)
    ensures IsGroupBy(result, entries, aggregates, width)
    ensures forall k, i :: 0 <= k < |result| && 0 <= i < |aggregates| ==>
              Means(aggregates[i].kind, GroupInputs(entries, result[k][..width], i), result[k][width + i])
  {
    ReadableApart(entries, types, nullText);
    GroupsExactly(result, entries, aggregates, width, keys);
    hide FoldsDefined, IsGrouping, GroupInputs, Fold, Means;
    forall k, i | 0 <= k < |result| && 0 <= i < |aggregates|
      ensures Means(aggregates[i].kind, GroupInputs(entries, result[k][..width], i), result[k][width + i])
    {
      assert GroupRow(result[k], entries, aggregates, width);
      GroupInputsTyped(entries, result[k][..width], i, inputTypes[i]);
      FoldMeans(aggregates[i].kind, GroupInputs(entries, result[k][..width], i), inputTypes[i]);
    }
  }

  // ---------- Group-by on rows ----------

  /** The values of the grouping expressions on the row. */
  ghost predicate InGroup(groupBys: seq<Expr>, group: seq<Value>, row: Row) {
    |group| == |groupBys| && forall j :: 0 <= j < |groupBys| ==> Evaluate(groupBys[j], row) == Some(group[j])
  }

  /** The values of an expression on the rows of a group, in order. */
  ghost function ValuesOn(e: Expr, groupBys: seq<Expr>, group: seq<Value>, rows: seq<Row>): seq<Value> {
    if rows == [] then [] else
      var n := |rows| - 1;
      ValuesOn(e, groupBys, group, rows[..n]) +
      if InGroup(groupBys, group, rows[n]) && Evaluate(e, rows[n]).Some? then [Evaluate(e, rows[n]).value] else []
  }

  /** A result row: the values of a group, and then each aggregate over its own expression on exactly the rows of the group. */
  ghost predicate ResultRow(groupBys: seq<Expr>, aggregates: seq<Aggregate>, rows: seq<Row>, r: Row) {
    && |r| == |groupBys| + |aggregates|
    && ((exists row :: row in rows && InGroup(groupBys, r[..|groupBys|], row)) || (rows == [] && groupBys == []))
    && forall i :: 0 <= i < |aggregates| ==>
         Fold(aggregates[i].kind, ValuesOn(aggregates[i].input, groupBys, r[..|groupBys|], rows)) == Some(r[|groupBys| + i])
  }

  /** The group-by of the rows: one result row for every group, also for no rows when there is no grouping. */
  ghost predicate GroupsOfRows(groupBys: seq<Expr>, aggregates: seq<Aggregate>, rows: seq<Row>, result: seq<Row>) {
    && (forall k :: 0 <= k < |result| ==> ResultRow(groupBys, aggregates, rows, result[k]))
    && (forall j, k :: 0 <= j < k < |result| ==> result[j][..|groupBys|] != result[k][..|groupBys|])
    && (forall row :: row in rows ==> HasResult(groupBys, result, row))
    && (rows == [] && groupBys == [] ==> |result| == 1)
  }

  ghost predicate HasResult(groupBys: seq<Expr>, result: seq<Row>, row: Row) {
    exists k :: 0 <= k < |result| && |result[k]| >= |groupBys| && InGroup(groupBys, result[k][..|groupBys|], row)
  }

  /** Rows of different groups have different keys. */
  ghost predicate KeysApart(groupBys: seq<Expr>, rows: seq<Row>) {
    forall a, b, g, h :: a in rows && b in rows && InGroup(groupBys, g, a) && InGroup(groupBys, h, b) && HashKey(g) == HashKey(h) ==> g == h
  }

  lemma EntryMeans(groupBys: seq<Expr>, aggregates: seq<Aggregate>, row: Row, entry: Entry)
    requires EntryOf(groupBys, aggregates, row) == Some(entry)
    ensures InGroup(groupBys, entry.group, row)
    ensures forall i :: 0 <= i < |aggregates| ==> Evaluate(aggregates[i].input, row) == Some(entry.inputs[i])
  {
    hide Evaluate;
    EvaluatedMeans(groupBys, row);
    EvaluatedMeans(InputsOf(aggregates), row);
  }

  /** What the executor keeps of the rows are the values of the expressions, each in its place. */
  lemma {:induction false} EntriesMean(groupBys: seq<Expr>, aggregates: seq<Aggregate>, rows: seq<Row>, entries: seq<Entry>)
    requires EntriesOf(groupBys, aggregates, rows) == Some(entries)
    ensures forall k :: 0 <= k < |rows| ==>
              && InGroup(groupBys, entries[k].group, rows[k])
              && forall i :: 0 <= i < |aggregates| ==> Evaluate(aggregates[i].input, rows[k]) == Some(entries[k].inputs[i])
    decreases |rows|
  {
    hide Evaluate, EntryOf, InGroup;
    if rows != [] {
      var n := |rows| - 1;
      EntriesMean(groupBys, aggregates, rows[..n], entries[..n]);
      EntryMeans(groupBys, aggregates, rows[n], entries[n]);
      assert forall k :: 0 <= k < n ==> rows[..n][k] == rows[k] && entries[..n][k] == entries[k];
    }
  }

  /** A row has one group only. */
  lemma OneGroup(groupBys: seq<Expr>, g: seq<Value>, h: seq<Value>, row: Row)
    requires InGroup(groupBys, g, row)
    ensures InGroup(groupBys, h, row) <==> h == g
  {
  }

  lemma {:induction false} ValuesAreInputs(groupBys: seq<Expr>, aggregates: seq<Aggregate>, rows: seq<Row>, entries: seq<Entry>,
                                           group: seq<Value>, i: nat)
    requires EntriesOf(groupBys, aggregates, rows) == Some(entries) && i < |aggregates|
    ensures ValuesOn(aggregates[i].input, groupBys, group, rows) == GroupInputs(entries, group, i)
    decreases |rows|
  {
    hide Evaluate, InGroup;
    if rows != [] {
      var n := |rows| - 1;
      EntriesMean(groupBys, aggregates, rows, entries);
      OneGroup(groupBys, entries[n].group, group, rows[n]);
      ValuesAreInputs(groupBys, aggregates, rows[..n], entries[..n], group, i);
    }
  }

  /** Grouping what the executor keeps of the rows is grouping the rows. */
  lemma GroupByOnRows(groupBys: seq<Expr>, aggregates: seq<Aggregate>, rows: seq<Row>, entries: seq<Entry>, result: seq<Row>)
    requires EntriesOf(groupBys, aggregates, rows) == Some(entries)
    ensures IsGroupBy(result, entries, aggregates, |groupBys|) <==> GroupsOfRows(groupBys, aggregates, rows, result)
  {
    hide EntriesOf, Evaluate, InGroup, Fold, GroupRow, ResultRow, Covered, HasResult;
    var width := |groupBys|;
    EntriesMean(groupBys, aggregates, rows, entries);
    forall k | 0 <= k < |result|
      ensures GroupRow(result[k], entries, aggregates, width) <==> ResultRow(groupBys, aggregates, rows, result[k])
    {
      RowOnRows(groupBys, aggregates, rows, entries, result[k]);
    }
    forall k | 0 <= k < |rows| ensures Covered(result, entries[k].group, width) <==> HasResult(groupBys, result, rows[k]) {
      CoveredOnRows(groupBys, entries[k].group, rows[k], result);
    }
    AllHaveResults(groupBys, result, rows);
  }

  lemma AllHaveResults(groupBys: seq<Expr>, result: seq<Row>, rows: seq<Row>)
    ensures (forall row :: row in rows ==> HasResult(groupBys, result, row)) <==>
            forall k :: 0 <= k < |rows| ==> HasResult(groupBys, result, rows[k])
  {
    hide HasResult;
  }

  lemma CoveredOnRows(groupBys: seq<Expr>, group: seq<Value>, row: Row, result: seq<Row>)
    requires InGroup(groupBys, group, row)
    ensures Covered(result, group, |groupBys|) <==> HasResult(groupBys, result, row)
  {
    hide InGroup;
    forall k | 0 <= k < |result| && |result[k]| >= |groupBys|
      ensures result[k][..|groupBys|] == group <==> InGroup(groupBys, result[k][..|groupBys|], row)
    {
      OneGroup(groupBys, group, result[k][..|groupBys|], row);
    }
  }

  lemma RowOnRows(groupBys: seq<Expr>, aggregates: seq<Aggregate>, rows: seq<Row>, entries: seq<Entry>, r: Row)
    requires EntriesOf(groupBys, aggregates, rows) == Some(entries)
    ensures GroupRow(r, entries, aggregates, |groupBys|) <==> ResultRow(groupBys, aggregates, rows, r)
  {
    hide EntriesOf, Evaluate, InGroup, Fold, ValuesOn, GroupInputs;
    if |r| == |groupBys| + |aggregates| {
      var group := r[..|groupBys|];
      EntriesMean(groupBys, aggregates, rows, entries);
      forall k | 0 <= k < |rows| ensures InGroup(groupBys, group, rows[k]) <==> entries[k].group == group {
        OneGroup(groupBys, entries[k].group, group, rows[k]);
      }
      assert HasGroup(entries, group) <==> exists row :: row in rows && InGroup(groupBys, group, row);
      forall i | 0 <= i < |aggregates|
        ensures ValuesOn(aggregates[i].input, groupBys, group, rows) == GroupInputs(entries, group, i)
      {
        ValuesAreInputs(groupBys, aggregates, rows, entries, group, i);
      }
    }
  }

  lemma ApartOnRows(groupBys: seq<Expr>, aggregates: seq<Aggregate>, rows: seq<Row>, entries: seq<Entry>)
    requires EntriesOf(groupBys, aggregates, rows) == Some(entries)
    ensures Apart(entries) <==> KeysApart(groupBys, rows)
  {
    hide EntriesOf, Evaluate, InGroup, HashKey;
    EntriesMean(groupBys, aggregates, rows, entries);
    if Apart(entries) {
      forall a, b, g, h | a in rows && b in rows && InGroup(groupBys, g, a) && InGroup(groupBys, h, b) && HashKey(g) == HashKey(h)
        ensures g == h
      {
        var j :| 0 <= j < |rows| && rows[j] == a;
        var k :| 0 <= k < |rows| && rows[k] == b;
        OneGroup(groupBys, entries[j].group, g, a);
        OneGroup(groupBys, entries[k].group, h, b);
      }
    }
    if KeysApart(groupBys, rows) {
      forall j, k | 0 <= j < |entries| && 0 <= k < |entries| && HashKey(entries[j].group) == HashKey(entries[k].group)
        ensures entries[j].group == entries[k].group
      {
        assert rows[j] in rows && rows[k] in rows;
      }
    }
  }

  /** The columns of the rows have these types, of which every aggregate suits its own. */
  ghost predicate RowsTyped(groupBys: seq<Expr>, aggregates: seq<Aggregate>, rows: seq<Row>,
                            types: seq<TypeId>, nullText: bool, inputTypes: seq<TypeId>) {
    && |inputTypes| == |aggregates| && (forall i :: 0 <= i < |aggregates| ==> Suits(aggregates[i].kind, inputTypes[i]))
    && forall row :: row in rows ==>
         && (forall group :: InGroup(groupBys, group, row) ==> Typed(group, types, nullText))
         && (forall i :: 0 <= i < |aggregates| ==>
               var v := Evaluate(aggregates[i].input, row); v.Some? ==> v.value.Type() == inputTypes[i])
  }

  /** The column of every aggregate is what it means for the values of its own expression on the rows of the group. */
  ghost predicate AggregatesMean(groupBys: seq<Expr>, aggregates: seq<Aggregate>, rows: seq<Row>, result: seq<Row>) {
    forall k, i :: 0 <= k < |result| && 0 <= i < |aggregates| ==>
      && |result[k]| == |groupBys| + |aggregates|
      && Means(aggregates[i].kind, ValuesOn(aggregates[i].input, groupBys, result[k][..|groupBys|], rows), result[k][|groupBys| + i])
  }

  /**
   For column types whose keys can be read back the result is what the query says: one row for
   every group, in which the column of an aggregate is the count, sum, least or greatest of the
   values of its own expression on exactly the rows of the group.
   */
  lemma AggregationOnRows(groupBys: seq<Expr>, aggregates: seq<Aggregate>, rows: seq<Row>, entries: seq<Entry>,
                          result: seq<Row>, keys: seq<string>, types: seq<TypeId>, nullText: bool, inputTypes: seq<TypeId>)
    requires EntriesOf(groupBys, aggregates, rows) == Some(entries) && FoldsDefined(entries, aggregates, |groupBys|)
    requires IsGrouping(result, entries, aggregates, |groupBys|, keys)
    requires Readable(types, nullText) && RowsTyped(groupBys, aggregates, rows, types, nullText, inputTypes)
    ensures GroupsOfRows(groupBys, aggregates, rows, result) && AggregatesMean(groupBys, aggregates, rows, result)
  {
    hide EntriesOf, Evaluate, InGroup, FoldsDefined, IsGrouping, Means, ValuesOn, GroupInputs, Typed, Readable, IsGroupBy, Fold;
    EntriesMean(groupBys, aggregates, rows, entries);
    forall k | 0 <= k < |entries|
      ensures Typed(entries[k].group, types, nullText)
      ensures forall i :: 0 <= i < |aggregates| ==> entries[k].inputs[i].Type() == inputTypes[i]
    {
      assert rows[k] in rows;
    }
    AggregationMeans(result, entries, aggregates, |groupBys|, keys, types, nullText, inputTypes);
    GroupByOnRows(groupBys, aggregates, rows, entries, result);
    forall k, i | 0 <= k < |result| && 0 <= i < |aggregates|
      ensures && |result[k]| == |groupBys| + |aggregates|
              && Means(aggregates[i].kind, ValuesOn(aggregates[i].input, groupBys, result[k][..|groupBys|], rows), result[k][|groupBys| + i])
    {
      assert ResultRow(groupBys, aggregates, rows, result[k]);
      ValuesAreInputs(groupBys, aggregates, rows, entries, result[k][..|groupBys|], i);
    }
  }
}
