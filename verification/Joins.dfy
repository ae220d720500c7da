/** The hash join and the nested-loop join that it replaces. */
module Joins {
  import opened Types
  import opened Values
  import opened Expressions

  // ---------- The nested-loop join ----------

  predicate Matches(condition: Option<Expr>, l: Row, r: Row) {
    condition.None? || EvaluateJoin(condition.value, l, r) == Some(Boolean(true))
  }

  predicate PairDefined(condition: Option<Expr>, l: Row, r: Row) {
    condition.None? || IsVerdict(EvaluateJoin(condition.value, l, r))
  }

  /** No evaluation of the predicate raises an exception. */
  ghost predicate JoinDefined(left: seq<Row>, right: seq<Row>, condition: Option<Expr>) {
    forall i, j :: 0 <= i < |left| && 0 <= j < |right| ==> PairDefined(condition, left[i], right[j])
  }

  function PairsOf(l: Row, right: seq<Row>, condition: Option<Expr>): seq<Row> {
    if right == [] then [] else
      var n := |right| - 1;
      PairsOf(l, right[..n], condition) + if Matches(condition, l, right[n]) then [l + right[n]] else []
  }

  /** For each left row in order, the right rows in order that it matches. */
  function Nested(left: seq<Row>, right: seq<Row>, condition: Option<Expr>): seq<Row> {
    if left == [] then [] else
      var n := |left| - 1;
      Nested(left[..n], right, condition) + PairsOf(left[n], right, condition)
  }

  /** `rows` are the joined pairs of a left and a right row at the given positions, by left and then by right position. */
  ghost predicate PairsInOrder(pairs: seq<(nat, nat)>, left: seq<Row>, right: seq<Row>, rows: seq<Row>) {
    && |rows| == |pairs|
    && (forall k :: 0 <= k < |pairs| ==>
          pairs[k].0 < |left| && pairs[k].1 < |right| && rows[k] == left[pairs[k].0] + right[pairs[k].1])
    && (forall a, b :: 0 <= a < b < |pairs| ==>
          pairs[a].0 < pairs[b].0 || (pairs[a].0 == pairs[b].0 && pairs[a].1 < pairs[b].1))
  }

  /** The positions of all pairs of rows that satisfy the predicate. */
  ghost predicate SatisfyingPairs(pairs: seq<(nat, nat)>, left: seq<Row>, right: seq<Row>, condition: Option<Expr>) {
    forall i: nat, j: nat :: (i, j) in pairs <==>
      && i < |left| && j < |right|
      && (condition.Some? ==> EvaluateJoin(condition.value, left[i], right[j]) == Some(Boolean(true)))
  }

  /** Every left row with every right row. */
  ghost predicate CrossProduct(left: seq<Row>, right: seq<Row>, rows: seq<Row>) {
    && |rows| == |left| * |right|
    && forall i, j :: 0 <= i < |left| && 0 <= j < |right| ==> PairAt(rows, left[i], right[j], i * |right| + j)
  }

  ghost predicate PairAt(rows: seq<Row>, l: Row, r: Row, at: int) {
    0 <= at < |rows| && rows[at] == l + r
  }

  /**
   The joined rows are those of the pairs that satisfy the predicate, in the order of the left
   rows and then of the right ones; without a predicate, of all pairs.
   */
  method NestedLoopJoin(left: seq<Row>, right: seq<Row>, condition: Option<Expr>)
    returns (rows: Option<seq<Row>>, ghost pairs: seq<(nat, nat)>)
    ensures rows.Some? <==> JoinDefined(left, right, condition)
    ensures rows.Some? ==> rows.value == Nested(left, right, condition) && PairsInOrder(pairs, left, right, rows.value)
    ensures rows.Some? ==> SatisfyingPairs(pairs, left, right, condition)
    ensures condition.None? ==> rows.Some? && CrossProduct(left, right, rows.value)
  {
    hide PairsInOrder, SatisfyingPairs, CrossProduct;
    var result: seq<Row> := [];
    pairs := [];
    for i := 0 to |left|
      invariant JoinDefined(left[..i], right, condition)
      invariant result == Nested(left[..i], right, condition)
    {
      var matches := ScanRight(left[i], right, condition);
      if matches.None? {
        return None, [];
      }
      assert left[..i + 1][..i] == left[..i];
      result := result + matches.value;
    }
    assert left[..|left|] == left;
    pairs := NestedPairs(left, right, condition);
    if condition.None? {
      CrossJoin(left, right);
    }
    return Some(result), pairs;
  }

  /** The inner loop. */
  method ScanRight(l: Row, right: seq<Row>, condition: Option<Expr>) returns (rows: Option<seq<Row>>)
    ensures rows.Some? <==> forall j :: 0 <= j < |right| ==> PairDefined(condition, l, right[j])
    ensures rows.Some? ==> rows.value == PairsOf(l, right, condition)
  {
    var result: seq<Row> := [];
    for j := 0 to |right|
      invariant forall b :: 0 <= b < j ==> PairDefined(condition, l, right[b])
      invariant result == PairsOf(l, right[..j], condition)
    {
      if !PairDefined(condition, l, right[j]) {
        return None;
      }
      assert right[..j + 1][..j] == right[..j];
      if Matches(condition, l, right[j]) {
        result := result + [l + right[j]];
      }
    }
    assert right[..|right|] == right;
    return Some(result);
  }

  // ---------- The pairs of the nested-loop join ----------

  /** The right positions that a left row is joined with. */
  lemma {:induction false} RowPairs(l: Row, right: seq<Row>, condition: Option<Expr>) returns (positions: seq<nat>)
    ensures |positions| == |PairsOf(l, right, condition)|
    ensures forall k :: 0 <= k < |positions| ==> positions[k] < |right| && PairsOf(l, right, condition)[k] == l + right[positions[k]]
    ensures forall a, b :: 0 <= a < b < |positions| ==> positions[a] < positions[b]
    ensures forall j: nat :: j in positions <==>
              j < |right| && (condition.Some? ==> EvaluateJoin(condition.value, l, right[j]) == Some(Boolean(true)))
    decreases |right|
  {
    positions := [];
    if right != [] {
      var n := |right| - 1;
      positions := RowPairs(l, right[..n], condition);
      if Matches(condition, l, right[n]) {
        positions := positions + [n];
      }
    }
  }

  lemma {:induction false} NestedPairs(left: seq<Row>, right: seq<Row>, condition: Option<Expr>) returns (pairs: seq<(nat, nat)>)
    ensures PairsInOrder(pairs, left, right, Nested(left, right, condition)) && SatisfyingPairs(pairs, left, right, condition)
    decreases |left|
  {
    pairs := [];
    if left != [] {
      hide PairsOf, EvaluateJoin, PairsInOrder, SatisfyingPairs;
      var n := |left| - 1;
      var before := NestedPairs(left[..n], right, condition);
      var positions := RowPairs(left[n], right, condition);
      pairs := WithRow(left[..n], left[n], right, condition, before, Nested(left[..n], right, condition),
                       positions, PairsOf(left[n], right, condition));
      assert left == left[..n] + [left[n]];
    }
  }

  /** The pairs of one more left row follow those of the rows before it. */
  lemma WithRow(left: seq<Row>, l: Row, right: seq<Row>, condition: Option<Expr>,
                before: seq<(nat, nat)>, rows: seq<Row>, positions: seq<nat>, more: seq<Row>) returns (pairs: seq<(nat, nat)>)
    requires PairsInOrder(before, left, right, rows) && SatisfyingPairs(before, left, right, condition)
    requires |positions| == |more|
    requires forall k :: 0 <= k < |positions| ==> positions[k] < |right| && more[k] == l + right[positions[k]]
    requires forall a, b :: 0 <= a < b < |positions| ==> positions[a] < positions[b]
    requires forall j: nat :: j in positions <==>
               j < |right| && (condition.Some? ==> EvaluateJoin(condition.value, l, right[j]) == Some(Boolean(true)))
    ensures PairsInOrder(pairs, left + [l], right, rows + more) && SatisfyingPairs(pairs, left + [l], right, condition)
  {
    hide EvaluateJoin, SatisfyingPairs;
    pairs := before + PairsWith(|left|, positions);
    RowSatisfies(left, l, right, condition, before, positions);
  }

  function PairsWith(i: nat, positions: seq<nat>): (r: seq<(nat, nat)>)
    ensures |r| == |positions| && forall k :: 0 <= k < |r| ==> r[k] == (i, positions[k])
  {
    seq(|positions|, k requires 0 <= k < |positions| => (i, positions[k]))
  }

  lemma RowSatisfies(left: seq<Row>, l: Row, right: seq<Row>, condition: Option<Expr>, before: seq<(nat, nat)>, positions: seq<nat>)
    requires SatisfyingPairs(before, left, right, condition)
    requires forall j: nat :: j in positions <==>
               j < |right| && (condition.Some? ==> EvaluateJoin(condition.value, l, right[j]) == Some(Boolean(true)))
    ensures SatisfyingPairs(before + PairsWith(|left|, positions), left + [l], right, condition)
  {
    hide EvaluateJoin;
    var later := PairsWith(|left|, positions);
    forall i: nat, j: nat
      ensures (i, j) in before + later <==>
              && i < |left + [l]| && j < |right|
              && (condition.Some? ==> EvaluateJoin(condition.value, (left + [l])[i], right[j]) == Some(Boolean(true)))
    {
      assert (i, j) in before + later <==> (i, j) in before || (i, j) in later;
      if i == |left| && j in positions {
        var k :| 0 <= k < |positions| && positions[k] == j;
        assert later[k] == (i, j);
      }
    }
  }

  lemma {:induction false} AllPairs(l: Row, right: seq<Row>)
    ensures |PairsOf(l, right, None)| == |right|
    ensures forall j :: 0 <= j < |right| ==> PairsOf(l, right, None)[j] == l + right[j]
    decreases |right|
  {
    if right != [] {
      AllPairs(l, right[..|right| - 1]);
    }
  }

  /** Without a predicate every pair is joined. */
  lemma {:induction false} CrossJoin(left: seq<Row>, right: seq<Row>)
    ensures CrossProduct(left, right, Nested(left, right, None))
    decreases |left|
  {
    if left != [] {
      hide PairsOf, CrossProduct;
      var n := |left| - 1;
      CrossJoin(left[..n], right);
      AllPairs(left[n], right);
      CrossNext(left[..n], left[n], right, Nested(left[..n], right, None), PairsOf(left[n], right, None));
      assert left == left[..n] + [left[n]];
    }
  }

  lemma CrossNext(left: seq<Row>, l: Row, right: seq<Row>, rows: seq<Row>, more: seq<Row>)
    requires CrossProduct(left, right, rows) && |more| == |right| && forall j :: 0 <= j < |right| ==> more[j] == l + right[j]
    ensures CrossProduct(left + [l], right, rows + more)
  {
    hide PairAt;
    assert |left + [l]| * |right| == |left| * |right| + |right|;
    forall i, j | 0 <= i < |left + [l]| && 0 <= j < |right|
      ensures PairAt(rows + more, (left + [l])[i], right[j], i * |right| + j)
    {
      CrossAt(left, l, right, rows, more, i, j);
    }
  }

  lemma CrossAt(left: seq<Row>, l: Row, right: seq<Row>, rows: seq<Row>, more: seq<Row>, i: nat, j: nat)
    requires CrossProduct(left, right, rows) && |more| == |right| && forall k :: 0 <= k < |right| ==> more[k] == l + right[k]
    requires i <= |left| && j < |right|
    ensures PairAt(rows + more, (left + [l])[i], right[j], i * |right| + j)
  {
    var at := i * |right| + j;
    if i < |left| {
      assert PairAt(rows, left[i], right[j], at);
      assert (rows + more)[at] == rows[at];
    } else {
      assert at == |rows| + j && (rows + more)[|rows| + j] == more[j];
    }
  }

  // ---------- The hash join ----------

  /** The key of a row in text form. */
  function KeyText(key: Expr, row: Row): string
    requires Evaluate(key, row).Some?
  {
    Evaluate(key, row).value.ToString()
  }

  ghost predicate KeysDefined(rows: seq<Row>, key: Expr) {
    forall i :: 0 <= i < |rows| ==> Evaluate(key, rows[i]).Some?
  }

  /** The rows with the given key text, in order. */
  function Bucket(rows: seq<Row>, key: Expr, text: string): seq<Row>
    requires KeysDefined(rows, key)
  {
    if rows == [] then [] else
      var n := |rows| - 1;
      Bucket(rows[..n], key, text) + if KeyText(key, rows[n]) == text then [rows[n]] else []
  }

  function Prefixed(l: Row, rows: seq<Row>): (r: seq<Row>)
    ensures |r| == |rows|
  {
    if rows == [] then [] else Prefixed(l, rows[..|rows| - 1]) + [l + rows[|rows| - 1]]
  }

  function Hashed(left: seq<Row>, right: seq<Row>, leftKey: Expr, rightKey: Expr): seq<Row>
    requires KeysDefined(left, leftKey) && KeysDefined(right, rightKey)
  {
    if left == [] then [] else
      var n := |left| - 1;
      Hashed(left[..n], right, leftKey, rightKey) + Prefixed(left[n], Bucket(right, rightKey, KeyText(leftKey, left[n])))
  }

  type HashTable = map<string, seq<Row>>

  function Entries(table: HashTable, text: string): seq<Row> {
    if text in table then table[text] else []
  }

  /** The table holds the rows under their key text. */
  ghost predicate Holds(table: HashTable, rows: seq<Row>, key: Expr) {
    KeysDefined(rows, key) && forall text :: Entries(table, text) == Bucket(rows, key, text)
  }

  /** Builds a table on the right rows and probes it with the left ones. */
  method HashJoin(left: seq<Row>, right: seq<Row>, leftKey: Expr, rightKey: Expr)
    returns (rows: Option<seq<Row>>, ghost pairs: seq<(nat, nat)>)
    ensures rows.Some? <==> KeysDefined(left, leftKey) && KeysDefined(right, rightKey)
    ensures rows.Some? ==> rows.value == Hashed(left, right, leftKey, rightKey) && PairsInOrder(pairs, left, right, rows.value)
    ensures rows.Some? ==> SameTextPairs(pairs, left, right, leftKey, rightKey)
  {
    hide PairsInOrder, SameTextPairs;
    pairs := [];
    var table := Build(right, rightKey);
    if table.None? {
      return None, [];
    }
    rows := Probe(left, right, leftKey, rightKey, table.value);
    if rows.Some? {
      pairs := HashedPairs(left, right, leftKey, rightKey);
    }
  }

  /** The positions of all pairs of rows whose keys have the same text. */
  ghost predicate SameTextPairs(pairs: seq<(nat, nat)>, left: seq<Row>, right: seq<Row>, leftKey: Expr, rightKey: Expr)
    requires KeysDefined(left, leftKey) && KeysDefined(right, rightKey)
  {
    forall i: nat, j: nat :: (i, j) in pairs <==>
      && i < |left| && j < |right|
      && Evaluate(leftKey, left[i]).value.ToString() == Evaluate(rightKey, right[j]).value.ToString()
  }

  /** The hash join's criterion as a condition of a nested-loop join. */
  function TextEquality(leftKey: Expr, rightKey: Expr): Expr {
    Other(_ => None, (l: Row, r: Row) =>
      if Evaluate(leftKey, l).Some? && Evaluate(rightKey, r).Some? then
        Some(Boolean(KeyText(leftKey, l) == KeyText(rightKey, r)))
      else None)
  }

  lemma {:induction false} BucketIsPairs(l: Row, right: seq<Row>, leftKey: Expr, rightKey: Expr)
    requires Evaluate(leftKey, l).Some? && KeysDefined(right, rightKey)
    ensures Prefixed(l, Bucket(right, rightKey, KeyText(leftKey, l))) ==
            PairsOf(l, right, Some(TextEquality(leftKey, rightKey)))
    decreases |right|
  {
    if right != [] {
      var n := |right| - 1;
      BucketIsPairs(l, right[..n], leftKey, rightKey);
      var text := KeyText(leftKey, l);
      var e := TextEquality(leftKey, rightKey);
      assert EvaluateJoin(e, l, right[n]) == Some(Boolean(text == KeyText(rightKey, right[n])));
      if KeyText(rightKey, right[n]) == text {
        PrefixedNext(l, Bucket(right[..n], rightKey, text), right[n]);
      } else {
        assert Bucket(right, rightKey, text) == Bucket(right[..n], rightKey, text);
        assert PairsOf(l, right, Some(e)) == PairsOf(l, right[..n], Some(e));
      }
    }
  }

  lemma {:induction false} HashedIsNested(left: seq<Row>, right: seq<Row>, leftKey: Expr, rightKey: Expr)
    requires KeysDefined(left, leftKey) && KeysDefined(right, rightKey)
    ensures Hashed(left, right, leftKey, rightKey) == Nested(left, right, Some(TextEquality(leftKey, rightKey)))
    decreases |left|
  {
    if left != [] {
      var n := |left| - 1;
      HashedIsNested(left[..n], right, leftKey, rightKey);
      BucketIsPairs(left[n], right, leftKey, rightKey);
    }
  }

  lemma HashedPairs(left: seq<Row>, right: seq<Row>, leftKey: Expr, rightKey: Expr) returns (pairs: seq<(nat, nat)>)
    requires KeysDefined(left, leftKey) && KeysDefined(right, rightKey)
    ensures PairsInOrder(pairs, left, right, Hashed(left, right, leftKey, rightKey))
    ensures SameTextPairs(pairs, left, right, leftKey, rightKey)
  {
    HashedIsNested(left, right, leftKey, rightKey);
    pairs := NestedPairs(left, right, Some(TextEquality(leftKey, rightKey)));
  }


  method Build(rows: seq<Row>, key: Expr) returns (table: Option<HashTable>)
    ensures table.Some? <==> KeysDefined(rows, key)
    ensures table.Some? ==> Holds(table.value, rows, key)
  {
    hide Bucket, Evaluate, Value.ToString;
    var result: HashTable := map[];
    HoldsNothing(key);
    assert rows[..0] == [];
    for j := 0 to |rows|
      invariant KeysDefined(rows[..j], key) && Holds(result, rows[..j], key)
    {
      var value := Evaluate(key, rows[j]);
      if value.None? {
        return None;
      }
      var text := value.value.ToString();
      HoldsNext(result, rows[..j], rows[j], key);
      assert rows[..j] + [rows[j]] == rows[..j + 1];
      result := result[text := Entries(result, text) + [rows[j]]];
    }
    assert rows[..|rows|] == rows;
    return Some(result);
  }

  lemma HoldsNothing(key: Expr)
    ensures Holds(map[], [], key)
  {
  }

  lemma BucketNext(rows: seq<Row>, row: Row, key: Expr, text: string)
    requires KeysDefined(rows, key) && Evaluate(key, row).Some?
    ensures KeysDefined(rows + [row], key)
    ensures Bucket(rows + [row], key, text) == Bucket(rows, key, text) + if KeyText(key, row) == text then [row] else []
  {
    hide Evaluate, Value.ToString;
    assert (rows + [row])[..|rows|] == rows;
  }

  lemma HoldsNext(table: HashTable, rows: seq<Row>, row: Row, key: Expr)
    requires Holds(table, rows, key) && Evaluate(key, row).Some?
    ensures var text := KeyText(key, row);
            Holds(table[text := Entries(table, text) + [row]], rows + [row], key)
  {
    hide Bucket, Evaluate, Value.ToString;
    var text := KeyText(key, row);
    var table' := table[text := Entries(table, text) + [row]];
    forall other ensures KeysDefined(rows + [row], key) && Entries(table', other) == Bucket(rows + [row], key, other) {
      BucketNext(rows, row, key, other);
      assert Entries(table, other) == Bucket(rows, key, other);
    }
  }

  lemma HashedNext(left: seq<Row>, l: Row, right: seq<Row>, leftKey: Expr, rightKey: Expr)
    requires KeysDefined(left, leftKey) && Evaluate(leftKey, l).Some? && KeysDefined(right, rightKey)
    ensures KeysDefined(left + [l], leftKey)
    ensures Hashed(left + [l], right, leftKey, rightKey) ==
            Hashed(left, right, leftKey, rightKey) + Prefixed(l, Bucket(right, rightKey, KeyText(leftKey, l)))
  {
    hide Evaluate, Value.ToString, Bucket, Prefixed;
    assert (left + [l])[..|left|] == left;
  }

  method Probe(left: seq<Row>, ghost right: seq<Row>, leftKey: Expr, ghost rightKey: Expr, table: HashTable)
    returns (rows: Option<seq<Row>>)
    requires Holds(table, right, rightKey)
    ensures rows.Some? <==> KeysDefined(left, leftKey)
    ensures rows.Some? ==> rows.value == Hashed(left, right, leftKey, rightKey)
  {
    hide Bucket, Evaluate, Value.ToString, Prefixed, Hashed;
    var result: seq<Row> := [];
    NothingHashed(right, leftKey, rightKey);
    assert left[..0] == [];
    for i := 0 to |left|
      invariant KeysDefined(left[..i], leftKey)
      invariant result == Hashed(left[..i], right, leftKey, rightKey)
    {
      var key := Evaluate(leftKey, left[i]);
      if key.None? {
        return None;
      }
      var text := key.value.ToString();
      HashedNext(left[..i], left[i], right, leftKey, rightKey);
      assert left[..i] + [left[i]] == left[..i + 1];
      assert Entries(table, text) == Bucket(right, rightKey, text);
      NothingMatched(left[i]);
      if text in table {
        var pairs := Emit(left[i], table[text]);
        result := result + pairs;
      }
    }
    assert left[..|left|] == left;
    return Some(result);
  }

  lemma NothingHashed(right: seq<Row>, leftKey: Expr, rightKey: Expr)
    requires KeysDefined(right, rightKey)
    ensures Hashed([], right, leftKey, rightKey) == []
  {
  }

  lemma NothingMatched(l: Row)
    ensures Prefixed(l, []) == []
  {
  }

  /** One output row for each matched right row. */
  method Emit(l: Row, matched: seq<Row>) returns (rows: seq<Row>)
    ensures rows == Prefixed(l, matched)
  {
    rows := [];
    for j := 0 to |matched|
      invariant rows == Prefixed(l, matched[..j])
    {
      assert matched[..j + 1][..j] == matched[..j];
      rows := rows + [l + matched[j]];
    }
    assert matched[..|matched|] == matched;
  }

  // ---------- The two joins agree ----------

  /** The predicate `left.i == right.j`, written either way round. */
  predicate IsColumnEquality(e: Expr, i: nat, j: nat) {
    e == Comparison(Equal, Column(0, i), Column(1, j)) || e == Comparison(Equal, Column(1, j), Column(0, i))
  }

  /** The cells compared have one type, which has an equality. */
  predicate Comparable(l: Row, r: Row, i: nat, j: nat) {
    i < |l| && j < |r| && l[i].Type() == r[j].Type() && l[i].Type() != INVALID
  }

  /** A pair on which the two joins differ. */
  predicate PairClash(l: Row, r: Row, i: nat, j: nat) {
    i < |l| && j < |r| && Clash(l[i], r[j])
  }

  ghost predicate NoClash(left: seq<Row>, right: seq<Row>, i: nat, j: nat) {
    forall l, r :: l in left && r in right ==> !PairClash(l, r, i, j)
  }

  /** The equality raises no exception exactly when the cells are comparable. */
  lemma EqualityDefined(e: Expr, l: Row, r: Row, i: nat, j: nat)
    requires IsColumnEquality(e, i, j)
    ensures PairDefined(Some(e), l, r) <==> Comparable(l, r, i, j)
  {
    assert EvaluateJoin(e.left, l, r) == if e.left.tupleIdx == 0 then Cell(l, i) else Cell(r, j);
    assert EvaluateJoin(e.right, l, r) == if e.right.tupleIdx == 0 then Cell(l, i) else Cell(r, j);
  }

  /** On one pair the joins agree, unless a null clashes with a value. */
  lemma PairAgrees(e: Expr, l: Row, r: Row, i: nat, j: nat)
    requires IsColumnEquality(e, i, j) && Comparable(l, r, i, j)
    ensures Matches(Some(e), l, r) <==> l[i].CompareEquals(r[j]) == Some(true)
    ensures (Matches(Some(e), l, r) <==> KeyText(Column(0, j), r) == KeyText(Column(0, i), l)) <==> !PairClash(l, r, i, j)
  {
    TextAgrees(l[i], r[j]);
    assert EvaluateJoin(e.left, l, r) == Some(if e.left.tupleIdx == 0 then l[i] else r[j]);
    assert EvaluateJoin(e.right, l, r) == Some(if e.right.tupleIdx == 0 then l[i] else r[j]);
    assert l[i].CompareEquals(r[j]) == r[j].CompareEquals(l[i]);
  }

  lemma PrefixedNext(l: Row, rows: seq<Row>, r: Row)
    ensures Prefixed(l, rows + [r]) == Prefixed(l, rows) + [l + r]
  {
    assert (rows + [r])[..|rows|] == rows;
  }

  lemma {:induction false} BucketAgrees(e: Expr, l: Row, right: seq<Row>, i: nat, j: nat)
    requires IsColumnEquality(e, i, j) && KeysDefined(right, Column(0, j))
    requires forall r :: r in right ==> Comparable(l, r, i, j) && !PairClash(l, r, i, j)
    requires Evaluate(Column(0, i), l).Some?
    ensures Prefixed(l, Bucket(right, Column(0, j), KeyText(Column(0, i), l))) == PairsOf(l, right, Some(e))
    decreases |right|
  {
    if right != [] {
      var n := |right| - 1;
      assert right[n] in right;
      PairAgrees(e, l, right[n], i, j);
      BucketAgrees(e, l, right[..n], i, j);
      var text := KeyText(Column(0, i), l);
      var bucket := Bucket(right[..n], Column(0, j), text);
      if KeyText(Column(0, j), right[n]) == text {
        PrefixedNext(l, bucket, right[n]);
      } else {
        assert Bucket(right, Column(0, j), text) == bucket;
        assert PairsOf(l, right, Some(e)) == PairsOf(l, right[..n], Some(e));
      }
    }
  }

  lemma {:induction false} JoinsAgree(e: Expr, left: seq<Row>, right: seq<Row>, i: nat, j: nat)
    requires IsColumnEquality(e, i, j) && KeysDefined(left, Column(0, i)) && KeysDefined(right, Column(0, j))
    requires JoinDefined(left, right, Some(e)) && NoClash(left, right, i, j)
    ensures Hashed(left, right, Column(0, i), Column(0, j)) == Nested(left, right, Some(e))
    decreases |left|
  {
    hide Evaluate, EvaluateJoin, Value.ToString, Bucket, Prefixed, PairsOf;
    if left != [] {
      var n := |left| - 1;
      forall r | r in right ensures Comparable(left[n], r, i, j) && !PairClash(left[n], r, i, j) {
        var k :| 0 <= k < |right| && right[k] == r;
        EqualityDefined(e, left[n], right[k], i, j);
      }
      BucketAgrees(e, left[n], right, i, j);
      JoinsAgree(e, left[..n], right, i, j);
    }
  }

  // ---------- Which rows come out ----------

  lemma {:induction false} InPairs(l: Row, right: seq<Row>, e: Expr, r: Row)
    requires r in right && Matches(Some(e), l, r)
    ensures l + r in PairsOf(l, right, Some(e))
    decreases |right|
  {
    var n := |right| - 1;
    if r in right[..n] {
      InPairs(l, right[..n], e, r);
    } else {
      assert right == right[..n] + [right[n]];
    }
  }

  lemma {:induction false} InNested(left: seq<Row>, right: seq<Row>, e: Expr, l: Row, r: Row)
    requires l in left && r in right && Matches(Some(e), l, r)
    ensures l + r in Nested(left, right, Some(e))
    decreases |left|
  {
    hide PairsOf, EvaluateJoin, Matches;
    var n := |left| - 1;
    if l in left[..n] {
      InNested(left[..n], right, e, l, r);
    } else {
      assert left == left[..n] + [left[n]];
      InPairs(l, right, e, r);
    }
  }

  lemma {:induction false} OfPairs(l: Row, right: seq<Row>, e: Expr, x: Row) returns (r: Row)
    requires x in PairsOf(l, right, Some(e))
    ensures r in right && Matches(Some(e), l, r) && x == l + r
    decreases |right|
  {
    var n := |right| - 1;
    if x in PairsOf(l, right[..n], Some(e)) {
      r := OfPairs(l, right[..n], e, x);
    } else {
      r := right[n];
    }
  }

  lemma {:induction false} OfNested(left: seq<Row>, right: seq<Row>, e: Expr, x: Row) returns (l: Row, r: Row)
    requires x in Nested(left, right, Some(e))
    ensures l in left && r in right && Matches(Some(e), l, r) && x == l + r
    decreases |left|
  {
    var n := |left| - 1;
    if x in Nested(left[..n], right, Some(e)) {
      l, r := OfNested(left[..n], right, e, x);
    } else {
      l := left[n];
      r := OfPairs(l, right, e, x);
    }
  }

  lemma {:induction false} InBucket(rows: seq<Row>, key: Expr, text: string, r: Row)
    requires KeysDefined(rows, key)
    ensures r in Bucket(rows, key, text) <==> r in rows && Evaluate(key, r).Some? && KeyText(key, r) == text
    decreases |rows|
  {
    if rows != [] {
      var n := |rows| - 1;
      InBucket(rows[..n], key, text, r);
      assert rows == rows[..n] + [rows[n]];
    }
  }

  lemma {:induction false} InPrefixed(l: Row, rows: seq<Row>, r: Row)
    ensures l + r in Prefixed(l, rows) <==> r in rows
    decreases |rows|
  {
    if rows != [] {
      var n := |rows| - 1;
      InPrefixed(l, rows[..n], r);
      assert rows == rows[..n] + [rows[n]];
      assert l + rows[n] == l + r ==> rows[n] == (l + r)[|l|..] == r;
    }
  }

  /** Rows of one width: a row of the join shows which left and right row it came from. */
  ghost predicate SameWidth(left: seq<Row>) {
    forall l, l' :: l in left && l' in left ==> |l| == |l'|
  }

  lemma {:induction false} InHashed(left: seq<Row>, right: seq<Row>, i: nat, j: nat, l: Row, r: Row)
    requires KeysDefined(left, Column(0, i)) && KeysDefined(right, Column(0, j))
    requires SameWidth(left) && l in left && r in right && i < |l| && j < |r|
    ensures l + r in Hashed(left, right, Column(0, i), Column(0, j)) <==> KeyText(Column(0, j), r) == KeyText(Column(0, i), l)
    decreases |left|
  {
    HashedRow(left, right, i, j, l, r, |l|);
  }

  lemma {:induction false} HashedRow(left: seq<Row>, right: seq<Row>, i: nat, j: nat, l: Row, r: Row, width: nat)
    requires KeysDefined(left, Column(0, i)) && KeysDefined(right, Column(0, j))
    requires (forall x :: x in left ==> |x| == width) && |l| == width && r in right && i < |l| && j < |r|
    ensures l + r in Hashed(left, right, Column(0, i), Column(0, j)) <==>
            l in left && KeyText(Column(0, j), r) == KeyText(Column(0, i), l)
    decreases |left|
  {
    hide Evaluate, Value.ToString, Bucket, Prefixed, KeyText;
    if left != [] {
      var n := |left| - 1;
      HashedRow(left[..n], right, i, j, l, r, width);
      assert left == left[..n] + [left[n]];
      HashedBlock(left[n], right, i, j, l, r);
    }
  }

  /** The block of rows that one left row contributes. */
  lemma HashedBlock(l0: Row, right: seq<Row>, i: nat, j: nat, l: Row, r: Row)
    requires KeysDefined(right, Column(0, j)) && |l0| == |l| && r in right && i < |l| && j < |r|
    ensures l + r in Prefixed(l0, Bucket(right, Column(0, j), KeyText(Column(0, i), l0))) <==>
            l == l0 && KeyText(Column(0, j), r) == KeyText(Column(0, i), l)
  {
    var bucket := Bucket(right, Column(0, j), KeyText(Column(0, i), l0));
    InBucket(right, Column(0, j), KeyText(Column(0, i), l0), r);
    if l0 == l {
      InPrefixed(l, bucket, r);
    } else {
      PrefixedBy(l0, bucket, l + r, |l|);
      assert (l + r)[..|l|] == l;
    }
  }

  lemma {:induction false} PrefixedBy(l: Row, rows: seq<Row>, x: Row, width: nat)
    requires |l| == width
    ensures x in Prefixed(l, rows) ==> |x| >= width && x[..width] == l
    decreases |rows|
  {
    if rows != [] {
      PrefixedBy(l, rows[..|rows| - 1], x, width);
      assert (l + rows[|rows| - 1])[..width] == l;
    }
  }

  /** The hash join gives the rows of the nested-loop join, in the same order, exactly when no null clashes. */
  lemma JoinsAgreeExactly(e: Expr, left: seq<Row>, right: seq<Row>, i: nat, j: nat)
    requires IsColumnEquality(e, i, j) && KeysDefined(left, Column(0, i)) && KeysDefined(right, Column(0, j))
    requires JoinDefined(left, right, Some(e)) && SameWidth(left)
    ensures Hashed(left, right, Column(0, i), Column(0, j)) == Nested(left, right, Some(e)) <==> NoClash(left, right, i, j)
  {
    if NoClash(left, right, i, j) {
      JoinsAgree(e, left, right, i, j);
    } else {
      var l, r :| l in left && r in right && PairClash(l, r, i, j);
      ClashShows(e, left, right, i, j, l, r);
    }
  }

  lemma SplitsOneWay(l: Row, r: Row, l': Row, r': Row)
    requires l + r == l' + r' && |l| == |l'|
    ensures l == l' && r == r'
  {
    assert l == (l + r)[..|l|] && l' == (l' + r')[..|l|];
    assert r == (l + r)[|l|..] && r' == (l' + r')[|l|..];
  }

  lemma ClashShows(e: Expr, left: seq<Row>, right: seq<Row>, i: nat, j: nat, l: Row, r: Row)
    requires IsColumnEquality(e, i, j) && KeysDefined(left, Column(0, i)) && KeysDefined(right, Column(0, j))
    requires JoinDefined(left, right, Some(e)) && SameWidth(left) && l in left && r in right && PairClash(l, r, i, j)
    ensures Hashed(left, right, Column(0, i), Column(0, j)) != Nested(left, right, Some(e))
  {
    var a :| 0 <= a < |left| && left[a] == l;
    var b :| 0 <= b < |right| && right[b] == r;
    EqualityDefined(e, left[a], right[b], i, j);
    PairAgrees(e, l, r, i, j);
    InHashed(left, right, i, j, l, r);
    if Matches(Some(e), l, r) {
      InNested(left, right, e, l, r);
    } else if l + r in Nested(left, right, Some(e)) {
      var l', r' := OfNested(left, right, e, l + r);
      SplitsOneWay(l, r, l', r');
    }
  }
}
