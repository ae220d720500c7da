/** Joins and scans respect bags: reordering their inputs only reorders their outputs. */
module Bags {
  import opened Types
  import opened Values
  import opened Expressions
  import opened Joins
  import opened Collections
  import opened Plans

  // ---------- Joins ----------

  lemma {:induction false} PairsIsFlatMap(l: Row, right: seq<Row>, condition: Option<Expr>)
    ensures PairsOf(l, right, condition) == FlatMap(r => if Matches(condition, l, r) then [l + r] else [], right)
    decreases |right|
  {
    if right != [] {
      PairsIsFlatMap(l, right[..|right| - 1], condition);
    }
  }

  lemma PairsBag(l: Row, a: seq<Row>, b: seq<Row>, condition: Option<Expr>)
    requires SameBag(a, b)
    ensures SameBag(PairsOf(l, a, condition), PairsOf(l, b, condition))
  {
    PairsIsFlatMap(l, a, condition);
    PairsIsFlatMap(l, b, condition);
    FlatMapBag(r => if Matches(condition, l, r) then [l + r] else [], a, b);
  }

  lemma {:induction false} NestedIsFlatMap(left: seq<Row>, right: seq<Row>, condition: Option<Expr>)
    ensures Nested(left, right, condition) == FlatMap(l => PairsOf(l, right, condition), left)
    decreases |left|
  {
    if left != [] {
      NestedIsFlatMap(left[..|left| - 1], right, condition);
    }
  }

  /** The nested-loop join of reordered inputs is a reordering of the join. */
  lemma NestedBag(a: seq<Row>, b: seq<Row>, c: seq<Row>, d: seq<Row>, condition: Option<Expr>)
    requires SameBag(a, b) && SameBag(c, d)
    ensures SameBag(Nested(a, c, condition), Nested(b, d, condition))
  {
    var f, g := (l: Row) => PairsOf(l, c, condition), (l: Row) => PairsOf(l, d, condition);
    NestedIsFlatMap(a, c, condition);
    NestedIsFlatMap(b, d, condition);
    FlatMapBag(f, a, b);
    forall l | l in b ensures SameBag(f(l), g(l)) {
      PairsBag(l, c, d, condition);
    }
    FlatMapAlike(f, g, b);
  }

  lemma JoinDefinedBag(a: seq<Row>, b: seq<Row>, c: seq<Row>, d: seq<Row>, condition: Option<Expr>)
    requires SameBag(a, b) && SameBag(c, d) && JoinDefined(a, c, condition)
    ensures JoinDefined(b, d, condition)
  {
    forall i, j | 0 <= i < |b| && 0 <= j < |d| ensures PairDefined(condition, b[i], d[j]) {
      SameMembers(a, b, b[i]);
      SameMembers(c, d, d[j]);
      var p :| 0 <= p < |a| && a[p] == b[i];
      var q :| 0 <= q < |c| && c[q] == d[j];
    }
  }

  lemma KeysDefinedBag(a: seq<Row>, b: seq<Row>, key: Expr)
    requires SameBag(a, b) && KeysDefined(a, key)
    ensures KeysDefined(b, key)
  {
    forall i | 0 <= i < |b| ensures Evaluate(key, b[i]).Some? {
      SameMembers(a, b, b[i]);
      var p :| 0 <= p < |a| && a[p] == b[i];
    }
  }

  lemma HashedBag(a: seq<Row>, b: seq<Row>, c: seq<Row>, d: seq<Row>, leftKey: Expr, rightKey: Expr)
    requires SameBag(a, b) && SameBag(c, d) && KeysDefined(a, leftKey) && KeysDefined(c, rightKey)
    ensures KeysDefined(b, leftKey) && KeysDefined(d, rightKey)
    ensures SameBag(Hashed(a, c, leftKey, rightKey), Hashed(b, d, leftKey, rightKey))
  {
    KeysDefinedBag(a, b, leftKey);
    KeysDefinedBag(c, d, rightKey);
    HashedIsNested(a, c, leftKey, rightKey);
    HashedIsNested(b, d, leftKey, rightKey);
    NestedBag(a, b, c, d, Some(TextEquality(leftKey, rightKey)));
  }

  // ---------- Scans ----------

  /** Every key lists the rows that have it, each once, and no list is empty. */
  ghost predicate IndexAgrees(index: Index, rows: seq<Stored>) {
    && (forall i, j :: 0 <= i < j < |rows| ==> rows[i].rid != rows[j].rid)
    && (forall i :: 0 <= i < |rows| ==> HasKey(rows[i].row, index.lookupAttr))
    && (forall key :: key in index.entries ==> index.entries[key] != [])
    && (forall key, rid :: rid in Lookup(index, key) <==> KeyedAt(rows, index.lookupAttr, key, rid))
    && (forall key, i, j :: 0 <= i < j < |Lookup(index, key)| ==> Lookup(index, key)[i] != Lookup(index, key)[j])
  }

  /** The row at `rid` has the key. */
  ghost predicate KeyedAt(rows: seq<Stored>, col: nat, key: int, rid: Rid) {
    exists i :: 0 <= i < |rows| && rows[i].rid == rid && KeyIs(rows[i].row, col, key)
  }

  ghost predicate DistinctRids(rows: seq<Stored>) {
    forall i, j :: 0 <= i < j < |rows| ==> rows[i].rid != rows[j].rid
  }

  function RidsOf(rows: seq<Stored>): (r: seq<Rid>)
    ensures |r| == |rows| && forall i :: 0 <= i < |rows| ==> r[i] == rows[i].rid
  {
    seq(|rows|, i requires 0 <= i < |rows| => rows[i].rid)
  }

  lemma {:induction false} RowAtIs(rows: seq<Stored>, i: nat)
    requires DistinctRids(rows) && i < |rows|
    ensures RowAt(rows, rows[i].rid) == Some(rows[i].row)
    decreases |rows|
  {
    if i > 0 {
      RowAtIs(rows[1..], i - 1);
    }
  }

  lemma {:induction false} InFiltered(rows: seq<Stored>, condition: Option<Expr>, x: Stored)
    ensures x in Filtered(rows, condition) <==> x in rows && Keeps(condition, x.row)
    decreases |rows|
  {
    if rows != [] {
      var n := |rows| - 1;
      assert rows == rows[..n] + [rows[n]];
      InFiltered(rows[..n], condition, x);
    }
  }

  lemma {:induction false} FilteredDistinct(rows: seq<Stored>, condition: Option<Expr>)
    requires DistinctRids(rows)
    ensures DistinctRids(Filtered(rows, condition))
    decreases |rows|
  {
    if rows != [] {
      var n := |rows| - 1;
      FilteredDistinct(rows[..n], condition);
      var before := Filtered(rows[..n], condition);
      forall i | 0 <= i < |before| ensures before[i].rid != rows[n].rid {
        InFiltered(rows[..n], condition, before[i]);
      }
    }
  }

  lemma {:induction false} FetchStored(rows: seq<Stored>, some: seq<Stored>)
    requires DistinctRids(rows) && forall x :: x in some ==> x in rows
    ensures FetchAll(rows, RidsOf(some)) == Some(RowsOf(some))
    decreases |some|
  {
    if some != [] {
      var n := |some| - 1;
      FetchStored(rows, some[..n]);
      assert some[n] in some;
      var k :| 0 <= k < |rows| && rows[k] == some[n];
      RowAtIs(rows, k);
      assert RidsOf(some)[..n] == RidsOf(some[..n]);
      assert RowsOf(some) == RowsOf(some[..n]) + [some[n].row];
    }
  }

  function Fetched(rows: seq<Stored>, rid: Rid): seq<Row> {
    if RowAt(rows, rid).Some? then [RowAt(rows, rid).value] else []
  }

  lemma {:induction false} FetchIsFlatMap(rows: seq<Stored>, rids: seq<Rid>)
    ensures FetchAll(rows, rids).Some? <==> forall rid :: rid in rids ==> RowAt(rows, rid).Some?
    ensures FetchAll(rows, rids).Some? ==> FetchAll(rows, rids).value == FlatMap(rid => Fetched(rows, rid), rids)
    decreases |rids|
  {
    if rids != [] {
      var n := |rids| - 1;
      FetchIsFlatMap(rows, rids[..n]);
      assert rids == rids[..n] + [rids[n]];
      assert rids[n] in rids && forall rid :: rid in rids[..n] ==> rid in rids;
    }
  }

  lemma FetchBag(rows: seq<Stored>, a: seq<Rid>, b: seq<Rid>)
    requires SameBag(a, b) && FetchAll(rows, a).Some?
    ensures FetchAll(rows, b).Some? && SameBag(FetchAll(rows, a).value, FetchAll(rows, b).value)
  {
    FetchIsFlatMap(rows, a);
    FetchIsFlatMap(rows, b);
    forall rid | rid in b ensures RowAt(rows, rid).Some? {
      SameMembers(a, b, rid);
    }
    FlatMapBag(rid => Fetched(rows, rid), a, b);
  }

  /** An index that agrees with its table finds the rows that the sequential scan finds. */
  lemma IndexScanBag(index: Index, rows: seq<Stored>, condition: Option<Expr>, v: Value)
    requires IndexAgrees(index, rows) && v.Type() == INTEGER
    requires PointLookup(condition) == Some((index.lookupAttr, Constant(v)))
    ensures var found := FetchAll(rows, Lookup(index, v.AsInteger()));
            found.Some? && SameBag(RowsOf(Filtered(rows, condition)), found.value)
  {
    var key, kept := v.AsInteger(), Filtered(rows, condition);
    FilteredDistinct(rows, condition);
    forall rid ensures rid in RidsOf(kept) <==> rid in Lookup(index, key) {
      KeptRids(index, rows, condition, v, rid);
    }
    OnceEach(RidsOf(kept), Lookup(index, key));
    forall x | x in kept ensures x in rows {
      InFiltered(rows, condition, x);
    }
    FetchStored(rows, kept);
    FetchBag(rows, RidsOf(kept), Lookup(index, key));
  }

  lemma KeptRids(index: Index, rows: seq<Stored>, condition: Option<Expr>, v: Value, rid: Rid)
    requires IndexAgrees(index, rows) && v.Type() == INTEGER
    requires PointLookup(condition) == Some((index.lookupAttr, Constant(v)))
    ensures rid in RidsOf(Filtered(rows, condition)) <==> KeyedAt(rows, index.lookupAttr, v.AsInteger(), rid)
  {
    var kept := Filtered(rows, condition);
    forall i | 0 <= i < |rows| ensures Keeps(condition, rows[i].row) <==> KeyIs(rows[i].row, index.lookupAttr, v.AsInteger()) {
      PointKeeps(condition, index.lookupAttr, v, rows[i].row);
    }
    if rid in RidsOf(kept) {
      var k :| 0 <= k < |kept| && RidsOf(kept)[k] == rid;
      InFiltered(rows, condition, kept[k]);
      var i :| 0 <= i < |rows| && rows[i] == kept[k];
    }
    if KeyedAt(rows, index.lookupAttr, v.AsInteger(), rid) {
      var i :| 0 <= i < |rows| && rows[i].rid == rid && KeyIs(rows[i].row, index.lookupAttr, v.AsInteger());
      InFiltered(rows, condition, rows[i]);
      var k :| 0 <= k < |kept| && kept[k] == rows[i];
      assert RidsOf(kept)[k] == rid;
    }
  }

  lemma PointKeeps(condition: Option<Expr>, col: nat, v: Value, row: Row)
    requires PointLookup(condition) == Some((col, Constant(v))) && v.Type() == INTEGER && HasKey(row, col)
    ensures Keeps(condition, row) <==> KeyIs(row, col, v.AsInteger())
    ensures IsVerdict(Evaluate(condition.value, row))
  {
    var e := condition.value;
    assert Evaluate(e.left, row) == (if e.left.Column? then Some(row[col]) else Some(v));
    assert Evaluate(e.right, row) == (if e.right.Column? then Some(row[col]) else Some(v));
  }
}
