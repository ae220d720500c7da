/** What the statements do to a table, said of the cells of its rows. */
module StatementMeanings {
  import opened Types
  import opened Values
  import opened Expressions
  import opened Comparisons
  import opened HeapOrder
  import opened Statements
  import opened Executors

  // ---------- DELETE ----------

  /** The condition that compares an integer column with a constant. */
  function ColumnCondition(comparison: ComparisonType, col: nat, k: int32): Option<Expr> {
    Some(Comparison(comparison, Column(0, col), Constant(Integer(k))))
  }

  /** `DELETE ... WHERE column < constant`, and so on: gone are exactly the rows whose integer in that column is below the constant. */
  lemma DeletedByColumn(codec: Codec, comparison: ComparisonType, col: nat, k: int32, m: map<Rid, Bytes>, m': map<Rid, Bytes>)
    requires RowsGone(codec, ColumnCondition(comparison, col, k), m, m')
    ensures forall rid, i: int32 :: rid in m && CellIs(codec.decode(m[rid]), col, i) ==>
              && (rid !in m' <==> IntegersRelate(comparison, i, k))
              && (rid in m' ==> m'[rid] == m[rid])
  {
    hide Evaluate, CellIs;
    forall rid, i: int32 | rid in m && CellIs(codec.decode(m[rid]), col, i)
      ensures IsTrueOf(ColumnCondition(comparison, col, k), codec.decode(m[rid])) <==> IntegersRelate(comparison, i, k)
    {
      ColumnAgainst(comparison, 0, col, k, codec.decode(m[rid]), i);
    }
  }

  /** A DELETE with that condition, over the whole heap. */
  lemma DeleteByColumn(codec: Codec, comparison: ComparisonType, col: nat, k: int32, h: Heap, rid: Rid, i: int32)
    requires HeapOk(h) && rid in Contents(h) && CellIs(codec.decode(Contents(h)[rid]), col, i)
    ensures var after := Contents(DeleteAll(codec, ColumnCondition(comparison, col, k), h, ScanOrder(h, START)));
            rid !in after <==> IntegersRelate(comparison, i, k)
  {
    hide Evaluate, CellIs, HeapOk, Contents, DeleteAll, ScanOrder, ColumnCondition;
    var condition, m := ColumnCondition(comparison, col, k), Contents(h);
    OrderIsContents(h);
    forall r | r in ScanOrder(h, START) ensures r in m {
      assert r in Members(ScanOrder(h, START));
    }
    DeleteAllContents(codec, condition, h, ScanOrder(h, START));
    RemainingMeans(codec, condition, m);
    DeletedByColumn(codec, comparison, col, k, m, Remaining(codec, condition, m, m.Keys));
  }

  // ---------- UPDATE ----------

  /** The expressions of `UPDATE ... SET column = e`: every other column is given itself. */
  ghost predicate SetsOnly(exprs: seq<Expr>, col: nat) {
    col < |exprs| && forall i :: 0 <= i < |exprs| && i != col ==> exprs[i].Column? && exprs[i].col == i
  }

  /** Such an update changes that cell of the rows it affects, and nothing else. */
  lemma OneCellChanges(codec: Codec, condition: Option<Expr>, exprs: seq<Expr>, col: nat, refused: set<Rid>,
                       m: map<Rid, Bytes>, m': map<Rid, Bytes>)
    requires SetsOnly(exprs, col) && RowsUpdated(codec, condition, exprs, refused, m, m')
    requires forall rid :: rid in m ==> |codec.decode(m[rid])| == |exprs|
    ensures m'.Keys == m.Keys
    ensures forall rid :: rid in m ==>
              var row, row' := codec.decode(m[rid]), codec.decode(m'[rid]);
              if IsTrueOf(condition, row) && rid !in refused then
                Evaluate(exprs[col], row).Some? && row' == row[col := Evaluate(exprs[col], row).value]
              else row' == row
  {
    hide IsTrueOf;
    forall rid | rid in m && IsTrueOf(condition, codec.decode(m[rid])) && rid !in refused
      ensures var row, row' := codec.decode(m[rid]), codec.decode(m'[rid]);
              Evaluate(exprs[col], row).Some? && row' == row[col := Evaluate(exprs[col], row).value]
    {
      var row, row' := codec.decode(m[rid]), codec.decode(m'[rid]);
      assert IsNewVersion(exprs, row, row');
      forall i | 0 <= i < |exprs| && i != col ensures row'[i] == row[i] {
        assert Evaluate(exprs[i], row) == Some(row'[i]);
      }
    }
  }

  // ---------- INSERT ----------

  /** Every row that got an id is there under it as it was given; all rows there were before are as they were. */
  ghost predicate RowsAdded(codec: Codec, rows: seq<Row>, rids: seq<Option<Rid>>, m: map<Rid, Bytes>, m': map<Rid, Bytes>)
    requires |rids| == |rows|
  {
    && (forall rid :: rid in m' <==> rid in m || Some(rid) in rids)
    && (forall rid :: rid in m ==> rid in m' && m'[rid] == m[rid])
    && (forall k :: 0 <= k < |rows| && rids[k].Some? ==>
          rids[k].value !in m && rids[k].value in m' && codec.decode(m'[rids[k].value]) == rows[k])
  }

  lemma {:induction false} InsertedMeans(attrs: seq<nat>, codec: Codec, rows: seq<Row>, rids: seq<Option<Rid>>, m: map<Rid, Bytes>)
    requires |rids| == |rows| && NewRids(codec, m, rows, rids)
    requires forall i :: 0 <= i < |rows| ==> Insertable(attrs, codec, rows[i])
    ensures RowsAdded(codec, rows, rids, m, WithRows(codec, m, rows, rids))
    decreases |rows|
  {
    if rows != [] {
      var n := |rows| - 1;
      InsertedMeans(attrs, codec, rows[..n], rids[..n], m);
      assert rids == rids[..n] + [rids[n]];
      assert Insertable(attrs, codec, rows[n]);
      assert rids[n].Some? ==> forall k :: 0 <= k < n ==> rids[k] != rids[n];
    }
  }
}
