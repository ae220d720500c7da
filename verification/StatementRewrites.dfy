/** What the rewriting of its scan to an index scan does to an UPDATE or a DELETE. */
module StatementRewrites {
  import opened Types
  import opened Expressions
  import opened HeapOrder
  import opened HeapScans
  import opened IndexEntries
  import opened Statements
  import opened Executors

  /** The rows of the heap have a key, and the index lists them under it. */
  ghost predicate Indexed(index: IndexInfo, codec: Codec, h: Heap)
    reads index
  {
    && HeapOk(h) && IndexOk(index, Contents(h), codec)
    && forall rid :: rid in Contents(h) ==> HasKey(codec.decode(Contents(h)[rid]), index.lookupAttr)
  }

  /** A DELETE leaves the same rows and reports the same number, whichever scan it runs over. */
  lemma DeleteRewrite(index: IndexInfo, codec: Codec, key: int32, h: Heap)
    requires Indexed(index, codec, h)
    ensures var condition, rids := PointCondition(index.lookupAttr, key), Lookup(index.entries, key);
            && Contents(DeleteAll(codec, condition, h, ScanOrder(h, START))) == Contents(DeleteAll(codec, None, h, rids))
            && |AffectedAmong(codec, condition, Contents(h), Contents(h).Keys)| == |rids|
  {
    hide HeapOk, Contents, DeleteAll, ScanOrder;
    var condition, rids, m := PointCondition(index.lookupAttr, key), Lookup(index.entries, key), Contents(h);
    ListsAffected(index, codec, key, m);
    DistinctCount(rids);
    OrderIsContents(h);
    DeleteAllContents(codec, condition, h, ScanOrder(h, START));
    forall rid | rid in rids ensures rid in m {
      assert rid in Members(rids);
    }
    DeleteAllContents(codec, None, h, rids);
    assert AffectedAmong(codec, None, m, Members(rids)) == AffectedAmong(codec, condition, m, m.Keys);
  }

  // ---------- UPDATE ----------

  /** A refused version is longer than the row, so refusing it shows. */
  lemma {:induction false} RefusedGrows(codec: Codec, condition: Option<Expr>, exprs: seq<Expr>, h: Heap, order: seq<Rid>, rid: Rid)
    requires HeapOk(h) && Distinct(order) && UpdateFits(codec, condition, exprs, h, order)
    requires forall r :: r in order ==> RowChanges(codec, condition, exprs, Contents(h), r)
    requires rid in Refused(codec, condition, exprs, h, order)
    ensures rid in Contents(h) && rid in order && NewTuple(codec, exprs, Contents(h)[rid]) != Contents(h)[rid]
    decreases |order|
  {
    hide HeapOk, Contents, FitsRow, UpdateOne, RefusesRow, NewTuple;
    var first, rest, h' := order[0], order[1..], UpdateOne(codec, condition, exprs, h, order[0]);
    assert first in order;
    UpdateOneContents(codec, condition, exprs, h, first);
    if RefusesRow(codec, condition, exprs, h, first) && rid == first {
      RefusedIsLonger(codec, condition, exprs, h, rid);
    } else {
      forall r | r in rest ensures RowChanges(codec, condition, exprs, Contents(h'), r) {
        assert r in order && r != first && RowChanges(codec, condition, exprs, Contents(h), r);
      }
      RefusedGrows(codec, condition, exprs, h', rest, rid);
    }
  }

  lemma RefusedIsLonger(codec: Codec, condition: Option<Expr>, exprs: seq<Expr>, h: Heap, rid: Rid)
    requires HeapOk(h) && rid in Contents(h) && RefusesRow(codec, condition, exprs, h, rid)
    ensures NewTuple(codec, exprs, Contents(h)[rid]) != Contents(h)[rid]
  {
    RowOnHeap(h, rid);
  }

  /** Which rows were refused can be read off the outcome. */
  lemma RefusalsShow(codec: Codec, condition: Option<Expr>, exprs: seq<Expr>, m: map<Rid, Bytes>, a: set<Rid>, b: set<Rid>)
    requires a <= AffectedAmong(codec, condition, m, m.Keys) && b <= AffectedAmong(codec, condition, m, m.Keys)
    requires forall rid :: rid in a || rid in b ==> NewTuple(codec, exprs, m[rid]) != m[rid]
    ensures Updated(codec, condition, exprs, m, m.Keys - a) == Updated(codec, condition, exprs, m, m.Keys - b) <==> a == b
  {
    hide NewTuple;
    var x, y := Updated(codec, condition, exprs, m, m.Keys - a), Updated(codec, condition, exprs, m, m.Keys - b);
    var rows := AffectedAmong(codec, condition, m, m.Keys);
    assert forall rid :: rid in rows ==> x[rid] == if rid in a then m[rid] else NewTuple(codec, exprs, m[rid]);
    assert forall rid :: rid in rows ==> y[rid] == if rid in b then m[rid] else NewTuple(codec, exprs, m[rid]);
    if x == y {
      forall rid | rid in rows ensures rid in a <==> rid in b {
        assert x[rid] == y[rid];
      }
    }
  }

  /** An UPDATE leaves the same rows over either scan exactly when the pages refuse the same new versions. */
  lemma UpdateRewriteExactly(index: IndexInfo, codec: Codec, key: int32, exprs: seq<Expr>, h: Heap)
    requires Indexed(index, codec, h)
    requires var condition := PointCondition(index.lookupAttr, key);
             && AllUpdatable([index.lookupAttr], codec, condition, exprs, Contents(h))
             && UpdateFits(codec, condition, exprs, h, ScanOrder(h, START))
             && UpdateFits(codec, None, exprs, h, Lookup(index.entries, key))
    ensures var condition, rids := PointCondition(index.lookupAttr, key), Lookup(index.entries, key);
            && |AffectedAmong(codec, condition, Contents(h), Contents(h).Keys)| == |rids|
            && (Contents(UpdateAll(codec, condition, exprs, h, ScanOrder(h, START))) == Contents(UpdateAll(codec, None, exprs, h, rids)) <==>
                Refused(codec, condition, exprs, h, ScanOrder(h, START)) == Refused(codec, None, exprs, h, rids))
  {
    hide HeapOk, Contents, UpdateAll, ScanOrder, UpdateFits, Refused, NewTuple, Updatable;
    var condition, rids, m := PointCondition(index.lookupAttr, key), Lookup(index.entries, key), Contents(h);
    var order := ScanOrder(h, START);
    ListsAffected(index, codec, key, m);
    DistinctCount(rids);
    OrderIsContents(h);
    forall rid ensures rid in order ==> RowChanges(codec, condition, exprs, m, rid) {
      if rid in order {
        assert rid in Members(order);
        UpdatableChanges([index.lookupAttr], codec, condition, exprs, m, rid);
      }
    }
    forall rid ensures rid in rids ==> RowChanges(codec, None, exprs, m, rid) {
      if rid in rids {
        assert rid in Members(rids);
        UpdatableChanges([index.lookupAttr], codec, None, exprs, m, rid);
      }
    }
    UpdateAllContents(codec, condition, exprs, h, order);
    UpdateAllContents(codec, None, exprs, h, rids);
    var a, b := Refused(codec, condition, exprs, h, order), Refused(codec, None, exprs, h, rids);
    assert AffectedAmong(codec, None, m, Members(rids) - b) == AffectedAmong(codec, condition, m, m.Keys - b);
    assert Updated(codec, None, exprs, m, Members(rids) - b) == Updated(codec, condition, exprs, m, m.Keys - b);
    forall rid | rid in a || rid in b ensures rid in m && NewTuple(codec, exprs, m[rid]) != m[rid] {
      if rid in a {
        RefusedGrows(codec, condition, exprs, h, order, rid);
      } else {
        RefusedGrows(codec, None, exprs, h, rids, rid);
      }
    }
    RefusalsShow(codec, condition, exprs, m, a, b);
  }
}
