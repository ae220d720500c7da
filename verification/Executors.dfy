/**
 The statements that change a table: INSERT, UPDATE and DELETE over its heap and its indexes.
 UPDATE and DELETE run over a scan of the table that they are changing.
 */
module Executors {
  import opened Types
  import opened Values
  import opened Expressions
  import opened HeapOrder
  import opened HeapScans
  import opened TableHeaps
  import opened IndexEntries
  import opened Statements
  import Bags
  import Plans

  // ---------- Indexes of a table ----------

  ghost predicate IndexOk(index: IndexInfo, contents: map<Rid, Bytes>, codec: Codec)
    reads index
  {
    Agrees(index.entries, Keys(contents, codec, index.lookupAttr))
  }

  /** Every index lists exactly the live rows under their keys. */
  ghost predicate IndexesOk(indexes: seq<IndexInfo>, contents: map<Rid, Bytes>, codec: Codec)
    reads indexes
  {
    forall i {:trigger IndexOk(indexes[i], contents, codec)} :: 0 <= i < |indexes| ==> IndexOk(indexes[i], contents, codec)
  }

  function Attrs(indexes: seq<IndexInfo>): (r: seq<nat>)
    ensures |r| == |indexes| && forall i :: 0 <= i < |indexes| ==> r[i] == indexes[i].lookupAttr
  {
    seq(|indexes|, i requires 0 <= i < |indexes| => indexes[i].lookupAttr)
  }

  ghost predicate AllDifferent(indexes: seq<IndexInfo>) {
    forall i, j :: 0 <= i < j < |indexes| ==> indexes[i] != indexes[j]
  }

  /** The pages of the heap, its record and the indexes are different objects. */
  ghost predicate Separate(table: TableHeap, indexes: seq<IndexInfo>)
    reads table
  {
    table !in table.Repr && forall index :: index in indexes ==> index !in table.Repr
  }

  // ---------- Maintaining the indexes for one row ----------

  method AddToIndexes(indexes: seq<IndexInfo>, codec: Codec, row: Row, rid: Rid,
                      ghost contents: map<Rid, Bytes>, ghost t: Bytes)
    requires AllDifferent(indexes) && IndexesOk(indexes, contents, codec) && rid !in contents && codec.decode(t) == row
    requires forall i :: 0 <= i < |indexes| ==> HasKey(row, indexes[i].lookupAttr)
    modifies indexes
    ensures IndexesOk(indexes, contents[rid := t], codec)
    ensures forall i :: 0 <= i < |indexes| ==>
              indexes[i].entries == WithEntry(old(indexes[i].entries), KeyOf(row, indexes[i].lookupAttr), rid)
  {
    hide WithEntry;
    for i := 0 to |indexes|
      invariant forall k :: i <= k < |indexes| ==> indexes[k].entries == old(indexes[k].entries)
      invariant forall k :: 0 <= k < i ==>
                  indexes[k].entries == WithEntry(old(indexes[k].entries), KeyOf(row, indexes[k].lookupAttr), rid)
    {
      indexes[i].InsertEntry(row[indexes[i].lookupAttr].AsInteger(), rid);
    }
    forall i | 0 <= i < |indexes| ensures IndexOk(indexes[i], contents[rid := t], codec) {
      var attr := indexes[i].lookupAttr;
      assert old(IndexOk(indexes[i], contents, codec));
      KeysWithRow(contents, codec, attr, rid, t);
      WithEntryAgrees(old(indexes[i].entries), Keys(contents, codec, attr), KeyOf(row, attr), rid);
    }
  }

  method RemoveFromIndexes(indexes: seq<IndexInfo>, codec: Codec, row: Row, rid: Rid, ghost contents: map<Rid, Bytes>)
    requires AllDifferent(indexes) && IndexesOk(indexes, contents, codec)
    requires rid in contents && codec.decode(contents[rid]) == row
    requires forall i :: 0 <= i < |indexes| ==> HasKey(row, indexes[i].lookupAttr)
    modifies indexes
    ensures IndexesOk(indexes, contents - {rid}, codec)
    ensures forall i :: 0 <= i < |indexes| ==>
              indexes[i].entries == WithoutEntry(old(indexes[i].entries), KeyOf(row, indexes[i].lookupAttr), rid)
  {
    hide WithoutEntry;
    for i := 0 to |indexes|
      invariant forall k :: i <= k < |indexes| ==> indexes[k].entries == old(indexes[k].entries)
      invariant forall k :: 0 <= k < i ==>
                  indexes[k].entries == WithoutEntry(old(indexes[k].entries), KeyOf(row, indexes[k].lookupAttr), rid)
    {
      indexes[i].RemoveEntry(row[indexes[i].lookupAttr].AsInteger(), rid);
    }
    forall i | 0 <= i < |indexes| ensures IndexOk(indexes[i], contents - {rid}, codec) {
      var attr := indexes[i].lookupAttr;
      assert old(IndexOk(indexes[i], contents, codec));
      KeysWithRow(contents, codec, attr, rid, []);
      WithoutEntryAgrees(old(indexes[i].entries), Keys(contents, codec, attr), rid);
    }
  }

  /** Moves the row to the end of the list of its new key, also when that is the old one. */
  method MoveInIndexes(indexes: seq<IndexInfo>, codec: Codec, row: Row, newRow: Row, rid: Rid,
                       ghost contents: map<Rid, Bytes>, ghost t: Bytes)
    requires AllDifferent(indexes) && IndexesOk(indexes, contents, codec)
    requires rid in contents && codec.decode(contents[rid]) == row && codec.decode(t) == newRow
    requires forall i :: 0 <= i < |indexes| ==> HasKey(row, indexes[i].lookupAttr) && HasKey(newRow, indexes[i].lookupAttr)
    modifies indexes
    ensures IndexesOk(indexes, contents[rid := t], codec)
    ensures forall i :: 0 <= i < |indexes| ==>
              var attr := indexes[i].lookupAttr;
              indexes[i].entries == Moved(old(indexes[i].entries), KeyOf(row, attr), KeyOf(newRow, attr), rid)
  {
    hide WithEntry, WithoutEntry;
    for i := 0 to |indexes|
      invariant forall k :: i <= k < |indexes| ==> indexes[k].entries == old(indexes[k].entries)
      invariant forall k :: 0 <= k < i ==>
                  var attr := indexes[k].lookupAttr;
                  indexes[k].entries == Moved(old(indexes[k].entries), KeyOf(row, attr), KeyOf(newRow, attr), rid)
    {
      var index := indexes[i];
      index.RemoveEntry(row[index.lookupAttr].AsInteger(), rid);
      index.InsertEntry(newRow[index.lookupAttr].AsInteger(), rid);
    }
    forall i | 0 <= i < |indexes| ensures IndexOk(indexes[i], contents[rid := t], codec) {
      var attr := indexes[i].lookupAttr;
      assert old(IndexOk(indexes[i], contents, codec));
      KeysWithRow(contents, codec, attr, rid, t);
      MovedAgrees(old(indexes[i].entries), Keys(contents, codec, attr), KeyOf(newRow, attr), rid);
    }
  }

  ghost predicate Keyed(attrs: seq<nat>, codec: Codec, contents: map<Rid, Bytes>) {
    forall rid, i :: rid in contents && 0 <= i < |attrs| ==> HasKey(codec.decode(contents[rid]), attrs[i])
  }

  // ---------- DELETE ----------

  /** Deletes one row if it satisfies the condition. */
  method DeleteRow(table: TableHeap, indexes: seq<IndexInfo>, codec: Codec, condition: Option<Expr>, rid: Rid, ghost m: map<Rid, Bytes>)
    returns (gone: bool)
    requires table.Valid() && AllDifferent(indexes) && Separate(table, indexes)
    requires rid in Contents(table.heap) && rid in m && m[rid] == Contents(table.heap)[rid]
    requires forall i :: 0 <= i < |indexes| ==> HasKey(codec.decode(m[rid]), indexes[i].lookupAttr)
    requires IndexesOk(indexes, m, codec)
    modifies table`heap, table.Repr, indexes
    ensures table.Valid() && table.Repr == old(table.Repr) && table.nextPageId == old(table.nextPageId)
    ensures gone <==> Affected(codec, condition, m[rid])
    ensures table.heap == DeleteOne(codec, condition, old(table.heap), rid)
    ensures IndexesOk(indexes, if gone then m - {rid} else m, codec)
    ensures forall i :: 0 <= i < |indexes| ==>
              var before := old(indexes[i].entries);
              indexes[i].entries ==
              if gone then WithoutEntry(before, KeyOf(codec.decode(m[rid]), indexes[i].lookupAttr), rid) else before
  {
    hide TableHeap.Mirrors, Contents, HeapOk, IndexesOk, NewTuple;
    table.RoomFacts();
    RowOnHeap(table.heap, rid);
    var t := table.GetTuple(rid);
    gone := Affected(codec, condition, t);
    if gone {
      table.DeleteTuple(rid);
      RemoveFromIndexes(indexes, codec, codec.decode(t), rid, m);
    }
  }

  /** A DELETE over heap `h0` that has visited the rows `done`, deleted `count` of them and come to row `rid`. */
  ghost predicate Deleting(codec: Codec, condition: Option<Expr>, h0: Heap, h: Heap, from: Place, rid: Rid, done: set<Rid>, count: nat) {
    && Scanning(h0, h, from, rid, done)
    && DeleteAll(codec, condition, h, ScanOrder(h0, from)) == DeleteAll(codec, condition, h0, ScanOrder(h0, START))
    && count == |AffectedAmong(codec, condition, Contents(h0), done)|
  }

  lemma DeletingNext(codec: Codec, condition: Option<Expr>, h0: Heap, h: Heap, from: Place, rid: Rid,
                     done: set<Rid>, count: nat, at: Place, next: Rid)
    requires Deleting(codec, condition, h0, h, from, rid, done, count)
    requires Arrived(h0, h, from, rid, done, at) && FirstFrom(h, Place(at.page, at.slot + 1), next)
    ensures Deleting(codec, condition, h0, DeleteOne(codec, condition, h, rid), Place(at.page, at.slot + 1), next, done + {rid},
                     count + if Affected(codec, condition, Contents(h0)[rid]) then 1 else 0)
    ensures Remaining(codec, condition, Contents(h0), done + {rid}) ==
            if Affected(codec, condition, Contents(h0)[rid]) then Remaining(codec, condition, Contents(h0), done) - {rid}
            else Remaining(codec, condition, Contents(h0), done)
  {
    AffectedNext(codec, condition, Contents(h0), done, rid);
    RemainingNext(codec, condition, Contents(h0), done, rid);
    OrderFrom(h0, from, at);
    OneSlotWritten(h, at, [], h.room[rid.pageId]);
    ScanOn(h0, h, DeleteOne(codec, condition, h, rid), at, next, done + {rid});
  }

  /** Deletes exactly the rows that satisfied the condition when the statement began, and counts them. */
  method Delete(table: TableHeap, indexes: seq<IndexInfo>, codec: Codec, condition: Option<Expr>) returns (count: nat)
    requires table.Valid() && AllDifferent(indexes) && Separate(table, indexes)
    requires Defined(codec, condition, Contents(table.heap)) && Keyed(Attrs(indexes), codec, Contents(table.heap))
    requires IndexesOk(indexes, Contents(table.heap), codec)
    modifies table`heap, table.Repr, indexes
    ensures table.Valid() && table.Repr == old(table.Repr) && table.nextPageId == old(table.nextPageId)
    ensures table.heap == DeleteAll(codec, condition, old(table.heap), ScanOrder(old(table.heap), START))
    ensures var contents := old(Contents(table.heap));
            && Contents(table.heap) == Remaining(codec, condition, contents, contents.Keys)
            && count == |AffectedAmong(codec, condition, contents, contents.Keys)|
            && RowsGone(codec, condition, contents, Contents(table.heap)) && count + |Contents(table.heap)| == |contents|
    ensures IndexesOk(indexes, Contents(table.heap), codec)
  {
    hide TableHeap.Mirrors, HeapOk, DeleteAll, ScanOrder, Contents, RowsGone, AffectedAmong, Remaining, Deleting;
    table.RoomFacts();
    ghost var h0, from, done: set<Rid> := table.heap, START, {};
    count := 0;
    var rid := table.Begin();
    ScanBegins(h0, rid);
    DeletingBegins(codec, condition, h0, rid);
    while rid != END
      invariant table.Valid() && table.Repr == old(table.Repr) && table.nextPageId == old(table.nextPageId)
      invariant IndexesOk(indexes, Remaining(codec, condition, Contents(h0), done), codec)
      invariant Deleting(codec, condition, h0, table.heap, from, rid, done, count)
      decreases |h0.chain| - from.page, SlotsLeft(h0, from)
    {
      rid, count, from, done := DeleteStep(table, indexes, codec, condition, rid, count, h0, from, done);
    }
    DeletingEnds(codec, condition, h0, table.heap, from, done, count);
    RemainingMeans(codec, condition, Contents(h0));
  }

  lemma RemainingMeans(codec: Codec, condition: Option<Expr>, m: map<Rid, Bytes>)
    ensures var m', gone := Remaining(codec, condition, m, m.Keys), AffectedAmong(codec, condition, m, m.Keys);
            RowsGone(codec, condition, m, m') && |gone| + |m'| == |m|
  {
    var m', gone := Remaining(codec, condition, m, m.Keys), AffectedAmong(codec, condition, m, m.Keys);
    assert m.Keys == m'.Keys + gone;
    assert |m'| == |m'.Keys| && |m| == |m.Keys|;
  }

  lemma DeletingBegins(codec: Codec, condition: Option<Expr>, h: Heap, rid: Rid)
    requires Scanning(h, h, START, rid, {})
    ensures Deleting(codec, condition, h, h, START, rid, {}, 0) && Remaining(codec, condition, Contents(h), {}) == Contents(h)
  {
  }

  lemma DeletingEnds(codec: Codec, condition: Option<Expr>, h0: Heap, h: Heap, from: Place, done: set<Rid>, count: nat)
    requires Deleting(codec, condition, h0, h, from, END, done, count)
    ensures h == DeleteAll(codec, condition, h0, ScanOrder(h0, START)) && done == Contents(h0).Keys
    ensures Contents(h) == Remaining(codec, condition, Contents(h0), Contents(h0).Keys)
    ensures count == |AffectedAmong(codec, condition, Contents(h0), Contents(h0).Keys)|
  {
    NothingLeft(h0, h, from, done);
    OrderIsContents(h0);
    DeleteAllContents(codec, condition, h0, ScanOrder(h0, START));
  }

  method DeleteStep(table: TableHeap, indexes: seq<IndexInfo>, codec: Codec, condition: Option<Expr>, rid: Rid, count: nat,
                    ghost h0: Heap, ghost from: Place, ghost done: set<Rid>)
    returns (next: Rid, count': nat, ghost from': Place, ghost done': set<Rid>)
    requires table.Valid() && AllDifferent(indexes) && Separate(table, indexes) && rid != END
    requires Keyed(Attrs(indexes), codec, Contents(h0)) && IndexesOk(indexes, Remaining(codec, condition, Contents(h0), done), codec)
    requires Deleting(codec, condition, h0, table.heap, from, rid, done, count)
    modifies table`heap, table.Repr, indexes
    ensures table.Valid() && table.Repr == old(table.Repr) && table.nextPageId == old(table.nextPageId)
    ensures IndexesOk(indexes, Remaining(codec, condition, Contents(h0), done'), codec)
    ensures Deleting(codec, condition, h0, table.heap, from', next, done', count')
    ensures from'.page <= |h0.chain| && (from'.page > from.page || (from'.page == from.page && SlotsLeft(h0, from') < SlotsLeft(h0, from)))
    ensures SlotsLeft(h0, from') >= 0
  {
    hide TableHeap.Mirrors, FirstFrom, Contents, DeleteOne, DeleteAll, ScanOrder, HeapOk;
    ghost var h := table.heap;
    ghost var at := ArriveAt(h0, h, from, rid, done);
    next := table.Next(rid, at);
    DeletingNext(codec, condition, h0, h, from, rid, done, count, at, next);
    var gone := DeleteRow(table, indexes, codec, condition, rid, Remaining(codec, condition, Contents(h0), done));
    count' := count + if gone then 1 else 0;
    from', done' := Place(at.page, at.slot + 1), done + {rid};
  }

  // ---------- UPDATE ----------

  /** The new version of a row raises no exception, has the keys, and reads back as it was written. */
  ghost predicate Updatable(attrs: seq<nat>, codec: Codec, exprs: seq<Expr>, t: Bytes) {
    var row := NewRow(exprs, codec.decode(t));
    && (forall i :: 0 <= i < |exprs| ==> Evaluate(exprs[i], codec.decode(t)).Some?)
    && (forall i :: 0 <= i < |attrs| ==> HasKey(row, attrs[i]))
    && codec.encode(row) != [] && codec.decode(codec.encode(row)) == row
  }

  ghost predicate AllUpdatable(attrs: seq<nat>, codec: Codec, condition: Option<Expr>, exprs: seq<Expr>, contents: map<Rid, Bytes>) {
    forall rid :: rid in contents && Affected(codec, condition, contents[rid]) ==> Updatable(attrs, codec, exprs, contents[rid])
  }

  /**
   Gives one row its new version if it satisfies the condition.  The index entries are moved
   whether or not the page takes the new version.
   */
  method UpdateRow(table: TableHeap, indexes: seq<IndexInfo>, codec: Codec, condition: Option<Expr>, exprs: seq<Expr>, rid: Rid,
                   ghost m: map<Rid, Bytes>)
    returns (changed: bool)
    requires table.Valid() && AllDifferent(indexes) && Separate(table, indexes)
    requires rid in Contents(table.heap) && rid in m && m[rid] == Contents(table.heap)[rid]
    requires forall i :: 0 <= i < |indexes| ==> HasKey(codec.decode(m[rid]), indexes[i].lookupAttr)
    requires Affected(codec, condition, m[rid]) ==> Updatable(Attrs(indexes), codec, exprs, m[rid])
    requires FitsRow(codec, condition, exprs, table.heap, rid) && IndexesOk(indexes, m, codec)
    modifies table`heap, table.Repr, indexes
    ensures table.Valid() && table.Repr == old(table.Repr) && table.nextPageId == old(table.nextPageId)
    ensures changed <==> Affected(codec, condition, m[rid])
    ensures table.heap == UpdateOne(codec, condition, exprs, old(table.heap), rid)
    ensures IndexesOk(indexes, if changed then m[rid := NewTuple(codec, exprs, m[rid])] else m, codec)
    ensures forall i :: 0 <= i < |indexes| ==>
              var before, attr, row := old(indexes[i].entries), indexes[i].lookupAttr, codec.decode(m[rid]);
              indexes[i].entries == if changed then Moved(before, KeyOf(row, attr), KeyOf(NewRow(exprs, row), attr), rid) else before
  {
    hide TableHeap.Mirrors, Contents, HeapOk, IndexesOk;
    table.RoomFacts();
    RowOnHeap(table.heap, rid);
    var t := table.GetTuple(rid);
    changed := Affected(codec, condition, t);
    if changed {
      var row := codec.decode(t);
      var newRow := NewRow(exprs, row);
      var ok := table.UpdateTuple(rid, codec.encode(newRow));
      MoveInIndexes(indexes, codec, row, newRow, rid, m, codec.encode(newRow));
    }
  }

  /** An UPDATE over heap `h0` that has visited the rows `done`, counted `count` of them and come to row `rid`. */
  ghost predicate Updating(codec: Codec, condition: Option<Expr>, exprs: seq<Expr>, h0: Heap, h: Heap, from: Place, rid: Rid,
                           done: set<Rid>, count: nat) {
    && Scanning(h0, h, from, rid, done)
    && UpdateFits(codec, condition, exprs, h, ScanOrder(h0, from))
    && UpdateAll(codec, condition, exprs, h, ScanOrder(h0, from)) == UpdateAll(codec, condition, exprs, h0, ScanOrder(h0, START))
    && count == |AffectedAmong(codec, condition, Contents(h0), done)|
  }

  lemma UpdatingNext(codec: Codec, condition: Option<Expr>, exprs: seq<Expr>, h0: Heap, h: Heap, from: Place, rid: Rid,
                     done: set<Rid>, count: nat, at: Place, next: Rid)
    requires Updating(codec, condition, exprs, h0, h, from, rid, done, count)
    requires Arrived(h0, h, from, rid, done, at) && FirstFrom(h, Place(at.page, at.slot + 1), next)
    ensures FitsRow(codec, condition, exprs, h, rid)
    ensures Updating(codec, condition, exprs, h0, UpdateOne(codec, condition, exprs, h, rid), Place(at.page, at.slot + 1), next, done + {rid},
                     count + if Affected(codec, condition, Contents(h0)[rid]) then 1 else 0)
  {
    hide Affected, NewTuple, FitsRow, UpdateOne, Contents;
    AffectedNext(codec, condition, Contents(h0), done, rid);
    OrderFrom(h0, from, at);
    var order := ScanOrder(h0, from);
    assert order[0] == rid && order[1..] == ScanOrder(h0, Place(at.page, at.slot + 1));
    UpdateOneShape(codec, condition, exprs, h, at);
    ScanOn(h0, h, UpdateOne(codec, condition, exprs, h, rid), at, next, done + {rid});
  }

  lemma UpdateOneShape(codec: Codec, condition: Option<Expr>, exprs: seq<Expr>, h: Heap, at: Place)
    requires HeapOk(h) && IsLive(h, at)
    ensures var h' := UpdateOne(codec, condition, exprs, h, RidOf(h, at));
            && HeapOk(h') && SameShape(h, h')
            && forall p :: IsSlot(h, p) && p != at ==> IsSlot(h', p) && TupleAt(h', p) == TupleAt(h, p)
  {
    var id, t := h.chain[at.page], NewTuple(codec, exprs, TupleAt(h, at));
    OneSlotWritten(h, at, t, if |t| <= h.room[id] then h.room[id] - |t| else 0);
  }

  /** The contents that the indexes stand for, when one more row is visited. */
  lemma UpdatedWith(codec: Codec, condition: Option<Expr>, exprs: seq<Expr>, m0: map<Rid, Bytes>, done: set<Rid>, rid: Rid)
    requires rid in m0 && rid !in done
    ensures var m := Updated(codec, condition, exprs, m0, done);
            && rid in m && m[rid] == m0[rid]
            && Updated(codec, condition, exprs, m0, done + {rid}) ==
               if Affected(codec, condition, m[rid]) then m[rid := NewTuple(codec, exprs, m[rid])] else m
  {
    UpdatedNext(codec, condition, exprs, m0, done, rid);
  }

  /** The rows of an UPDATE that its pages refuse. */
  ghost function RefusedRows(codec: Codec, condition: Option<Expr>, exprs: seq<Expr>, h: Heap): set<Rid> {
    Refused(codec, condition, exprs, h, ScanOrder(h, START))
  }

  /** The refused rows would have kept their keys. */
  ghost predicate KeysKept(attrs: seq<nat>, codec: Codec, exprs: seq<Expr>, contents: map<Rid, Bytes>, refused: set<Rid>) {
    forall i, rid :: 0 <= i < |attrs| && rid in refused ==> KeepsKey(codec, exprs, contents, attrs[i], rid)
  }

  /**
   Comes to exactly the rows that satisfied the condition when the statement began, once each,
   and counts them.  Those that their pages do not refuse get their new versions; the indexes
   are exact afterwards exactly when the refused ones would have kept their keys.
   */
  method Update(table: TableHeap, indexes: seq<IndexInfo>, codec: Codec, condition: Option<Expr>, exprs: seq<Expr>) returns (count: nat)
    requires table.Valid() && AllDifferent(indexes) && Separate(table, indexes)
    requires Defined(codec, condition, Contents(table.heap)) && Keyed(Attrs(indexes), codec, Contents(table.heap))
    requires AllUpdatable(Attrs(indexes), codec, condition, exprs, Contents(table.heap))
    requires UpdateFits(codec, condition, exprs, table.heap, ScanOrder(table.heap, START))
    requires IndexesOk(indexes, Contents(table.heap), codec)
    modifies table`heap, table.Repr, indexes
    ensures table.Valid() && table.Repr == old(table.Repr) && table.nextPageId == old(table.nextPageId)
    ensures table.heap == UpdateAll(codec, condition, exprs, old(table.heap), ScanOrder(old(table.heap), START))
    ensures var contents, refused := old(Contents(table.heap)), RefusedRows(codec, condition, exprs, old(table.heap));
            && Contents(table.heap) == Updated(codec, condition, exprs, contents, contents.Keys - refused)
            && count == |AffectedAmong(codec, condition, contents, contents.Keys)|
            && RowsUpdated(codec, condition, exprs, refused, contents, Contents(table.heap))
            && IndexesOk(indexes, Updated(codec, condition, exprs, contents, contents.Keys), codec)
            && (IndexesOk(indexes, Contents(table.heap), codec) <==> KeysKept(Attrs(indexes), codec, exprs, contents, refused))
  {
    hide TableHeap.Mirrors, HeapOk, UpdateAll, UpdateFits, ScanOrder, Refused, KeysKept, Contents, RowsUpdated;
    table.RoomFacts();
    ghost var h0, from, done: set<Rid> := table.heap, START, {};
    count := 0;
    var rid := table.Begin();
    ScanBegins(h0, rid);
    assert Updated(codec, condition, exprs, Contents(h0), {}) == Contents(h0);
    while rid != END
      invariant table.Valid() && table.Repr == old(table.Repr) && table.nextPageId == old(table.nextPageId)
      invariant IndexesOk(indexes, Updated(codec, condition, exprs, Contents(h0), done), codec)
      invariant Updating(codec, condition, exprs, h0, table.heap, from, rid, done, count)
      decreases |h0.chain| - from.page, SlotsLeft(h0, from)
    {
      rid, count, from, done := UpdateStep(table, indexes, codec, condition, exprs, rid, count, h0, from, done);
    }
    NothingLeft(h0, table.heap, from, done);
    UpdatingEnds(indexes, codec, condition, exprs, h0, table.heap, from, done, count);
    IndexesExactly(indexes, codec, condition, exprs, Contents(h0), RefusedRows(codec, condition, exprs, h0));
    UpdatedMeans(Attrs(indexes), codec, condition, exprs, Contents(h0), RefusedRows(codec, condition, exprs, h0));
  }

  lemma UpdatedMeans(attrs: seq<nat>, codec: Codec, condition: Option<Expr>, exprs: seq<Expr>, m: map<Rid, Bytes>, refused: set<Rid>)
    requires AllUpdatable(attrs, codec, condition, exprs, m)
    ensures RowsUpdated(codec, condition, exprs, refused, m, Updated(codec, condition, exprs, m, m.Keys - refused))
  {
    forall rid | rid in m && IsTrueOf(condition, codec.decode(m[rid])) && rid !in refused
      ensures IsNewVersion(exprs, codec.decode(m[rid]), codec.decode(NewTuple(codec, exprs, m[rid])))
    {
      assert Updatable(attrs, codec, exprs, m[rid]);
    }
  }

  method UpdateStep(table: TableHeap, indexes: seq<IndexInfo>, codec: Codec, condition: Option<Expr>, exprs: seq<Expr>, rid: Rid,
                    count: nat, ghost h0: Heap, ghost from: Place, ghost done: set<Rid>)
    returns (next: Rid, count': nat, ghost from': Place, ghost done': set<Rid>)
    requires table.Valid() && AllDifferent(indexes) && Separate(table, indexes) && rid != END
    requires Keyed(Attrs(indexes), codec, Contents(h0)) && AllUpdatable(Attrs(indexes), codec, condition, exprs, Contents(h0))
    requires IndexesOk(indexes, Updated(codec, condition, exprs, Contents(h0), done), codec)
    requires Updating(codec, condition, exprs, h0, table.heap, from, rid, done, count)
    modifies table`heap, table.Repr, indexes
    ensures table.Valid() && table.Repr == old(table.Repr) && table.nextPageId == old(table.nextPageId)
    ensures IndexesOk(indexes, Updated(codec, condition, exprs, Contents(h0), done'), codec)
    ensures Updating(codec, condition, exprs, h0, table.heap, from', next, done', count')
    ensures from'.page <= |h0.chain| && (from'.page > from.page || (from'.page == from.page && SlotsLeft(h0, from') < SlotsLeft(h0, from)))
    ensures SlotsLeft(h0, from') >= 0
  {
    hide TableHeap.Mirrors, FirstFrom, Contents, UpdateOne, UpdateAll, UpdateFits, ScanOrder, HeapOk, FitsRow, Updated;
    ghost var h := table.heap;
    ghost var at := ArriveAt(h0, h, from, rid, done);
    next := table.Next(rid, at);
    UpdatingNext(codec, condition, exprs, h0, h, from, rid, done, count, at, next);
    UpdatedWith(codec, condition, exprs, Contents(h0), done, rid);
    var changed := UpdateRow(table, indexes, codec, condition, exprs, rid, Updated(codec, condition, exprs, Contents(h0), done));
    count' := count + if changed then 1 else 0;
    from', done' := Place(at.page, at.slot + 1), done + {rid};
  }

  lemma UpdatingEnds(indexes: seq<IndexInfo>, codec: Codec, condition: Option<Expr>, exprs: seq<Expr>, h0: Heap, h: Heap,
                     from: Place, done: set<Rid>, count: nat)
    requires Updating(codec, condition, exprs, h0, h, from, END, done, count)
    requires AllUpdatable(Attrs(indexes), codec, condition, exprs, Contents(h0))
    requires UpdateFits(codec, condition, exprs, h0, ScanOrder(h0, START))
    ensures h == UpdateAll(codec, condition, exprs, h0, ScanOrder(h0, START))
    ensures var refused := RefusedRows(codec, condition, exprs, h0);
            && refused <= AffectedAmong(codec, condition, Contents(h0), Contents(h0).Keys)
            && Contents(h) == Updated(codec, condition, exprs, Contents(h0), Contents(h0).Keys - refused)
  {
    hide Contents, UpdateFits, Refused, ScanOrder, Updated, AffectedAmong, NewTuple;
    NothingLeft(h0, h, from, done);
    OrderIsContents(h0);
    var order := ScanOrder(h0, START);
    assert HeapOk(h0) && UpdateAll(codec, condition, exprs, h, []) == h;
    forall rid | rid in order ensures RowChanges(codec, condition, exprs, Contents(h0), rid) {
      assert rid in Members(order);
      UpdatableChanges(Attrs(indexes), codec, condition, exprs, Contents(h0), rid);
    }
    UpdateAllContents(codec, condition, exprs, h0, order);
  }

  lemma UpdatableChanges(attrs: seq<nat>, codec: Codec, condition: Option<Expr>, exprs: seq<Expr>, m: map<Rid, Bytes>, rid: Rid)
    requires rid in m && (Affected(codec, condition, m[rid]) ==> Updatable(attrs, codec, exprs, m[rid]))
    ensures RowChanges(codec, condition, exprs, m, rid)
  {
  }

  lemma IndexesExactly(indexes: seq<IndexInfo>, codec: Codec, condition: Option<Expr>, exprs: seq<Expr>, m: map<Rid, Bytes>, refused: set<Rid>)
    requires refused <= AffectedAmong(codec, condition, m, m.Keys)
    requires IndexesOk(indexes, Updated(codec, condition, exprs, m, m.Keys), codec)
    ensures IndexesOk(indexes, Updated(codec, condition, exprs, m, m.Keys - refused), codec) <==> KeysKept(Attrs(indexes), codec, exprs, m, refused)
  {
    var moved, kept := Updated(codec, condition, exprs, m, m.Keys), Updated(codec, condition, exprs, m, m.Keys - refused);
    forall i | 0 <= i < |indexes|
      ensures IndexOk(indexes[i], kept, codec) <==> forall rid :: rid in refused ==> KeepsKey(codec, exprs, m, indexes[i].lookupAttr, rid)
    {
      assert IndexOk(indexes[i], moved, codec);
      RefusedExactly(codec, condition, exprs, m, refused, indexes[i].entries, indexes[i].lookupAttr);
    }
  }
  // ---------- UPDATE and DELETE over an index scan ----------

  /** The condition that an index scan for a key answers. */
  function PointCondition(attr: nat, key: int32): Option<Expr> {
    Some(Comparison(Equal, Column(0, attr), Constant(Integer(key))))
  }

  /** The rows that satisfy it. */
  ghost function Listed(codec: Codec, attr: nat, key: int32, m: map<Rid, Bytes>): set<Rid> {
    AffectedAmong(codec, PointCondition(attr, key), m, m.Keys)
  }

  /** An exact index lists exactly these rows, each once. */
  lemma ListsAffected(index: IndexInfo, codec: Codec, key: int32, m: map<Rid, Bytes>)
    requires IndexOk(index, m, codec) && forall rid :: rid in m ==> HasKey(codec.decode(m[rid]), index.lookupAttr)
    ensures Distinct(Lookup(index.entries, key))
    ensures Members(Lookup(index.entries, key)) == Listed(codec, index.lookupAttr, key, m)
  {
    var attr, rids := index.lookupAttr, Lookup(index.entries, key);
    forall rid ensures rid in rids <==> rid in m && Affected(codec, PointCondition(attr, key), m[rid]) {
      assert rid in rids <==> rid in Keys(m, codec, attr) && Keys(m, codec, attr)[rid] == key;
      if rid in m {
        Bags.PointKeeps(PointCondition(attr, key), attr, Integer(key), codec.decode(m[rid]));
      }
    }
  }

  /** The rows still to come are as they were. */
  ghost predicate StillThere(m0: map<Rid, Bytes>, h: Heap, rids: seq<Rid>) {
    HeapOk(h) && forall rid :: rid in rids ==> rid in m0 && rid in Contents(h) && Contents(h)[rid] == m0[rid]
  }

  /** Updates the rows of a list that was copied before the first of them changes. */
  method UpdateListed(table: TableHeap, indexes: seq<IndexInfo>, codec: Codec, exprs: seq<Expr>, rids: seq<Rid>)
    requires table.Valid() && AllDifferent(indexes) && Separate(table, indexes) && Distinct(rids)
    requires StillThere(Contents(table.heap), table.heap, rids) && Keyed(Attrs(indexes), codec, Contents(table.heap))
    requires forall rid :: rid in rids ==> Updatable(Attrs(indexes), codec, exprs, Contents(table.heap)[rid])
    requires UpdateFits(codec, None, exprs, table.heap, rids) && IndexesOk(indexes, Contents(table.heap), codec)
    modifies table`heap, table.Repr, indexes
    ensures table.Valid() && table.Repr == old(table.Repr) && table.nextPageId == old(table.nextPageId)
    ensures table.heap == UpdateAll(codec, None, exprs, old(table.heap), rids)
    ensures IndexesOk(indexes, Updated(codec, None, exprs, old(Contents(table.heap)), Members(rids)), codec)
  {
    hide TableHeap.Mirrors, HeapOk, Contents, UpdateOne, NewTuple, FitsRow, Updated;
    ghost var m0, after := Contents(table.heap), UpdateAll(codec, None, exprs, table.heap, rids);
    NothingUpdated(codec, None, exprs, m0);
    assert rids[0..] == rids && Members(rids[..0]) == {};
    for i := 0 to |rids|
      invariant table.Valid() && table.Repr == old(table.Repr) && table.nextPageId == old(table.nextPageId)
      invariant StillThere(m0, table.heap, rids[i..]) && UpdateFits(codec, None, exprs, table.heap, rids[i..])
      invariant UpdateAll(codec, None, exprs, table.heap, rids[i..]) == after
      invariant IndexesOk(indexes, Updated(codec, None, exprs, m0, Members(rids[..i])), codec)
    {
      var rid := rids[i];
      assert rids[i..][0] == rid && rids[i..][1..] == rids[i + 1..];
      assert Members(rids[..i + 1]) == Members(rids[..i]) + {rid};
      assert rid in rids[i..] && rid !in Members(rids[..i]);
      UpdatableChanges(Attrs(indexes), codec, None, exprs, m0, rid);
      StillThereNext(codec, exprs, m0, table.heap, rid, rids[i + 1..]);
      UpdatedWith(codec, None, exprs, m0, Members(rids[..i]), rid);
      var changed := UpdateRow(table, indexes, codec, None, exprs, rid, Updated(codec, None, exprs, m0, Members(rids[..i])));
    }
    assert rids[|rids|..] == [] && rids[..|rids|] == rids;
  }

  lemma NothingUpdated(codec: Codec, condition: Option<Expr>, exprs: seq<Expr>, m: map<Rid, Bytes>)
    ensures Updated(codec, condition, exprs, m, {}) == m
  {
  }

  lemma StillThereNext(codec: Codec, exprs: seq<Expr>, m0: map<Rid, Bytes>, h: Heap, rid: Rid, rest: seq<Rid>)
    requires StillThere(m0, h, [rid] + rest) && rid !in rest && RowChanges(codec, None, exprs, m0, rid)
    requires FitsRow(codec, None, exprs, h, rid)
    ensures StillThere(m0, UpdateOne(codec, None, exprs, h, rid), rest)
  {
    hide HeapOk, Contents;
    assert rid in [rid] + rest && forall r :: r in rest ==> r in [rid] + rest;
    UpdateOneContents(codec, None, exprs, h, rid);
  }

  /**
   UPDATE over an index scan: exactly the rows with the key, although the statement takes them
   off the list that the index scan found them on.
   */
  method UpdateByIndex(table: TableHeap, indexes: seq<IndexInfo>, k: nat, codec: Codec, key: int32, exprs: seq<Expr>) returns (count: nat)
    requires table.Valid() && AllDifferent(indexes) && Separate(table, indexes) && k < |indexes|
    requires Keyed(Attrs(indexes), codec, Contents(table.heap)) && IndexesOk(indexes, Contents(table.heap), codec)
    requires AllUpdatable(Attrs(indexes), codec, PointCondition(indexes[k].lookupAttr, key), exprs, Contents(table.heap))
    requires UpdateFits(codec, None, exprs, table.heap, Lookup(indexes[k].entries, key))
    modifies table`heap, table.Repr, indexes
    ensures table.Valid() && table.Repr == old(table.Repr) && table.nextPageId == old(table.nextPageId)
    ensures table.heap == UpdateAll(codec, None, exprs, old(table.heap), old(Lookup(indexes[k].entries, key)))
    ensures var contents, condition := old(Contents(table.heap)), PointCondition(indexes[k].lookupAttr, key);
            var refused := Refused(codec, None, exprs, old(table.heap), old(Lookup(indexes[k].entries, key)));
            && Contents(table.heap) == Updated(codec, condition, exprs, contents, contents.Keys - refused)
            && count == |AffectedAmong(codec, condition, contents, contents.Keys)|
            && RowsUpdated(codec, condition, exprs, refused, contents, Contents(table.heap))
            && IndexesOk(indexes, Updated(codec, condition, exprs, contents, contents.Keys), codec)
            && (IndexesOk(indexes, Contents(table.heap), codec) <==> KeysKept(Attrs(indexes), codec, exprs, contents, refused))
  {
    hide TableHeap.Mirrors, HeapOk, UpdateAll, UpdateFits, Refused, KeysKept, Contents, Updated, AffectedAmong, Updatable, RowsUpdated;
    table.RoomFacts();
    ghost var h0, m, condition := table.heap, Contents(table.heap), PointCondition(indexes[k].lookupAttr, key);
    assert IndexOk(indexes[k], m, codec);
    ListsAffected(indexes[k], codec, key, m);
    var found := indexes[k].LookupInteger(key);
    var rids := if found.Some? then found.value else [];
    ListedRows(indexes, codec, condition, exprs, h0, rids);
    UpdateListed(table, indexes, codec, exprs, rids);
    count := |rids|;
    IndexesExactly(indexes, codec, condition, exprs, m, Refused(codec, None, exprs, h0, rids));
    UpdatedMeans(Attrs(indexes), codec, condition, exprs, m, Refused(codec, None, exprs, h0, rids));
  }

  /** Updating the listed rows is updating the affected ones. */
  lemma ListedRows(indexes: seq<IndexInfo>, codec: Codec, condition: Option<Expr>, exprs: seq<Expr>, h: Heap, rids: seq<Rid>)
    requires HeapOk(h) && Distinct(rids) && Members(rids) == AffectedAmong(codec, condition, Contents(h), Contents(h).Keys)
    requires AllUpdatable(Attrs(indexes), codec, condition, exprs, Contents(h)) && UpdateFits(codec, None, exprs, h, rids)
    ensures StillThere(Contents(h), h, rids) && |rids| == |Members(rids)|
    ensures forall rid :: rid in rids ==> Updatable(Attrs(indexes), codec, exprs, Contents(h)[rid])
    ensures var m, refused := Contents(h), Refused(codec, None, exprs, h, rids);
            && refused <= AffectedAmong(codec, condition, m, m.Keys)
            && Contents(UpdateAll(codec, None, exprs, h, rids)) == Updated(codec, condition, exprs, m, m.Keys - refused)
            && Updated(codec, None, exprs, m, Members(rids)) == Updated(codec, condition, exprs, m, m.Keys)
  {
    hide HeapOk, Contents, UpdateAll, UpdateFits, Refused, NewTuple;
    var m := Contents(h);
    DistinctCount(rids);
    forall rid | rid in rids ensures rid in m && Affected(codec, condition, m[rid]) && RowChanges(codec, None, exprs, m, rid) {
      assert rid in Members(rids);
      UpdatableChanges(Attrs(indexes), codec, None, exprs, m, rid);
    }
    UpdateAllContents(codec, None, exprs, h, rids);
    var refused := Refused(codec, None, exprs, h, rids);
    assert AffectedAmong(codec, None, m, Members(rids) - refused) == AffectedAmong(codec, condition, m, m.Keys - refused);
    assert AffectedAmong(codec, None, m, Members(rids)) == AffectedAmong(codec, condition, m, m.Keys);
  }

  /** Deletes the rows of a list that was copied before the first of them goes. */
  method DeleteListed(table: TableHeap, indexes: seq<IndexInfo>, codec: Codec, rids: seq<Rid>)
    requires table.Valid() && AllDifferent(indexes) && Separate(table, indexes) && Distinct(rids)
    requires HeapOk(table.heap) && Members(rids) <= Contents(table.heap).Keys
    requires Keyed(Attrs(indexes), codec, Contents(table.heap)) && IndexesOk(indexes, Contents(table.heap), codec)
    modifies table`heap, table.Repr, indexes
    ensures table.Valid() && table.Repr == old(table.Repr) && table.nextPageId == old(table.nextPageId)
    ensures table.heap == DeleteAll(codec, None, old(table.heap), rids)
    ensures Contents(table.heap) == old(Contents(table.heap)) - Members(rids) && IndexesOk(indexes, Contents(table.heap), codec)
  {
    hide TableHeap.Mirrors, HeapOk, Contents, DeleteOne, IndexesOk;
    ghost var m0, after := Contents(table.heap), DeleteAll(codec, None, table.heap, rids);
    assert rids[0..] == rids && m0 - Members(rids[..0]) == m0;
    for i := 0 to |rids|
      invariant table.Valid() && table.Repr == old(table.Repr) && table.nextPageId == old(table.nextPageId)
      invariant HeapOk(table.heap) && Contents(table.heap) == m0 - Members(rids[..i])
      invariant IndexesOk(indexes, m0 - Members(rids[..i]), codec) && DeleteAll(codec, None, table.heap, rids[i..]) == after
    {
      var rid := rids[i];
      NextListed(m0, rids, i);
      DeleteOneContents(codec, None, table.heap, rid);
      var gone := DeleteRow(table, indexes, codec, None, rid, m0 - Members(rids[..i]));
    }
    assert rids[..|rids|] == rids && rids[|rids|..] == [];
  }

  lemma NextListed(m: map<Rid, Bytes>, rids: seq<Rid>, i: nat)
    requires Distinct(rids) && i < |rids| && Members(rids) <= m.Keys
    ensures rids[i] in m - Members(rids[..i]) && (m - Members(rids[..i]))[rids[i]] == m[rids[i]]
    ensures m - Members(rids[..i + 1]) == m - Members(rids[..i]) - {rids[i]}
    ensures rids[i..][0] == rids[i] && rids[i..][1..] == rids[i + 1..]
  {
    assert rids[i] in Members(rids) && rids[i] !in Members(rids[..i]);
    assert Members(rids[..i + 1]) == Members(rids[..i]) + {rids[i]};
  }

  /** DELETE over an index scan: exactly the rows with the key. */
  method DeleteByIndex(table: TableHeap, indexes: seq<IndexInfo>, k: nat, codec: Codec, key: int32) returns (count: nat)
    requires table.Valid() && AllDifferent(indexes) && Separate(table, indexes) && k < |indexes|
    requires Keyed(Attrs(indexes), codec, Contents(table.heap)) && IndexesOk(indexes, Contents(table.heap), codec)
    modifies table`heap, table.Repr, indexes
    ensures table.Valid() && table.Repr == old(table.Repr) && table.nextPageId == old(table.nextPageId)
    ensures table.heap == DeleteAll(codec, None, old(table.heap), old(Lookup(indexes[k].entries, key)))
    ensures var contents, condition := old(Contents(table.heap)), PointCondition(indexes[k].lookupAttr, key);
            && Contents(table.heap) == Remaining(codec, condition, contents, contents.Keys)
            && count == |AffectedAmong(codec, condition, contents, contents.Keys)|
            && RowsGone(codec, condition, contents, Contents(table.heap)) && count + |Contents(table.heap)| == |contents|
    ensures IndexesOk(indexes, Contents(table.heap), codec)
  {
    hide TableHeap.Mirrors, HeapOk, Contents, DeleteAll, RowsGone;
    table.RoomFacts();
    assert IndexOk(indexes[k], Contents(table.heap), codec);
    ListsAffected(indexes[k], codec, key, Contents(table.heap));
    var found := indexes[k].LookupInteger(key);
    var rids := if found.Some? then found.value else [];
    DistinctCount(rids);
    RemainingMeans(codec, PointCondition(indexes[k].lookupAttr, key), Contents(table.heap));
    DeleteListed(table, indexes, codec, rids);
    count := |rids|;
  }

  // ---------- INSERT ----------

  ghost predicate Insertable(attrs: seq<nat>, codec: Codec, row: Row) {
    && (forall i :: 0 <= i < |attrs| ==> HasKey(row, attrs[i]))
    && codec.encode(row) != [] && codec.decode(codec.encode(row)) == row
  }

  /** The contents after rows were inserted at the given ids; `None` marks a row that no page can hold. */
  ghost function WithRows(codec: Codec, contents: map<Rid, Bytes>, rows: seq<Row>, rids: seq<Option<Rid>>): map<Rid, Bytes>
    requires |rids| == |rows|
  {
    if rows == [] then contents else
      var n := |rows| - 1;
      var before := WithRows(codec, contents, rows[..n], rids[..n]);
      if rids[n].Some? then before[rids[n].value := codec.encode(rows[n])] else before
  }

  /** The ids are new, and there is one for exactly the rows that fit a page. */
  ghost predicate NewRids(codec: Codec, contents: map<Rid, Bytes>, rows: seq<Row>, rids: seq<Option<Rid>>)
    requires |rids| == |rows|
  {
    && (forall i :: 0 <= i < |rows| ==> (rids[i].Some? <==> Fits(codec.encode(rows[i]), EMPTY_ROOM)))
    && (forall i :: 0 <= i < |rows| && rids[i].Some? ==> rids[i].value !in contents)
    && (forall i, j :: 0 <= i < j < |rows| && rids[i].Some? && rids[j].Some? ==> rids[i] != rids[j])
  }

  lemma WithRowsNext(codec: Codec, contents: map<Rid, Bytes>, rows: seq<Row>, rids: seq<Option<Rid>>, row: Row, rid: Option<Rid>)
    requires |rids| == |rows| && NewRids(codec, contents, rows, rids)
    requires rid.Some? <==> Fits(codec.encode(row), EMPTY_ROOM)
    requires rid.Some? ==> rid.value !in WithRows(codec, contents, rows, rids)
    ensures NewRids(codec, contents, rows + [row], rids + [rid])
    ensures var before := WithRows(codec, contents, rows, rids);
            WithRows(codec, contents, rows + [row], rids + [rid]) ==
            if rid.Some? then before[rid.value := codec.encode(row)] else before
  {
    assert (rows + [row])[..|rows|] == rows && (rids + [rid])[..|rids|] == rids;
    if rid.Some? {
      WithRowsKeeps(codec, contents, rows, rids, rid.value);
    }
  }

  lemma {:induction false} WithRowsKeeps(codec: Codec, contents: map<Rid, Bytes>, rows: seq<Row>, rids: seq<Option<Rid>>, rid: Rid)
    requires |rids| == |rows| && rid !in WithRows(codec, contents, rows, rids)
    ensures rid !in contents && Some(rid) !in rids
    decreases |rows|
  {
    if rows != [] {
      var n := |rows| - 1;
      WithRowsKeeps(codec, contents, rows[..n], rids[..n], rid);
      assert rids == rids[..n] + [rids[n]];
    }
  }

  /** Inserts one row and its index entries, unless no page can hold it. */
  method InsertRow(table: TableHeap, indexes: seq<IndexInfo>, codec: Codec, row: Row) returns (rid: Option<Rid>)
    requires table.Valid() && table.nextPageId < PAGE_ID_LIMIT && AllDifferent(indexes) && Separate(table, indexes)
    requires Insertable(Attrs(indexes), codec, row) && IndexesOk(indexes, Contents(table.heap), codec)
    modifies table, table.Repr, indexes
    ensures table.Valid() && fresh(table.Repr - old(table.Repr)) && Separate(table, indexes)
    ensures Storage(table.heap, table.nextPageId) == InsertOne(Storage(old(table.heap), old(table.nextPageId)), codec.encode(row))
    ensures table.nextPageId <= old(table.nextPageId) + 1
    ensures IndexesOk(indexes, Contents(table.heap), codec)
    ensures rid.Some? <==> Fits(codec.encode(row), EMPTY_ROOM)
    ensures rid.Some? ==> rid.value !in old(Contents(table.heap))
    ensures Contents(table.heap) ==
            if rid.Some? then old(Contents(table.heap))[rid.value := codec.encode(row)] else old(Contents(table.heap))
    ensures forall i :: 0 <= i < |indexes| ==>
              var before := old(indexes[i].entries);
              indexes[i].entries == if rid.Some? then WithEntry(before, KeyOf(row, indexes[i].lookupAttr), rid.value) else before
  {
    hide TableHeap.Mirrors, HeapOk, HeapInserted, InsertedRid, FirstFit, Contents, IndexesOk;
    table.RoomFacts();
    ghost var h := table.heap;
    var t := codec.encode(row);
    InsertAddsOne(h, t, table.nextPageId);
    rid := table.InsertTuple(t);
    table.RoomFacts();
    if rid.Some? {
      AddToIndexes(indexes, codec, row, rid.value, Contents(h), t);
    }
  }

  lemma NoRids(codec: Codec, contents: map<Rid, Bytes>)
    ensures NewRids(codec, contents, [], []) && WithRows(codec, contents, [], []) == contents
  {
  }

  /** Inserts the rows one by one and counts those that a page can hold. */
  method Insert(table: TableHeap, indexes: seq<IndexInfo>, codec: Codec, rows: seq<Row>)
    returns (count: nat, ghost rids: seq<Option<Rid>>)
    requires table.Valid() && table.nextPageId + |rows| <= PAGE_ID_LIMIT && AllDifferent(indexes) && Separate(table, indexes)
    requires forall i :: 0 <= i < |rows| ==> Insertable(Attrs(indexes), codec, rows[i])
    requires IndexesOk(indexes, Contents(table.heap), codec)
    modifies table, table.Repr, indexes
    ensures table.Valid() && fresh(table.Repr - old(table.Repr)) && Separate(table, indexes)
    ensures Storage(table.heap, table.nextPageId) == InsertAll(codec, Storage(old(table.heap), old(table.nextPageId)), rows)
    ensures count == Fitting(codec, rows)
    ensures IndexesOk(indexes, Contents(table.heap), codec)
    ensures |rids| == |rows| && NewRids(codec, old(Contents(table.heap)), rows, rids)
    ensures Contents(table.heap) == WithRows(codec, old(Contents(table.heap)), rows, rids)
  {
    hide TableHeap.Mirrors, NewRids, Contents, WithRows, Insertable;
    ghost var contents, after := Contents(table.heap), InsertAll(codec, Storage(table.heap, table.nextPageId), rows);
    count, rids := 0, [];
    NoRids(codec, contents);
    assert rows[..0] == [] && rows[0..] == rows;
    for i := 0 to |rows|
      invariant table.Valid() && fresh(table.Repr - old(table.Repr)) && Separate(table, indexes)
      invariant table.nextPageId + |rows| - i <= PAGE_ID_LIMIT && IndexesOk(indexes, Contents(table.heap), codec)
      invariant InsertAll(codec, Storage(table.heap, table.nextPageId), rows[i..]) == after
      invariant |rids| == i && NewRids(codec, contents, rows[..i], rids) && count == Fitting(codec, rows[..i])
      invariant Contents(table.heap) == WithRows(codec, contents, rows[..i], rids)
    {
      var rid := InsertRow(table, indexes, codec, rows[i]);
      WithRowsNext(codec, contents, rows[..i], rids, rows[i], rid);
      assert rows[..i] + [rows[i]] == rows[..i + 1] && rows[..i + 1][..i] == rows[..i] && rows[i..][1..] == rows[i + 1..];
      rids := rids + [rid];
      count := count + if rid.Some? then 1 else 0;
    }
    assert rows[..|rows|] == rows;
  }

  // ---------- CREATE INDEX ----------

  /** Builds an index on an integer column from a scan of the table. */
  method CreateIndex(table: TableHeap, codec: Codec, attr: nat) returns (index: IndexInfo)
    requires table.Valid()
    requires forall rid :: rid in Contents(table.heap) ==> HasKey(codec.decode(Contents(table.heap)[rid]), attr)
    ensures fresh(index) && index.lookupAttr == attr && IndexOk(index, Contents(table.heap), codec)
  {
    hide TableHeap.Mirrors, HeapOk, Contents;
    table.RoomFacts();
    index := new IndexInfo(attr);
    ghost var h, from, done: set<Rid> := table.heap, Place(0, 0), {};
    var rid := table.Begin();
    ScanBegins(h, rid);
    while rid != END
      invariant table.Valid() && Scanning(h, h, from, rid, done)
      invariant IndexOk(index, Visited(Contents(h), done), codec)
      modifies index
      decreases |h.chain| - from.page, SlotsLeft(h, from)
    {
      rid, from, done := IndexNext(table, index, codec, rid, from, done);
    }
    ScanEnds(h, h, from, done);
    assert Visited(Contents(h), done) == Contents(h);
  }

  method IndexNext(table: TableHeap, index: IndexInfo, codec: Codec, rid: Rid, ghost from: Place, ghost done: set<Rid>)
    returns (next: Rid, ghost from': Place, ghost done': set<Rid>)
    requires table.Valid() && Scanning(table.heap, table.heap, from, rid, done) && rid != END && index !in table.Repr
    requires forall r :: r in Contents(table.heap) ==> HasKey(codec.decode(Contents(table.heap)[r]), index.lookupAttr)
    requires IndexOk(index, Visited(Contents(table.heap), done), codec)
    modifies index
    ensures table.Valid() && Scanning(table.heap, table.heap, from', next, done')
    ensures IndexOk(index, Visited(Contents(table.heap), done'), codec)
    ensures var h := table.heap;
            && from'.page <= |h.chain| && (from'.page > from.page || (from'.page == from.page && SlotsLeft(h, from') < SlotsLeft(h, from)))
            && SlotsLeft(h, from') >= 0
  {
    hide TableHeap.Mirrors, HeapOk, Contents;
    ghost var h := table.heap;
    ghost var at := ScanAt(h, h, from, rid, done);
    var t := table.GetTuple(rid);
    next := table.Next(rid, at);
    IndexRow(index, codec, rid, t, Contents(h), done);
    from', done' := Place(at.page, at.slot + 1), done + {rid};
    ScanOn(h, h, h, at, next, done');
  }

  /** Lists one more row of the table. */
  method IndexRow(index: IndexInfo, codec: Codec, rid: Rid, t: Bytes, ghost contents: map<Rid, Bytes>, ghost done: set<Rid>)
    requires rid in contents && contents[rid] == t && rid !in done && HasKey(codec.decode(t), index.lookupAttr)
    requires IndexOk(index, Visited(contents, done), codec)
    modifies index
    ensures IndexOk(index, Visited(contents, done + {rid}), codec)
    ensures index.entries == WithEntry(old(index.entries), KeyOf(codec.decode(t), index.lookupAttr), rid)
  {
    KeysWithRow(Visited(contents, done), codec, index.lookupAttr, rid, t);
    WithEntryAgrees(index.entries, Keys(Visited(contents, done), codec, index.lookupAttr), KeyOf(codec.decode(t), index.lookupAttr), rid);
    assert Visited(contents, done + {rid}) == Visited(contents, done)[rid := t];
    index.InsertEntry(codec.decode(t)[index.lookupAttr].AsInteger(), rid);
  }

  ghost function Visited(contents: map<Rid, Bytes>, done: set<Rid>): map<Rid, Bytes> {
    map rid | rid in contents && rid in done :: contents[rid]
  }

  // ---------- The indexes as the optimizer sees them ----------

  /** A scan of the table: every live row once, decoded. */
  ghost predicate ScanLists(rows: seq<Plans.Stored>, contents: map<Rid, Bytes>, codec: Codec) {
    && Bags.DistinctRids(rows)
    && (forall i :: 0 <= i < |rows| ==> rows[i].rid in contents && rows[i].row == codec.decode(contents[rows[i].rid]))
    && forall rid :: rid in contents ==> exists i :: 0 <= i < |rows| && rows[i].rid == rid
  }

  /** An index that the statements keep in step is one that the index-scan rewrite may use. */
  lemma IndexServesRewrite(entries: EntryMap, contents: map<Rid, Bytes>, codec: Codec, attr: nat, oid: nat, rows: seq<Plans.Stored>)
    requires Agrees(entries, Keys(contents, codec, attr)) && ScanLists(rows, contents, codec)
    requires forall rid :: rid in contents ==> HasKey(codec.decode(contents[rid]), attr)
    ensures Bags.IndexAgrees(Plans.Index(oid, attr, true, entries), rows)
  {
    var index := Plans.Index(oid, attr, true, entries);
    var keys := Keys(contents, codec, attr);
    forall key, rid ensures rid in Plans.Lookup(index, key) <==> Bags.KeyedAt(rows, attr, key, rid) {
      assert Plans.Lookup(index, key) == Lookup(entries, key);
      assert rid in Lookup(entries, key) <==> rid in keys && keys[rid] == key;
      if rid in contents {
        var i :| 0 <= i < |rows| && rows[i].rid == rid;
        assert KeyIs(rows[i].row, attr, key) <==> keys[rid] == key;
      }
    }
    forall key ensures Distinct(Plans.Lookup(index, key)) {
      assert Plans.Lookup(index, key) == Lookup(entries, key);
    }
  }
}
