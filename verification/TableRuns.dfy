/**
 Whole runs of statements against a table and its indexes, and the queries that the optimizer
 answers with these indexes afterwards.
 */
module TableRuns {
  import opened Types
  import opened Values
  import opened Expressions
  import opened HeapOrder
  import opened TableHeaps
  import opened IndexEntries
  import opened Statements
  import opened Executors
  import Bags
  import Plans
  import Rewrites

  // ---------- Statements ----------

  /**
   The statement raises no exception; its new rows have keys and read back as written; and an
   update that a page refuses would have kept the keys of the row.
   */
  ghost predicate StatementOk(attrs: seq<nat>, codec: Codec, s: Storage, statement: Statement) {
    match statement
    case InsertRows(rows) =>
      s.next + |rows| <= PAGE_ID_LIMIT && forall i :: 0 <= i < |rows| ==> Insertable(attrs, codec, rows[i])
    case UpdateRows(condition, exprs) =>
      && Defined(codec, condition, Contents(s.heap)) && AllUpdatable(attrs, codec, condition, exprs, Contents(s.heap))
      && UpdateFits(codec, condition, exprs, s.heap, ScanOrder(s.heap, START))
      && KeysKept(attrs, codec, exprs, Contents(s.heap), RefusedRows(codec, condition, exprs, s.heap))
    case DeleteRows(condition) =>
      Defined(codec, condition, Contents(s.heap))
  }

  ghost predicate StatementsOk(attrs: seq<nat>, codec: Codec, s: Storage, statements: seq<Statement>) {
    forall i :: 0 <= i < |statements| ==> StatementOk(attrs, codec, AfterStatements(codec, s, statements[..i]), statements[i])
  }

  /** The table is stored as `s`, and its indexes list exactly its rows. */
  ghost predicate InStep(table: TableHeap, indexes: seq<IndexInfo>, codec: Codec, s: Storage)
    reads table, table.Repr, indexes
  {
    && table.Valid() && AllDifferent(indexes) && Separate(table, indexes) && Storage(table.heap, table.nextPageId) == s
    && Keyed(Attrs(indexes), codec, Contents(s.heap)) && IndexesOk(indexes, Contents(s.heap), codec)
  }

  lemma {:induction false} WithRowsKeyed(attrs: seq<nat>, codec: Codec, m: map<Rid, Bytes>, rows: seq<Row>, rids: seq<Option<Rid>>)
    requires |rids| == |rows| && Keyed(attrs, codec, m) && forall i :: 0 <= i < |rows| ==> Insertable(attrs, codec, rows[i])
    ensures Keyed(attrs, codec, WithRows(codec, m, rows, rids))
    decreases |rows|
  {
    if rows != [] {
      WithRowsKeyed(attrs, codec, m, rows[..|rows| - 1], rids[..|rows| - 1]);
    }
  }

  lemma UpdatedKeyed(attrs: seq<nat>, codec: Codec, condition: Option<Expr>, exprs: seq<Expr>, m: map<Rid, Bytes>, done: set<Rid>)
    requires Keyed(attrs, codec, m) && AllUpdatable(attrs, codec, condition, exprs, m)
    ensures Keyed(attrs, codec, Updated(codec, condition, exprs, m, done))
  {
    var m' := Updated(codec, condition, exprs, m, done);
    forall rid, i | rid in m' && 0 <= i < |attrs| ensures HasKey(codec.decode(m'[rid]), attrs[i]) {
      assert HasKey(codec.decode(m[rid]), attrs[i]);
    }
  }

  /** Every statement keeps the indexes in step with the table, and reports the rows it came to. */
  method Perform(table: TableHeap, indexes: seq<IndexInfo>, codec: Codec, statement: Statement, ghost s: Storage) returns (count: nat)
    requires InStep(table, indexes, codec, s) && StatementOk(Attrs(indexes), codec, s, statement)
    modifies table, table.Repr, indexes
    ensures fresh(table.Repr - old(table.Repr))
    ensures InStep(table, indexes, codec, AfterStatement(codec, s, statement)) && count == CountOf(codec, Contents(s.heap), statement)
  {
    hide TableHeap.Valid, HeapOk, Contents, UpdateAll, DeleteAll, InsertAll, UpdateFits, ScanOrder, Updated, Remaining, AffectedAmong;
    match statement
    case InsertRows(rows) =>
      ghost var rids;
      count, rids := Insert(table, indexes, codec, rows);
      WithRowsKeyed(Attrs(indexes), codec, Contents(s.heap), rows, rids);
    case UpdateRows(condition, exprs) =>
      count := Update(table, indexes, codec, condition, exprs);
      UpdatedKeyed(Attrs(indexes), codec, condition, exprs, Contents(s.heap), Contents(s.heap).Keys - RefusedRows(codec, condition, exprs, s.heap));
    case DeleteRows(condition) =>
      count := Delete(table, indexes, codec, condition);
      RemainingKeyed(Attrs(indexes), codec, condition, Contents(s.heap));
  }

  lemma RemainingKeyed(attrs: seq<nat>, codec: Codec, condition: Option<Expr>, m: map<Rid, Bytes>)
    requires Keyed(attrs, codec, m)
    ensures Keyed(attrs, codec, Remaining(codec, condition, m, m.Keys))
  {
  }

  method PerformAll(table: TableHeap, indexes: seq<IndexInfo>, codec: Codec, statements: seq<Statement>, ghost s: Storage)
    returns (counts: seq<nat>)
    requires InStep(table, indexes, codec, s) && StatementsOk(Attrs(indexes), codec, s, statements)
    modifies table, table.Repr, indexes
    ensures fresh(table.Repr - old(table.Repr))
    ensures InStep(table, indexes, codec, AfterStatements(codec, s, statements))
    ensures |counts| == |statements| && forall i :: 0 <= i < |statements| ==>
              counts[i] == CountOf(codec, Contents(AfterStatements(codec, s, statements[..i]).heap), statements[i])
  {
    hide InStep, AfterStatement, StatementOk, CountOf, Contents;
    counts := [];
    assert statements[..0] == [] && statements[..|statements|] == statements;
    for n := 0 to |statements|
      invariant fresh(table.Repr - old(table.Repr))
      invariant InStep(table, indexes, codec, AfterStatements(codec, s, statements[..n]))
      invariant |counts| == n && forall i :: 0 <= i < n ==>
                  counts[i] == CountOf(codec, Contents(AfterStatements(codec, s, statements[..i]).heap), statements[i])
    {
      assert statements[..n + 1][..n] == statements[..n];
      var count := Perform(table, indexes, codec, statements[n], AfterStatements(codec, s, statements[..n]));
      counts := counts + [count];
    }
  }

  // ---------- The table as the optimizer sees it ----------

  function StoredRow(codec: Codec, entry: (Rid, Bytes)): Plans.Stored {
    Plans.Stored(entry.0, codec.decode(entry.1))
  }

  /** A scan of the heap is a scan of the rows. */
  lemma ListsAreScans(codec: Codec, entries: seq<(Rid, Bytes)>, rows: seq<Plans.Stored>, contents: map<Rid, Bytes>)
    requires ListsAll(entries, contents) && |rows| == |entries|
    requires forall i :: 0 <= i < |rows| ==> rows[i] == StoredRow(codec, entries[i])
    ensures ScanLists(rows, contents, codec)
  {
    forall i | 0 <= i < |rows| ensures rows[i].rid in contents && rows[i].row == codec.decode(contents[rows[i].rid]) {
      assert (entries[i].0, entries[i].1) in entries;
    }
    forall rid | rid in contents ensures exists i :: 0 <= i < |rows| && rows[i].rid == rid {
      var i :| 0 <= i < |entries| && entries[i] == (rid, contents[rid]);
      assert rows[i].rid == rid;
    }
  }

  lemma {:induction false} FoundByOid(indexes: seq<Plans.Index>, i: nat)
    requires i < |indexes| && forall j, k :: 0 <= j < k < |indexes| ==> indexes[j].oid != indexes[k].oid
    ensures Plans.FindIndex(indexes, indexes[i].oid) == Some(indexes[i])
    decreases |indexes|
  {
    if i > 0 {
      FoundByOid(indexes[1..], i - 1);
    }
  }

  /** Live places in scan order, and among them all live ones from `from` on. */
  ghost predicate LiveInOrder(h: Heap, places: seq<Place>, from: Place) {
    && (forall i :: 0 <= i < |places| ==> IsLive(h, places[i]) && !Before(places[i], from))
    && (forall i, j :: 0 <= i < j < |places| ==> Before(places[i], places[j]))
    && (forall p :: IsLive(h, p) && !Before(p, from) ==> p in places)
  }

  /** Such places are those of the rows that a scan comes to, in its order. */
  lemma {:induction false} PlacesInOrder(h: Heap, places: seq<Place>, from: Place)
    requires LiveInOrder(h, places, from)
    ensures |ScanOrder(h, from)| == |places|
    ensures forall i :: 0 <= i < |places| ==> ScanOrder(h, from)[i] == RidOf(h, places[i])
    decreases |places|
  {
    hide ScanOrder;
    if places == [] {
      OrderEnds(h, from);
    } else {
      var at, rest := places[0], places[1..];
      var next := Place(at.page, at.slot + 1);
      forall p | IsLive(h, p) && !Before(p, from) ensures !Before(p, at) && (p == at || p in rest) {
        assert p in places;
      }
      OrderFrom(h, from, at);
      PlacesInOrder(h, rest, next);
    }
  }

  /** A scan of the whole table, as rows, in scan order. */
  method ReadRows(table: TableHeap, codec: Codec) returns (rows: seq<Plans.Stored>)
    requires table.Valid()
    ensures ScanLists(rows, Contents(table.heap), codec) && Bags.RidsOf(rows) == ScanOrder(table.heap, START)
  {
    hide TableHeap.Valid, Contents, ListsAll, ScanLists, ScanOrder;
    ghost var places;
    var entries;
    entries, places := ScanAll(table);
    rows := [];
    for i := 0 to |entries|
      invariant |rows| == i && forall k :: 0 <= k < i ==> rows[k] == StoredRow(codec, entries[k])
    {
      rows := rows + [StoredRow(codec, entries[i])];
    }
    ListsAreScans(codec, entries, rows, Contents(table.heap));
    VisitedInOrder(table.heap, places);
    PlacesInOrder(table.heap, places, START);
  }

  lemma VisitedInOrder(h: Heap, places: seq<Place>)
    requires Visits(h, places, Past(h))
    ensures LiveInOrder(h, places, START)
  {
  }

  /** The database of one table: its rows as a scan yields them, and its indexes as they are. */
  method ReadDatabase(table: TableHeap, indexes: seq<IndexInfo>, codec: Codec, ghost s: Storage) returns (db: Plans.Database)
    requires InStep(table, indexes, codec, s)
    ensures db.Keys == {0} && ScanLists(db[0].rows, Contents(s.heap), codec) && Bags.RidsOf(db[0].rows) == ScanOrder(s.heap, START)
    ensures |db[0].indexes| == |indexes| && forall i :: 0 <= i < |indexes| ==>
              db[0].indexes[i] == Plans.Index(i, indexes[i].lookupAttr, true, indexes[i].entries)
    ensures Rewrites.IndexesAgree(db)
  {
    hide TableHeap.Valid, Contents, ScanLists, ScanOrder, Bags.IndexAgrees;
    var rows := ReadRows(table, codec);
    var listed: seq<Plans.Index> := [];
    for i := 0 to |indexes|
      invariant |listed| == i && forall k :: 0 <= k < i ==>
                  listed[k] == Plans.Index(k, indexes[k].lookupAttr, true, indexes[k].entries)
    {
      listed := listed + [Plans.Index(i, indexes[i].lookupAttr, true, indexes[i].entries)];
    }
    db := map[0 := Plans.Table(rows, listed)];
    forall index | index in listed
      ensures Bags.IndexAgrees(index, rows) && Plans.FindIndex(listed, index.oid) == Some(index)
    {
      var i :| 0 <= i < |listed| && listed[i] == index;
      FoundByOid(listed, i);
      assert IndexOk(indexes[i], Contents(s.heap), codec);
      IndexServesRewrite(indexes[i].entries, Contents(s.heap), codec, indexes[i].lookupAttr, i, rows);
    }
  }

  // ---------- Runs ----------

  /** A table that was just created. */
  ghost function NewTable(): Storage {
    Storage(Heap([0], map[0 := []], map[0 := EMPTY_ROOM]), 1)
  }

  method CreateIndexes(table: TableHeap, codec: Codec, attrs: seq<nat>, ghost s: Storage) returns (indexes: seq<IndexInfo>)
    requires InStep(table, [], codec, s) && Keyed(attrs, codec, Contents(s.heap))
    ensures Attrs(indexes) == attrs && InStep(table, indexes, codec, s)
    ensures forall i :: 0 <= i < |indexes| ==> fresh(indexes[i])
  {
    hide TableHeap.Valid, Contents;
    indexes := [];
    for n := 0 to |attrs|
      invariant |indexes| == n && forall i :: 0 <= i < n ==> fresh(indexes[i]) && indexes[i].lookupAttr == attrs[i]
      invariant AllDifferent(indexes) && Separate(table, indexes) && IndexesOk(indexes, Contents(s.heap), codec)
    {
      var index := CreateIndex(table, codec, attrs[n]);
      assert forall i :: 0 <= i < n ==> IndexOk(indexes[i], Contents(s.heap), codec);
      indexes := indexes + [index];
    }
  }

  /**
   After any run of statements, the creation of indexes, and any run of further statements, every
   query over the table that is safe to optimize yields the same rows when it is.
   */
  method Run(codec: Codec, before: seq<Statement>, attrs: seq<nat>, after: seq<Statement>)
    returns (counts: seq<nat>, db: Plans.Database)
    requires StatementsOk([], codec, NewTable(), before)
    requires Keyed(attrs, codec, Contents(AfterStatements(codec, NewTable(), before).heap))
    requires StatementsOk(attrs, codec, AfterStatements(codec, NewTable(), before), after)
    ensures var s := AfterStatements(codec, NewTable(), before);
            && |counts| == |after|
            && (forall i :: 0 <= i < |after| ==> counts[i] == CountOf(codec, Contents(AfterStatements(codec, s, after[..i]).heap), after[i]))
            && db.Keys == {0} && ScanLists(db[0].rows, Contents(AfterStatements(codec, s, after).heap), codec)
            && Bags.RidsOf(db[0].rows) == ScanOrder(AfterStatements(codec, s, after).heap, START)
    ensures forall plan :: Rewrites.Safe(db, plan) && Rewrites.BagSafe(db, plan) ==>
              Rewrites.Alike(db, plan, Plans.Optimized(Some(db), plan))
  {
    hide TableHeap.Valid, Contents, AfterStatement, StatementOk, CountOf, InStep, Keyed, ScanLists, ScanOrder;
    var table := new TableHeap();
    NewInStep(table, codec);
    var earlier := PerformAll(table, [], codec, before, NewTable());
    ghost var s := AfterStatements(codec, NewTable(), before);
    var indexes := CreateIndexes(table, codec, attrs, s);
    counts := PerformAll(table, indexes, codec, after, s);
    db := ReadDatabase(table, indexes, codec, AfterStatements(codec, s, after));
    forall plan | Rewrites.Safe(db, plan) && Rewrites.BagSafe(db, plan)
      ensures Rewrites.Alike(db, plan, Plans.Optimized(Some(db), plan))
    {
      Rewrites.OptimizePreservesBag(db, plan);
    }
  }

  lemma NewInStep(table: TableHeap, codec: Codec)
    requires table.Valid() && table.heap == NewTable().heap && table.nextPageId == 1
    ensures InStep(table, [], codec, NewTable()) && Contents(table.heap) == map[]
  {
    table.RoomFacts();
    assert Contents(table.heap) == map[];
  }

  // ---------- An update that is refused ----------

  /** One short tuple for the key 1, and longer ones than a page can hold for all others. */
  function LopsidedCodec(): Codec {
    Codec(row => if row == [Integer(1)] then [1] else Repeat(2, PAGE_SIZE), t => if t == [1] then [Integer(1)] else [Integer(2)])
  }

  /** The new version of the short row is too long for any page, and has another key. */
  lemma LongVersion(codec: Codec, exprs: seq<Expr>)
    requires codec == LopsidedCodec() && exprs == [Constant(Integer(2))]
    ensures codec.encode([Integer(1)]) == [1] && codec.decode([1]) == [Integer(1)] && HasKey([Integer(1)], 0)
    ensures NewTuple(codec, exprs, [1]) == Repeat(2, PAGE_SIZE) && KeyOf(codec.decode(Repeat(2, PAGE_SIZE)), 0) == 2
    ensures Updatable([0], codec, exprs, [1])
  {
    assert NewRow(exprs, [Integer(1)]) == [Integer(2)];
    assert Repeat(2, PAGE_SIZE)[0] != 1;
  }

  /** A heap with one short row, whose new version its page refuses. */
  lemma RefusedHere(codec: Codec, h: Heap, rid: Rid, exprs: seq<Expr>)
    requires codec == LopsidedCodec() && exprs == [Constant(Integer(2))]
    requires HeapOk(h) && Contents(h) == map[rid := [1]]
    requires forall i :: 0 <= i < |h.chain| ==> h.room[h.chain[i]] <= EMPTY_ROOM
    ensures AllUpdatable([0], codec, None, exprs, Contents(h)) && Defined(codec, None, Contents(h))
    ensures UpdateFits(codec, None, exprs, h, ScanOrder(h, START)) && RefusedRows(codec, None, exprs, h) == {rid}
    ensures Keys(Updated(codec, None, exprs, Contents(h), {rid}), codec, 0) == map[rid := 2]
    ensures Contents(h).Keys == {rid} && Updated(codec, None, exprs, Contents(h), {rid} - {rid}) == Contents(h)
    ensures |AffectedAmong(codec, None, Contents(h), {rid})| == 1
  {
    hide Contents, Updatable, ScanOrder, HeapOk, LopsidedCodec;
    LongVersion(codec, exprs);
    OnlyRow(h, rid, [1]);
    TooLongHere(codec, h, rid, exprs);
    assert Refused(codec, None, exprs, h, [rid]) == {rid} + Refused(codec, None, exprs, h, []);
    assert [rid][1..] == [];
    assert AffectedAmong(codec, None, Contents(h), {rid}) == {rid};
  }

  lemma TooLongHere(codec: Codec, h: Heap, rid: Rid, exprs: seq<Expr>)
    requires OnHeap(h, rid) && TupleOn(h, rid) == [1] && h.room[rid.pageId] <= EMPTY_ROOM && NewTuple(codec, exprs, [1]) == Repeat(2, PAGE_SIZE)
    ensures RefusesRow(codec, None, exprs, h, rid) && FitsRow(codec, None, exprs, h, rid) && UpdateOne(codec, None, exprs, h, rid) == h
  {
  }

  lemma OnlyRow(h: Heap, rid: Rid, t: Bytes)
    requires HeapOk(h) && Contents(h) == map[rid := t] && forall i :: 0 <= i < |h.chain| ==> h.room[h.chain[i]] <= EMPTY_ROOM
    ensures ScanOrder(h, START) == [rid] && OnHeap(h, rid) && TupleOn(h, rid) == t && h.room[rid.pageId] <= EMPTY_ROOM
  {
    OrderIsContents(h);
    RowOnHeap(h, rid);
    var order := ScanOrder(h, START);
    DistinctCount(order);
    assert Members(order) == {rid} && |order| == 1;
    assert order[0] in Members(order);
    var i :| 0 <= i < |h.chain| && h.chain[i] == rid.pageId;
  }

  /** A table with one row, of key 1, and an index on the key. */
  method OneRowTable(codec: Codec) returns (table: TableHeap, index: IndexInfo, rid: Rid)
    requires codec == LopsidedCodec()
    ensures fresh(table) && fresh(table.Repr) && fresh(index) && index.lookupAttr == 0 && table.Valid() && Separate(table, [index])
    ensures Contents(table.heap) == map[rid := [1]] && IndexOk(index, Contents(table.heap), codec)
  {
    hide TableHeap.Valid, HeapOk, Contents, LopsidedCodec;
    LongVersion(codec, [Constant(Integer(2))]);
    table := new TableHeap();
    NewInStep(table, codec);
    var row := [Integer(1)];
    var placed := InsertRow(table, [], codec, row);
    rid := placed.value;
    index := CreateIndex(table, codec, 0);
    table.RoomFacts();
  }

  /**
   On heap `h0` with one row, of key 1, which the index lists under 1, the page refuses the new
   version.  The statement counts the row, and the index lists it under the key 2 from then on,
   although the heap is as it was.
   */
  method RefusedUpdateLosesRow()
    returns (table: TableHeap, index: IndexInfo, rid: Rid, count: nat, ghost codec: Codec, ghost h0: Heap, ghost entries0: EntryMap)
    ensures table.Valid() && index.lookupAttr == 0 && codec.decode([1]) == [Integer(1)]
    ensures Contents(h0) == map[rid := [1]] && Agrees(entries0, Keys(Contents(h0), codec, 0))
    ensures table.heap == UpdateAll(codec, None, [Constant(Integer(2))], h0, ScanOrder(h0, START))
    ensures Contents(table.heap) == map[rid := [1]] && count == 1
    ensures Lookup(index.entries, 2) == [rid] && !IndexOk(index, Contents(table.heap), codec)
  {
    hide TableHeap.Valid, HeapOk, Contents, UpdateFits, ScanOrder, IndexesOk, LopsidedCodec, AllUpdatable, NewTuple, RefusedRows;
    hide Updated, AffectedAmong, Keys, Agrees, UpdateAll, KeysKept;
    var layout, exprs := LopsidedCodec(), [Constant(Integer(2))];
    codec := layout;
    LongVersion(codec, exprs);
    table, index, rid := OneRowTable(layout);
    h0, entries0 := table.heap, index.entries;
    assert Attrs([index]) == [0];
    table.RoomFacts();
    RefusedHere(codec, h0, rid, exprs);
    OneIndex(index, Contents(h0), codec);
    count := Update(table, [index], layout, None, exprs);
    OneIndex(index, Updated(codec, None, exprs, Contents(h0), {rid}), codec);
    ListedUnderNew(index.entries, rid);
    WrongKey(index.entries, Contents(h0), codec, rid);
  }

  /** The row has the key 1, so an index that lists it under 2 is wrong. */
  lemma WrongKey(entries: EntryMap, m: map<Rid, Bytes>, codec: Codec, rid: Rid)
    requires Agrees(entries, map[rid := 2]) && m == map[rid := [1]] && codec.decode([1]) == [Integer(1)]
    ensures !Agrees(entries, Keys(m, codec, 0))
  {
    var listed: map<Rid, int>, should := map[rid := 2], Keys(m, codec, 0);
    assert rid in should && should[rid] == 1;
    if Agrees(entries, should) {
      AgreesOnce(entries, listed, should);
    }
  }

  lemma ListedUnderNew(entries: EntryMap, rid: Rid)
    requires Agrees(entries, map[rid := 2])
    ensures 2 in entries && entries[2] == [rid]
  {
    var m: map<Rid, int> := map[rid := 2];
    var rids := Lookup(entries, m[rid]);
    assert rid in Lookup(entries, m[rid]) <==> rid in m && m[rid] == m[rid];
    forall x | x in rids ensures x == rid {
      assert x in m && m.Keys == {rid};
    }
    assert Members(rids) == {rid};
    DistinctCount(rids);
  }

  lemma OneIndex(index: IndexInfo, m: map<Rid, Bytes>, codec: Codec)
    ensures IndexesOk([index], m, codec) <==> IndexOk(index, m, codec)
  {
    assert [index][0] == index;
  }
}
