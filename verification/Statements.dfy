/**
 What INSERT, UPDATE and DELETE do to a table: as maps from record ids to tuples, and as heaps,
 on which a page may refuse the new version of a tuple.
 */
module Statements {
  import opened Types
  import opened Values
  import opened Expressions
  import opened HeapOrder
  import opened HeapScans
  import opened IndexEntries
  import Plans

  /** How rows of the table are laid out in bytes. */
  datatype Codec = Codec(encode: Row -> Bytes, decode: Bytes -> Row)

  function KeyOf(row: Row, attr: nat): int {
    if HasKey(row, attr) then row[attr].AsInteger() else 0
  }

  function Keys(contents: map<Rid, Bytes>, codec: Codec, attr: nat): map<Rid, int> {
    map rid | rid in contents :: KeyOf(codec.decode(contents[rid]), attr)
  }

  lemma KeysWithRow(contents: map<Rid, Bytes>, codec: Codec, attr: nat, rid: Rid, t: Bytes)
    ensures Keys(contents[rid := t], codec, attr) == Keys(contents, codec, attr)[rid := KeyOf(codec.decode(t), attr)]
    ensures Keys(contents - {rid}, codec, attr) == Keys(contents, codec, attr) - {rid}
  {
  }

  // ---------- Which rows a statement affects ----------

  /** The row satisfies the condition of the statement. */
  predicate Affected(codec: Codec, condition: Option<Expr>, t: Bytes) {
    Plans.Keeps(condition, codec.decode(t))
  }

  ghost predicate Defined(codec: Codec, condition: Option<Expr>, contents: map<Rid, Bytes>) {
    forall rid :: rid in contents ==> condition.None? || IsVerdict(Evaluate(condition.value, codec.decode(contents[rid])))
  }

  /** The rows among `rids` that the statement affects. */
  ghost function AffectedAmong(codec: Codec, condition: Option<Expr>, contents: map<Rid, Bytes>, rids: set<Rid>): set<Rid> {
    set rid | rid in rids && rid in contents && Affected(codec, condition, contents[rid])
  }

  lemma AffectedNext(codec: Codec, condition: Option<Expr>, contents: map<Rid, Bytes>, rids: set<Rid>, rid: Rid)
    requires rid !in rids && rid in contents
    ensures var before, after := AffectedAmong(codec, condition, contents, rids), AffectedAmong(codec, condition, contents, rids + {rid});
            |after| == |before| + if Affected(codec, condition, contents[rid]) then 1 else 0
  {
    var before, after := AffectedAmong(codec, condition, contents, rids), AffectedAmong(codec, condition, contents, rids + {rid});
    if Affected(codec, condition, contents[rid]) {
      assert after == before + {rid};
    } else {
      assert after == before;
    }
  }

  // ---------- What a statement does to the rows ----------

  /** The condition, if there is one, is true of the row. */
  ghost predicate IsTrueOf(condition: Option<Expr>, row: Row) {
    match condition
    case None => true
    case Some(e) => Evaluate(e, row) == Some(Boolean(true))
  }

  /** The rows of which the condition is true are gone, and all others are there as they were. */
  ghost predicate RowsGone(codec: Codec, condition: Option<Expr>, m: map<Rid, Bytes>, m': map<Rid, Bytes>) {
    && m'.Keys <= m.Keys
    && forall rid :: rid in m ==>
         && (rid in m' <==> !IsTrueOf(condition, codec.decode(m[rid])))
         && (rid in m' ==> m'[rid] == m[rid])
  }

  /** Cell `i` of the new row is the value of expression `i` on the old one. */
  ghost predicate IsNewVersion(exprs: seq<Expr>, row: Row, row': Row) {
    |row'| == |exprs| && forall i :: 0 <= i < |exprs| ==> Evaluate(exprs[i], row) == Some(row'[i])
  }

  /**
   Every row of which the condition is true, unless it was refused, has become its new version;
   all others are byte for byte as they were.
   */
  ghost predicate RowsUpdated(codec: Codec, condition: Option<Expr>, exprs: seq<Expr>, refused: set<Rid>,
                              m: map<Rid, Bytes>, m': map<Rid, Bytes>) {
    && m'.Keys == m.Keys
    && forall rid :: rid in m ==>
         if IsTrueOf(condition, codec.decode(m[rid])) && rid !in refused then
           IsNewVersion(exprs, codec.decode(m[rid]), codec.decode(m'[rid]))
         else m'[rid] == m[rid]
  }

  // ---------- The order of a scan ----------

  /** The live rows from a place on, in scan order. */
  function ScanOrder(h: Heap, from: Place): seq<Rid>
    decreases |h.chain| - from.page, SlotsLeft(h, from)
  {
    if from.page >= |h.chain| then []
    else if !IsSlot(h, from) then ScanOrder(h, Place(from.page + 1, 0))
    else (if IsLive(h, from) then [RidOf(h, from)] else []) + ScanOrder(h, Place(from.page, from.slot + 1))
  }

  const START: Place := Place(0, 0)

  /** The next row of a scan is the first in the order from there on. */
  lemma {:induction false} OrderFrom(h: Heap, from: Place, at: Place)
    requires IsLive(h, at) && !Before(at, from)
    requires forall p :: IsLive(h, p) && !Before(p, from) ==> !Before(p, at)
    ensures ScanOrder(h, from) == [RidOf(h, at)] + ScanOrder(h, Place(at.page, at.slot + 1))
    decreases |h.chain| - from.page, SlotsLeft(h, from)
  {
    if !IsSlot(h, from) {
      OrderFrom(h, Place(from.page + 1, 0), at);
    } else if from != at {
      OrderFrom(h, Place(from.page, from.slot + 1), at);
    }
  }

  lemma {:induction false} OrderEnds(h: Heap, from: Place)
    requires forall p :: IsLive(h, p) ==> Before(p, from)
    ensures ScanOrder(h, from) == []
    decreases |h.chain| - from.page, SlotsLeft(h, from)
  {
    if from.page < |h.chain| {
      OrderEnds(h, if IsSlot(h, from) then Place(from.page, from.slot + 1) else Place(from.page + 1, 0));
    }
  }

  /** The rids listed, as a set. */
  function Members(rids: seq<Rid>): set<Rid> {
    set rid | rid in rids
  }

  lemma {:induction false} DistinctCount(rids: seq<Rid>)
    requires Distinct(rids)
    ensures |Members(rids)| == |rids|
    decreases |rids|
  {
    if rids != [] {
      var n := |rids| - 1;
      DistinctCount(rids[..n]);
      assert Members(rids) == Members(rids[..n]) + {rids[n]} && rids[n] !in Members(rids[..n]);
    } else {
      assert Members(rids) == {};
    }
  }

  /** A live row from a place on. */
  ghost predicate LiveFrom(h: Heap, from: Place, rid: Rid) {
    exists p :: IsLive(h, p) && !Before(p, from) && RidOf(h, p) == rid
  }

  /** The next place that a scan looks at. */
  function NextPlace(h: Heap, from: Place): Place {
    if IsSlot(h, from) then Place(from.page, from.slot + 1) else Place(from.page + 1, 0)
  }

  lemma OrderNext(h: Heap, from: Place)
    ensures from.page >= |h.chain| ==> ScanOrder(h, from) == []
    ensures from.page < |h.chain| ==>
              ScanOrder(h, from) == (if IsLive(h, from) then [RidOf(h, from)] else []) + ScanOrder(h, NextPlace(h, from))
  {
  }

  lemma LiveNext(h: Heap, from: Place, rid: Rid)
    requires HeapOk(h)
    ensures from.page >= |h.chain| ==> !LiveFrom(h, from, rid)
    ensures from.page < |h.chain| ==>
              (LiveFrom(h, from, rid) <==> (IsLive(h, from) && RidOf(h, from) == rid) || LiveFrom(h, NextPlace(h, from), rid))
  {
    var next := NextPlace(h, from);
    if LiveFrom(h, from, rid) {
      var p :| IsLive(h, p) && !Before(p, from) && RidOf(h, p) == rid;
      assert p == from || !Before(p, next);
    }
    if LiveFrom(h, next, rid) {
      var p :| IsLive(h, p) && !Before(p, next) && RidOf(h, p) == rid;
      assert !Before(p, from);
    }
  }

  /** A scan lists the live rows from its place on. */
  lemma {:induction false} OrderMembers(h: Heap, from: Place, rid: Rid)
    requires HeapOk(h)
    ensures rid in ScanOrder(h, from) <==> LiveFrom(h, from, rid)
    decreases |h.chain| - from.page, SlotsLeft(h, from)
  {
    hide HeapOk, ScanOrder, LiveFrom;
    OrderNext(h, from);
    LiveNext(h, from, rid);
    if from.page < |h.chain| {
      OrderMembers(h, NextPlace(h, from), rid);
    }
  }

  /** Each of them once. */
  lemma {:induction false} OrderDistinct(h: Heap, from: Place)
    requires HeapOk(h)
    ensures Distinct(ScanOrder(h, from))
    decreases |h.chain| - from.page, SlotsLeft(h, from)
  {
    hide HeapOk, ScanOrder, LiveFrom;
    OrderNext(h, from);
    if from.page < |h.chain| {
      var next := NextPlace(h, from);
      OrderDistinct(h, next);
      if IsLive(h, from) {
        OrderMembers(h, next, RidOf(h, from));
        NotLiveLater(h, from, next);
      }
    }
  }

  lemma NotLiveLater(h: Heap, from: Place, next: Place)
    requires HeapOk(h) && IsLive(h, from) && Before(from, next)
    ensures !LiveFrom(h, next, RidOf(h, from))
  {
    forall p | IsLive(h, p) && !Before(p, next) ensures RidOf(h, p) != RidOf(h, from) {
      if RidOf(h, p) == RidOf(h, from) {
        RidInjective(h, p, from);
      }
    }
  }

  /** A scan from the start lists exactly the rows of the heap. */
  lemma OrderIsContents(h: Heap)
    requires HeapOk(h)
    ensures Distinct(ScanOrder(h, START)) && Members(ScanOrder(h, START)) == Contents(h).Keys
  {
    OrderDistinct(h, START);
    forall rid ensures rid in ScanOrder(h, START) <==> rid in Contents(h) {
      OrderMembers(h, START, rid);
      if LiveFrom(h, START, rid) {
        var p :| IsLive(h, p) && !Before(p, START) && RidOf(h, p) == rid;
        LiveInContents(h, p);
      }
      if rid in Contents(h) {
        var p := ContentsLive(h, rid);
        assert !Before(p, START);
      }
    }
  }

  /** A row of the heap. */
  predicate OnHeap(h: Heap, rid: Rid) {
    rid.pageId in h.tuples && rid.slot < |h.tuples[rid.pageId]| && rid.pageId in h.room
  }

  function TupleOn(h: Heap, rid: Rid): Bytes
    requires OnHeap(h, rid)
  {
    h.tuples[rid.pageId][rid.slot]
  }

  /** The rows of a scan are rows of the heap. */
  lemma RowOnHeap(h: Heap, rid: Rid)
    requires HeapOk(h) && rid in Contents(h)
    ensures OnHeap(h, rid) && TupleOn(h, rid) == Contents(h)[rid] != []
  {
  }

  /** A scan of `h0` has come to row `rid`, at place `at`, which is as it was. */
  ghost predicate Arrived(h0: Heap, h: Heap, from: Place, rid: Rid, done: set<Rid>, at: Place) {
    && IsLive(h, at) && IsLive(h0, at) && RidOf(h, at) == rid && RidOf(h0, at) == rid && !Before(at, from)
    && rid !in done && rid in Contents(h0) && Contents(h0)[rid] == TupleAt(h, at) == TupleAt(h0, at)
    && rid in Contents(h) && Contents(h)[rid] == Contents(h0)[rid]
    && DoneBefore(h0, Place(at.page, at.slot + 1), done + {rid}) && Ahead(h0, h, Place(at.page, at.slot + 1))
    && forall p :: IsLive(h0, p) && !Before(p, from) ==> !Before(p, at)
  }

  lemma ArriveAt(h0: Heap, h: Heap, from: Place, rid: Rid, done: set<Rid>) returns (at: Place)
    requires Scanning(h0, h, from, rid, done) && rid != END
    ensures Arrived(h0, h, from, rid, done, at)
    ensures var next := Place(at.page, at.slot + 1);
            && next.page <= |h0.chain| && SlotsLeft(h0, next) >= 0
            && (next.page > from.page || (next.page == from.page && SlotsLeft(h0, next) < SlotsLeft(h0, from)))
  {
    at := ScanAt(h0, h, from, rid, done);
  }

  /** A scan that has ended has no rows left. */
  lemma NothingLeft(h0: Heap, h: Heap, from: Place, done: set<Rid>)
    requires Scanning(h0, h, from, END, done)
    ensures ScanOrder(h0, from) == [] && done == Contents(h0).Keys
  {
    ScanEnds(h0, h, from, done);
    forall p | IsLive(h0, p) ensures Before(p, from) {
      LiveInContents(h0, p);
    }
    OrderEnds(h0, from);
  }

  // ---------- UPDATE ----------

  function NewRow(exprs: seq<Expr>, row: Row): Row {
    seq(|exprs|, i requires 0 <= i < |exprs| =>
      var v := Evaluate(exprs[i], row);
      if v.Some? then v.value else Null(INVALID))
  }

  function NewTuple(codec: Codec, exprs: seq<Expr>, t: Bytes): Bytes {
    codec.encode(NewRow(exprs, codec.decode(t)))
  }

  /** The contents when the affected rows among `done` have their new versions. */
  ghost function Updated(codec: Codec, condition: Option<Expr>, exprs: seq<Expr>, contents: map<Rid, Bytes>, done: set<Rid>): map<Rid, Bytes> {
    map rid | rid in contents ::
      if rid in AffectedAmong(codec, condition, contents, done) then NewTuple(codec, exprs, contents[rid]) else contents[rid]
  }

  lemma UpdatedNext(codec: Codec, condition: Option<Expr>, exprs: seq<Expr>, contents: map<Rid, Bytes>, done: set<Rid>, rid: Rid)
    requires rid !in done && rid in contents
    ensures Updated(codec, condition, exprs, contents, done + {rid}) ==
            if Affected(codec, condition, contents[rid]) then
              Updated(codec, condition, exprs, contents, done)[rid := NewTuple(codec, exprs, contents[rid])]
            else Updated(codec, condition, exprs, contents, done)
  {
    AffectedNext(codec, condition, contents, done, rid);
  }

  /** Updates one row, unless it is not affected or its page refuses the new version. */
  function UpdateOne(codec: Codec, condition: Option<Expr>, exprs: seq<Expr>, h: Heap, rid: Rid): Heap {
    if OnHeap(h, rid) && Affected(codec, condition, TupleOn(h, rid)) then
      var t := NewTuple(codec, exprs, TupleOn(h, rid));
      if HeapRefuses(h, rid.pageId, rid.slot, t) || |t| > h.room[rid.pageId] then h else Rewrite(h, rid.pageId, rid.slot, t)
    else h
  }

  /** The heap after an UPDATE that comes to the rows in the given order. */
  function UpdateAll(codec: Codec, condition: Option<Expr>, exprs: seq<Expr>, h: Heap, order: seq<Rid>): Heap
    decreases |order|
  {
    if order == [] then h else
      UpdateAll(codec, condition, exprs, UpdateOne(codec, condition, exprs, h, order[0]), order[1..])
  }

  /** The page of an affected row refuses the new version. */
  predicate RefusesRow(codec: Codec, condition: Option<Expr>, exprs: seq<Expr>, h: Heap, rid: Rid) {
    && OnHeap(h, rid) && Affected(codec, condition, TupleOn(h, rid))
    && HeapRefuses(h, rid.pageId, rid.slot, NewTuple(codec, exprs, TupleOn(h, rid)))
  }

  /** The page of an affected row refuses the new version or has room for all of it. */
  predicate FitsRow(codec: Codec, condition: Option<Expr>, exprs: seq<Expr>, h: Heap, rid: Rid) {
    OnHeap(h, rid) && Affected(codec, condition, TupleOn(h, rid)) ==>
      var t := NewTuple(codec, exprs, TupleOn(h, rid));
      HeapRefuses(h, rid.pageId, rid.slot, t) || |t| <= h.room[rid.pageId]
  }

  /** No update on the way is let through by the guard of its page without there being room for it. */
  predicate UpdateFits(codec: Codec, condition: Option<Expr>, exprs: seq<Expr>, h: Heap, order: seq<Rid>)
    decreases |order|
  {
    order != [] ==>
      && FitsRow(codec, condition, exprs, h, order[0])
      && UpdateFits(codec, condition, exprs, UpdateOne(codec, condition, exprs, h, order[0]), order[1..])
  }

  /** The affected rows whose new versions are refused. */
  function Refused(codec: Codec, condition: Option<Expr>, exprs: seq<Expr>, h: Heap, order: seq<Rid>): set<Rid>
    decreases |order|
  {
    if order == [] then {} else
      (if RefusesRow(codec, condition, exprs, h, order[0]) then {order[0]} else {})
      + Refused(codec, condition, exprs, UpdateOne(codec, condition, exprs, h, order[0]), order[1..])
  }

  /** The row is there, and its new version, if it gets one, is not empty. */
  ghost predicate RowChanges(codec: Codec, condition: Option<Expr>, exprs: seq<Expr>, contents: map<Rid, Bytes>, rid: Rid) {
    rid in contents && (Affected(codec, condition, contents[rid]) ==> NewTuple(codec, exprs, contents[rid]) != [])
  }

  lemma UpdateOneContents(codec: Codec, condition: Option<Expr>, exprs: seq<Expr>, h: Heap, rid: Rid)
    requires HeapOk(h) && RowChanges(codec, condition, exprs, Contents(h), rid) && FitsRow(codec, condition, exprs, h, rid)
    ensures HeapOk(UpdateOne(codec, condition, exprs, h, rid))
    ensures var t := Contents(h)[rid];
            && (RefusesRow(codec, condition, exprs, h, rid) ==> Affected(codec, condition, t))
            && Contents(UpdateOne(codec, condition, exprs, h, rid)) ==
               if Affected(codec, condition, t) && !RefusesRow(codec, condition, exprs, h, rid)
               then Contents(h)[rid := NewTuple(codec, exprs, t)] else Contents(h)
  {
    RowOnHeap(h, rid);
    var t := TupleOn(h, rid);
    if Affected(codec, condition, t) && !RefusesRow(codec, condition, exprs, h, rid) {
      RewriteContents(h, rid.pageId, rid.slot, NewTuple(codec, exprs, t));
    }
  }

  /** An UPDATE changes exactly the affected rows that are not refused. */
  lemma {:induction false} UpdateAllContents(codec: Codec, condition: Option<Expr>, exprs: seq<Expr>, h: Heap, order: seq<Rid>)
    requires HeapOk(h) && Distinct(order) && UpdateFits(codec, condition, exprs, h, order)
    requires forall rid :: rid in order ==> RowChanges(codec, condition, exprs, Contents(h), rid)
    ensures HeapOk(UpdateAll(codec, condition, exprs, h, order))
    ensures var refused := Refused(codec, condition, exprs, h, order);
            && refused <= AffectedAmong(codec, condition, Contents(h), Members(order))
            && Contents(UpdateAll(codec, condition, exprs, h, order)) ==
               Updated(codec, condition, exprs, Contents(h), Members(order) - refused)
    decreases |order|
  {
    hide HeapOk, Contents, FitsRow, UpdateOne, RefusesRow, NewTuple;
    if order != [] {
      var rid, rest, h' := order[0], order[1..], UpdateOne(codec, condition, exprs, h, order[0]);
      assert rid in order && Members(order) == {rid} + Members(rest) && rid !in Members(rest);
      UpdateOneContents(codec, condition, exprs, h, rid);
      forall r | r in rest ensures RowChanges(codec, condition, exprs, Contents(h'), r) {
        assert r in order && r != rid && RowChanges(codec, condition, exprs, Contents(h), r);
      }
      UpdateAllContents(codec, condition, exprs, h', rest);
      UpdatedRest(codec, condition, exprs, Contents(h), Contents(h'), rid, RefusesRow(codec, condition, exprs, h, rid),
                  Members(rest), Refused(codec, condition, exprs, h', rest));
    }
  }

  lemma UpdatedRest(codec: Codec, condition: Option<Expr>, exprs: seq<Expr>, m: map<Rid, Bytes>, m': map<Rid, Bytes>,
                    rid: Rid, refused: bool, rest: set<Rid>, refusedRest: set<Rid>)
    requires rid in m && rid !in rest && rest <= m.Keys && (refused ==> Affected(codec, condition, m[rid]))
    requires m' == if Affected(codec, condition, m[rid]) && !refused then m[rid := NewTuple(codec, exprs, m[rid])] else m
    requires refusedRest <= AffectedAmong(codec, condition, m', rest)
    ensures var all, allRefused := {rid} + rest, (if refused then {rid} else {}) + refusedRest;
            && allRefused <= AffectedAmong(codec, condition, m, all)
            && Updated(codec, condition, exprs, m', rest - refusedRest) == Updated(codec, condition, exprs, m, all - allRefused)
  {
  }

  /** The index was moved for every affected row: it is exact exactly when the refused ones keep their keys. */
  lemma RefusedExactly(codec: Codec, condition: Option<Expr>, exprs: seq<Expr>, m: map<Rid, Bytes>, refused: set<Rid>,
                       entries: EntryMap, attr: nat)
    requires refused <= AffectedAmong(codec, condition, m, m.Keys)
    requires Agrees(entries, Keys(Updated(codec, condition, exprs, m, m.Keys), codec, attr))
    ensures Agrees(entries, Keys(Updated(codec, condition, exprs, m, m.Keys - refused), codec, attr)) <==>
            forall rid :: rid in refused ==> KeepsKey(codec, exprs, m, attr, rid)
  {
    var moved, kept := Updated(codec, condition, exprs, m, m.Keys), Updated(codec, condition, exprs, m, m.Keys - refused);
    if Agrees(entries, Keys(kept, codec, attr)) {
      AgreesOnce(entries, Keys(moved, codec, attr), Keys(kept, codec, attr));
      forall rid | rid in refused ensures KeepsKey(codec, exprs, m, attr, rid) {
        assert Keys(moved, codec, attr)[rid] == Keys(kept, codec, attr)[rid];
      }
    }
    if forall rid :: rid in refused ==> KeepsKey(codec, exprs, m, attr, rid) {
      assert Keys(moved, codec, attr) == Keys(kept, codec, attr);
    }
  }

  /** The new version of a row has the key of the old one. */
  predicate KeepsKey(codec: Codec, exprs: seq<Expr>, m: map<Rid, Bytes>, attr: nat, rid: Rid) {
    rid in m ==> KeyOf(codec.decode(NewTuple(codec, exprs, m[rid])), attr) == KeyOf(codec.decode(m[rid]), attr)
  }

  // ---------- Room for an UPDATE ----------

  /** The bytes that new versions of the affected tuples from slot `k` on take on their page. */
  ghost function Need(codec: Codec, condition: Option<Expr>, exprs: seq<Expr>, tuples: seq<Bytes>, k: nat): nat
    decreases |tuples| - k
  {
    if k >= |tuples| then 0 else
      Need(codec, condition, exprs, tuples, k + 1) +
      if tuples[k] != [] && Affected(codec, condition, tuples[k]) then |NewTuple(codec, exprs, tuples[k])| else 0
  }

  lemma {:induction false} NeedShrinks(codec: Codec, condition: Option<Expr>, exprs: seq<Expr>, tuples: seq<Bytes>, k: nat, m: nat)
    requires k <= m
    ensures Need(codec, condition, exprs, tuples, m) <= Need(codec, condition, exprs, tuples, k)
    decreases m - k
  {
    if k < m && k < |tuples| {
      NeedShrinks(codec, condition, exprs, tuples, k + 1, m);
    }
  }

  /** From place `from` on, every page of `h` has room for the new versions of its tuples in `h0`. */
  ghost predicate RoomFor(codec: Codec, condition: Option<Expr>, exprs: seq<Expr>, h0: Heap, h: Heap, from: Place) {
    forall i {:trigger h0.chain[i]} :: from.page <= i < |h0.chain| ==>
      && h0.chain[i] in h0.tuples && h0.chain[i] in h.room
      && Need(codec, condition, exprs, h0.tuples[h0.chain[i]], if i == from.page then from.slot else 0) <= h.room[h0.chain[i]]
  }

  /** Taking what the visited tuple needs leaves room for the tuples after it. */
  lemma RoomForNext(codec: Codec, condition: Option<Expr>, exprs: seq<Expr>, h0: Heap, h: Heap, h': Heap, from: Place, at: Place)
    requires HeapOk(h0) && RoomFor(codec, condition, exprs, h0, h, from) && IsLive(h0, at) && !Before(at, from)
    requires h'.room.Keys == h.room.Keys
    requires forall id :: id in h.room && id != h0.chain[at.page] ==> h'.room[id] == h.room[id]
    requires h0.chain[at.page] in h.room
    requires h'.room[h0.chain[at.page]] ==
             h.room[h0.chain[at.page]] - if Affected(codec, condition, TupleAt(h0, at)) then |NewTuple(codec, exprs, TupleAt(h0, at))| else 0
    ensures RoomFor(codec, condition, exprs, h0, h', Place(at.page, at.slot + 1))
  {
    var tuples := h0.tuples[h0.chain[at.page]];
    NeedShrinks(codec, condition, exprs, tuples, if at.page == from.page then from.slot else 0, at.slot);
  }

  /** There is room for the new version of the tuple that the scan has come to. */
  lemma RoomForThis(codec: Codec, condition: Option<Expr>, exprs: seq<Expr>, h0: Heap, h: Heap, from: Place, at: Place)
    requires HeapOk(h0) && RoomFor(codec, condition, exprs, h0, h, from) && IsLive(h0, at) && !Before(at, from)
    requires Affected(codec, condition, TupleAt(h0, at))
    ensures h0.chain[at.page] in h.room && |NewTuple(codec, exprs, TupleAt(h0, at))| <= h.room[h0.chain[at.page]]
  {
    var tuples := h0.tuples[h0.chain[at.page]];
    NeedShrinks(codec, condition, exprs, tuples, if at.page == from.page then from.slot else 0, at.slot);
  }

  /** With room for all new versions nothing is refused. */
  lemma {:induction false} NothingRefused(codec: Codec, condition: Option<Expr>, exprs: seq<Expr>, h0: Heap, h: Heap, from: Place)
    requires HeapOk(h0) && HeapOk(h) && SameShape(h0, h) && Ahead(h0, h, from) && RoomFor(codec, condition, exprs, h0, h, from)
    ensures UpdateFits(codec, condition, exprs, h, ScanOrder(h0, from))
    ensures Refused(codec, condition, exprs, h, ScanOrder(h0, from)) == {}
    decreases |h0.chain| - from.page, SlotsLeft(h0, from)
  {
    hide Need, NewTuple;
    if from.page < |h0.chain| {
      if !IsSlot(h0, from) {
        NothingRefused(codec, condition, exprs, h0, h, Place(from.page + 1, 0));
      } else if !IsLive(h0, from) {
        NeedShrinks(codec, condition, exprs, h0.tuples[h0.chain[from.page]], from.slot, from.slot + 1);
        NothingRefused(codec, condition, exprs, h0, h, Place(from.page, from.slot + 1));
        assert ScanOrder(h0, from) == ScanOrder(h0, Place(from.page, from.slot + 1));
      } else {
        var rid, h' := RidOf(h0, from), UpdateOne(codec, condition, exprs, h, RidOf(h0, from));
        RowHasRoom(codec, condition, exprs, h0, h, from);
        NothingRefused(codec, condition, exprs, h0, h', Place(from.page, from.slot + 1));
        assert ScanOrder(h0, from)[0] == rid && ScanOrder(h0, from)[1..] == ScanOrder(h0, Place(from.page, from.slot + 1));
      }
    }
  }

  lemma RowHasRoom(codec: Codec, condition: Option<Expr>, exprs: seq<Expr>, h0: Heap, h: Heap, at: Place)
    requires HeapOk(h0) && HeapOk(h) && SameShape(h0, h) && Ahead(h0, h, at) && RoomFor(codec, condition, exprs, h0, h, at)
    requires IsLive(h0, at)
    ensures FitsRow(codec, condition, exprs, h, RidOf(h0, at)) && !RefusesRow(codec, condition, exprs, h, RidOf(h0, at))
    ensures var h', next := UpdateOne(codec, condition, exprs, h, RidOf(h0, at)), Place(at.page, at.slot + 1);
            HeapOk(h') && SameShape(h0, h') && Ahead(h0, h', next) && RoomFor(codec, condition, exprs, h0, h', next)
  {
    hide Need, NewTuple, Contents, RoomFor, Affected;
    var id, t := h0.chain[at.page], NewTuple(codec, exprs, TupleAt(h0, at));
    assert TupleAt(h, at) == TupleAt(h0, at);
    if Affected(codec, condition, TupleAt(h0, at)) {
      RoomForThis(codec, condition, exprs, h0, h, at, at);
      OneSlotWritten(h, at, t, h.room[id] - |t|);
    }
    RoomForNext(codec, condition, exprs, h0, h, UpdateOne(codec, condition, exprs, h, RidOf(h0, at)), at, at);
  }

  // ---------- DELETE ----------

  /** The contents when the affected rows among `done` are gone. */
  ghost function Remaining(codec: Codec, condition: Option<Expr>, contents: map<Rid, Bytes>, done: set<Rid>): map<Rid, Bytes> {
    contents - AffectedAmong(codec, condition, contents, done)
  }

  lemma RemainingNext(codec: Codec, condition: Option<Expr>, contents: map<Rid, Bytes>, done: set<Rid>, rid: Rid)
    requires rid !in done && rid in contents
    ensures Remaining(codec, condition, contents, done + {rid}) ==
            if Affected(codec, condition, contents[rid]) then Remaining(codec, condition, contents, done) - {rid}
            else Remaining(codec, condition, contents, done)
  {
    AffectedNext(codec, condition, contents, done, rid);
  }

  function DeleteOne(codec: Codec, condition: Option<Expr>, h: Heap, rid: Rid): Heap {
    if OnHeap(h, rid) && Affected(codec, condition, TupleOn(h, rid)) then Write(h, rid.pageId, rid.slot, []) else h
  }

  /** The heap after a DELETE that comes to the rows in the given order. */
  function DeleteAll(codec: Codec, condition: Option<Expr>, h: Heap, order: seq<Rid>): Heap
    decreases |order|
  {
    if order == [] then h else DeleteAll(codec, condition, DeleteOne(codec, condition, h, order[0]), order[1..])
  }

  lemma DeleteOneContents(codec: Codec, condition: Option<Expr>, h: Heap, rid: Rid)
    requires HeapOk(h) && rid in Contents(h)
    ensures HeapOk(DeleteOne(codec, condition, h, rid))
    ensures Contents(DeleteOne(codec, condition, h, rid)) ==
            if Affected(codec, condition, Contents(h)[rid]) then Contents(h) - {rid} else Contents(h)
  {
    RowOnHeap(h, rid);
    WriteContents(h, rid.pageId, rid.slot, []);
  }

  /** A DELETE removes exactly the affected rows. */
  lemma {:induction false} DeleteAllContents(codec: Codec, condition: Option<Expr>, h: Heap, order: seq<Rid>)
    requires HeapOk(h) && Distinct(order) && forall rid :: rid in order ==> rid in Contents(h)
    ensures HeapOk(DeleteAll(codec, condition, h, order))
    ensures Contents(DeleteAll(codec, condition, h, order)) == Remaining(codec, condition, Contents(h), Members(order))
    decreases |order|
  {
    hide HeapOk, Contents, DeleteOne;
    if order != [] {
      var rid, rest, h' := order[0], order[1..], DeleteOne(codec, condition, h, order[0]);
      assert rid in order && Members(order) == {rid} + Members(rest) && rid !in Members(rest);
      DeleteOneContents(codec, condition, h, rid);
      forall r | r in rest ensures r in Contents(h') {
        assert r in order && r != rid;
      }
      DeleteAllContents(codec, condition, h', rest);
    }
  }

  // ---------- INSERT ----------

  /** The heap of a table and the next page id. */
  datatype Storage = Storage(heap: Heap, next: PageId)

  /** First-fit insertion of one tuple, which may take a new page. */
  ghost function InsertOne(s: Storage, t: Bytes): Storage {
    if !HeapOk(s.heap) then s else
      Storage(HeapInserted(s.heap, t, s.next), s.next + if FirstFit(s.heap, t, 0) < |s.heap.chain| then 0 else 1)
  }

  ghost function InsertAll(codec: Codec, s: Storage, rows: seq<Row>): Storage
    decreases |rows|
  {
    if rows == [] then s else InsertAll(codec, InsertOne(s, codec.encode(rows[0])), rows[1..])
  }

  /** The rows that a page can hold. */
  function Fitting(codec: Codec, rows: seq<Row>): nat {
    if rows == [] then 0 else
      Fitting(codec, rows[..|rows| - 1]) + if Fits(codec.encode(rows[|rows| - 1]), EMPTY_ROOM) then 1 else 0
  }

  // ---------- Statements ----------

  datatype Statement =
    | InsertRows(rows: seq<Row>)
    | UpdateRows(condition: Option<Expr>, exprs: seq<Expr>)
    | DeleteRows(condition: Option<Expr>)

  ghost function AfterStatement(codec: Codec, s: Storage, statement: Statement): Storage {
    match statement
    case InsertRows(rows) => InsertAll(codec, s, rows)
    case UpdateRows(condition, exprs) => s.(heap := UpdateAll(codec, condition, exprs, s.heap, ScanOrder(s.heap, START)))
    case DeleteRows(condition) => s.(heap := DeleteAll(codec, condition, s.heap, ScanOrder(s.heap, START)))
  }

  /** The number of rows that a statement reports. */
  ghost function CountOf(codec: Codec, contents: map<Rid, Bytes>, statement: Statement): nat {
    match statement
    case InsertRows(rows) => Fitting(codec, rows)
    case UpdateRows(condition, _) => |AffectedAmong(codec, condition, contents, contents.Keys)|
    case DeleteRows(condition) => |AffectedAmong(codec, condition, contents, contents.Keys)|
  }

  ghost function AfterStatements(codec: Codec, s: Storage, statements: seq<Statement>): Storage {
    if statements == [] then s else
      AfterStatement(codec, AfterStatements(codec, s, statements[..|statements| - 1]), statements[|statements| - 1])
  }
}
