/** Table heaps: a chain of slotted pages, with first-fit insertion and an iterator over the live slots. */
module TableHeaps {
  import opened Types
  import opened TablePages
  import opened HeapOrder
  import HeapScans

  const PAGE_ID_LIMIT: int := 0x7FFF_FFFF

  class TableHeap {
    var pages: map<PageId, TablePage>     // the pages of the buffer pool that belong to the heap
    var nextPageId: PageId
    const firstPageId: PageId
    ghost var heap: Heap
    ghost var Repr: set<object>

    ghost predicate PageSound(id: PageId)
      reads this`pages, this`Repr, Repr
      requires id in pages
    {
      pages[id] in Repr && pages[id].data in Repr && pages[id].Valid()
    }

    /** Page `id` has the tuples and the free space that `h` has for it. */
    ghost predicate PageAgrees(h: Heap, id: PageId)
      reads this`pages, this`Repr, Repr
      requires id in pages
    {
      && PageSound(id) && id in h.tuples && id in h.room
      && pages[id].View() == h.tuples[id] && Remaining(pages[id].data[..]) == h.room[id]
    }

    /** Page `id` points at page `next`. */
    ghost predicate LinkAgrees(id: PageId, next: PageId)
      reads this`pages, this`Repr, Repr
      requires id in pages
    {
      PageSound(id) && pages[id].NextPageId() == next
    }

    ghost predicate Apart(i: PageId, j: PageId)
      reads this`pages
      requires i in pages && j in pages
    {
      pages[i].data != pages[j].data
    }

    /**
     The pages are those of `h`, but for the contents of the pages `ids`; they are linked in
     chain order, and the last one points at `tail`.
     */
    ghost predicate Mirrors(h: Heap, ids: set<PageId>, tail: PageId)
      reads this`pages, this`nextPageId, this`Repr, Repr
    {
      && this !in Repr
      && HeapOk(h) && h.chain[0] == firstPageId
      && pages.Keys == h.tuples.Keys == h.room.Keys
      && nextPageId <= PAGE_ID_LIMIT
      && (forall id :: id in pages ==> 0 <= id < nextPageId)
      && (forall id {:trigger PageAgrees(h, id)} :: id in pages && id !in ids ==> PageAgrees(h, id))
      && (forall i {:trigger NextOf(h, i, tail)} :: 0 <= i < |h.chain| ==> LinkAgrees(h.chain[i], NextOf(h, i, tail)))
      && (forall i, j {:trigger Apart(i, j)} :: i in pages && j in pages && i != j ==> Apart(i, j))
    }

    ghost predicate Valid()
      reads this`pages, this`nextPageId, this`Repr, this`heap, Repr
    {
      Mirrors(heap, {}, INVALID_PAGE_ID)
    }

    /** The contents of page `id` are all that was missing. */
    lemma Recorded(h: Heap, id: PageId, tuples: seq<Bytes>, room: nat)
      requires Mirrors(h, {id}, INVALID_PAGE_ID) && id in pages && PageSound(id)
      requires pages[id].View() == tuples && Remaining(pages[id].data[..]) == room
      ensures Mirrors(Recording(h, id, tuples, room), {}, INVALID_PAGE_ID)
    {
      hide HeapOk, Recording, NextOf, PageOk, TablePage.View, TablePage.NextPageId, Remaining;
      RecordingOk(h, id, tuples, room);
      var h' := Recording(h, id, tuples, room);
      forall i | i in pages ensures PageAgrees(h', i) {
        assert i != id ==> PageAgrees(h, i);
      }
      forall i | 0 <= i < |h.chain| ensures h'.chain[i] in pages && LinkAgrees(h'.chain[i], NextOf(h', i, INVALID_PAGE_ID)) {
        ChainMember(h, i);
        assert LinkAgrees(h.chain[i], NextOf(h, i, INVALID_PAGE_ID));
      }
      assert h'.chain[0] == firstPageId;
    }

    constructor ()
      ensures Valid() && fresh(Repr)
      ensures heap == Heap([0], map[0 := []], map[0 := EMPTY_ROOM]) && nextPageId == 1
    {
      var page := new TablePage(INVALID_PAGE_ID);
      firstPageId, nextPageId, pages := 0, 1, map[0 := page];
      heap := Heap([0], map[0 := []], map[0 := PAGE_SIZE - HEADER_SIZE]);
      Repr := {page, page.data};
      new;
      assert PageAgrees(heap, 0);
      assert LinkAgrees(0, INVALID_PAGE_ID);
    }

    method GetTuple(rid: Rid) returns (t: seq<byte>)
      requires Valid() && rid.pageId in heap.tuples && rid.slot < |heap.tuples[rid.pageId]|
      ensures t == heap.tuples[rid.pageId][rid.slot]
    {
      assert PageAgrees(heap, rid.pageId);
      t := pages[rid.pageId].GetTuple(rid.slot);
    }

    /** Page `id` now has the given tuples and free space, and that is all that has changed. */
    ghost predicate OnlyWritten(id: PageId, tuples: seq<Bytes>, room: nat)
      reads this`pages, this`nextPageId, this`Repr, this`heap, Repr
    {
      && Mirrors(heap, {id}, INVALID_PAGE_ID) && id in pages && PageSound(id)
      && pages[id].View() == tuples && Remaining(pages[id].data[..]) == room
    }

    method DeleteOnPage(id: PageId, slot: nat)
      requires Valid() && id in heap.tuples && slot < |heap.tuples[id]|
      modifies Repr
      ensures OnlyWritten(id, heap.tuples[id][slot := []], heap.room[id])
    {
      hide NextOf, PageOk, TablePage.View, TablePage.NextPageId, Remaining;
      assert PageAgrees(heap, id);
      pages[id].DeleteTuple(slot);
      forall i | i in pages && i != id ensures PageAgrees(heap, i) {
        assert old(PageAgrees(heap, i)) && Apart(i, id);
      }
      forall i | 0 <= i < |heap.chain| ensures LinkAgrees(heap.chain[i], NextOf(heap, i, INVALID_PAGE_ID)) {
        assert old(LinkAgrees(heap.chain[i], NextOf(heap, i, INVALID_PAGE_ID))) && (heap.chain[i] != id ==> Apart(heap.chain[i], id));
      }
    }

    method UpdateOnPage(id: PageId, slot: nat, t: Bytes) returns (ok: bool)
      requires Valid() && id in heap.tuples && slot < |heap.tuples[id]|
      requires HeapRefuses(heap, id, slot, t) || |t| <= heap.room[id]
      modifies Repr
      ensures ok <==> !HeapRefuses(heap, id, slot, t)
      ensures if ok then OnlyWritten(id, heap.tuples[id][slot := t], heap.room[id] - |t|)
              else OnlyWritten(id, heap.tuples[id], heap.room[id])
    {
      hide NextOf, PageOk, TablePage.View, TablePage.NextPageId, Remaining;
      assert PageAgrees(heap, id);
      ok := pages[id].UpdateInRoom(slot, t);
      forall i | i in pages && i != id ensures PageAgrees(heap, i) {
        assert old(PageAgrees(heap, i)) && Apart(i, id);
      }
      forall i | 0 <= i < |heap.chain| ensures LinkAgrees(heap.chain[i], NextOf(heap, i, INVALID_PAGE_ID)) {
        assert old(LinkAgrees(heap.chain[i], NextOf(heap, i, INVALID_PAGE_ID))) && (heap.chain[i] != id ==> Apart(heap.chain[i], id));
      }
    }

    method InsertOnPage(id: PageId, t: Bytes) returns (slot: Option<nat>)
      requires Valid() && id in heap.tuples
      modifies Repr
      ensures slot.Some? <==> |t| + SLOT_SIZE <= heap.room[id]
      ensures slot.Some? ==> slot.value == |heap.tuples[id]|
      ensures if slot.Some? then OnlyWritten(id, heap.tuples[id] + [t], heap.room[id] - |t| - SLOT_SIZE)
              else OnlyWritten(id, heap.tuples[id], heap.room[id])
    {
      hide NextOf, PageOk, TablePage.NextPageId, Remaining;
      assert PageAgrees(heap, id);
      slot := pages[id].InsertTuple(t);
      forall i | i in pages && i != id ensures PageAgrees(heap, i) {
        assert old(PageAgrees(heap, i)) && Apart(i, id);
      }
      forall i | 0 <= i < |heap.chain| ensures LinkAgrees(heap.chain[i], NextOf(heap, i, INVALID_PAGE_ID)) {
        assert old(LinkAgrees(heap.chain[i], NextOf(heap, i, INVALID_PAGE_ID))) && (heap.chain[i] != id ==> Apart(heap.chain[i], id));
      }
    }

    /** Marks the slot deleted. */
    method DeleteTuple(rid: Rid)
      requires Valid() && rid.pageId in heap.tuples && rid.slot < |heap.tuples[rid.pageId]|
      modifies this`heap, Repr
      ensures Valid() && heap == Write(old(heap), rid.pageId, rid.slot, [])
    {
      DeleteOnPage(rid.pageId, rid.slot);
      Record(rid.pageId, heap.tuples[rid.pageId][rid.slot := []], heap.room[rid.pageId]);
    }

    ghost method Record(id: PageId, tuples: seq<Bytes>, room: nat)
      requires OnlyWritten(id, tuples, room)
      modifies this`heap
      ensures Valid() && heap == Recording(old(heap), id, tuples, room)
    {
      hide Recording, HeapOk, PageOk, TablePage.View, Remaining;
      Recorded(heap, id, tuples, room);
      heap := Recording(heap, id, tuples, room);
    }

    /** Overwrites a tuple; refuses when it grows by more than the free space of its page. */
    method UpdateTuple(rid: Rid, t: seq<byte>) returns (ok: bool)
      requires Valid() && rid.pageId in heap.tuples && rid.slot < |heap.tuples[rid.pageId]|
      requires HeapRefuses(heap, rid.pageId, rid.slot, t) || |t| <= heap.room[rid.pageId]
      modifies this`heap, Repr
      ensures Valid() && (ok <==> !HeapRefuses(old(heap), rid.pageId, rid.slot, t))
      ensures heap == if ok then Rewrite(old(heap), rid.pageId, rid.slot, t) else old(heap)
    {
      hide TablePage.Valid, TablePage.View, TablePage.NextPageId, Remaining, NextOf;
      RoomFacts();
      ok := UpdateOnPage(rid.pageId, rid.slot, t);
      if ok {
        Record(rid.pageId, heap.tuples[rid.pageId][rid.slot := t], heap.room[rid.pageId] - |t|);
      } else {
        Record(rid.pageId, heap.tuples[rid.pageId], heap.room[rid.pageId]);
      }
    }

    /** Makes the last page of the chain point at page `id`. */
    method PointTo(last: PageId, id: PageId)
      requires Valid() && last == heap.chain[|heap.chain| - 1] && 0 <= id < 0x8000_0000
      modifies Repr
      ensures Mirrors(heap, {}, id)
    {
      hide PageOk, TablePage.View, TablePage.NextPageId, Remaining;
      assert PageAgrees(heap, last);
      pages[last].SetNextPageId(id);
      forall i | i in pages ensures PageAgrees(heap, i) {
        assert old(PageAgrees(heap, i)) && (i != last ==> Apart(i, last));
      }
      forall i | 0 <= i < |heap.chain| ensures LinkAgrees(heap.chain[i], NextOf(heap, i, id)) {
        assert old(LinkAgrees(heap.chain[i], NextOf(heap, i, INVALID_PAGE_ID)));
        assert heap.chain[i] != last ==> Apart(heap.chain[i], last);
      }
    }

    /** The pages are those of `h` and an empty page `id`, which the last page of the chain points at. */
    ghost predicate Extended(h: Heap, id: PageId)
      reads this`pages, this`nextPageId, this`Repr, Repr
    {
      && this !in Repr && HeapOk(h) && h.chain[0] == firstPageId && nextPageId <= PAGE_ID_LIMIT
      && id != INVALID_PAGE_ID && id !in h.tuples && h.tuples.Keys == h.room.Keys && pages.Keys == h.tuples.Keys + {id}
      && (forall i :: i in pages ==> 0 <= i < nextPageId)
      && (forall i {:trigger PageAgrees(h, i)} :: i in pages && i != id ==> PageAgrees(h, i))
      && (forall i {:trigger NextOf(h, i, id)} :: 0 <= i < |h.chain| ==> LinkAgrees(h.chain[i], NextOf(h, i, id)))
      && EmptyLast(id)
      && (forall i, j {:trigger Apart(i, j)} :: i in pages && j in pages && i != j ==> Apart(i, j))
    }

    ghost predicate EmptyLast(id: PageId)
      reads this`pages, this`Repr, Repr
      requires id in pages
    {
      LinkAgrees(id, INVALID_PAGE_ID) && pages[id].View() == [] && Remaining(pages[id].data[..]) == EMPTY_ROOM
    }

    lemma ExtendedMirrors(h: Heap, id: PageId)
      requires Extended(h, id)
      ensures Mirrors(Append(h, id), {}, INVALID_PAGE_ID)
    {
      hide TablePage.Valid, TablePage.View, TablePage.NextPageId, Remaining;
      var h' := Append(h, id);
      AppendOk(h, id);
      forall i | i in pages ensures PageAgrees(h', i) {
        assert i != id ==> PageAgrees(h, i);
      }
      forall i | 0 <= i < |h'.chain| ensures LinkAgrees(h'.chain[i], NextOf(h', i, INVALID_PAGE_ID)) {
        assert i < |h.chain| ==> LinkAgrees(h.chain[i], NextOf(h, i, id));
      }
    }

    /** Takes an empty page, which the last page of the chain already points at, into the heap. */
    method Enter(id: PageId, page: TablePage)
      requires Mirrors(heap, {}, id) && id == nextPageId < PAGE_ID_LIMIT && 0 <= id
      requires page.Valid() && page.View() == [] && Remaining(page.data[..]) == EMPTY_ROOM && page.NextPageId() == INVALID_PAGE_ID
      requires page !in Repr && page.data !in Repr && this !in {page as object, page.data}
      modifies this`pages, this`nextPageId, this`Repr
      ensures Extended(heap, id) && nextPageId == id + 1 && Repr == old(Repr) + {page, page.data}
    {
      hide TablePage.Valid, TablePage.View, TablePage.NextPageId, Remaining, HeapOk, NextOf;
      forall i | i in pages ensures pages[i].data != page.data {
        assert PageAgrees(heap, i);
      }
      pages, nextPageId := pages[id := page], id + 1;
      Repr := Repr + {page, page.data};
      forall i | i in pages && i != id ensures PageAgrees(heap, i) {
        assert old(PageAgrees(heap, i));
      }
      forall i | 0 <= i < |heap.chain| ensures heap.chain[i] in pages && LinkAgrees(heap.chain[i], NextOf(heap, i, id)) {
        ChainMember(heap, i);
        assert old(LinkAgrees(heap.chain[i], NextOf(heap, i, id)));
      }
      forall i, j | i in pages && j in pages && i != j ensures Apart(i, j) {
        assert i != id && j != id ==> old(Apart(i, j));
      }
    }

    method Adopt(id: PageId, page: TablePage)
      requires Mirrors(heap, {}, id) && id == nextPageId < PAGE_ID_LIMIT && 0 <= id
      requires page.Valid() && page.View() == [] && Remaining(page.data[..]) == EMPTY_ROOM && page.NextPageId() == INVALID_PAGE_ID
      requires page !in Repr && page.data !in Repr && this !in {page as object, page.data}
      modifies this
      ensures Valid() && nextPageId == id + 1 && heap == Append(old(heap), id) && Repr == old(Repr) + {page, page.data}
    {
      hide Extended, TablePage.Valid, TablePage.View, TablePage.NextPageId, Remaining;
      Enter(id, page);
      ExtendedMirrors(heap, id);
      heap := Append(heap, id);
    }

    /** Adds an empty page to the end of the chain. */
    method AppendPage(last: PageId) returns (id: PageId)
      requires Valid() && nextPageId < PAGE_ID_LIMIT && last == heap.chain[|heap.chain| - 1]
      modifies this, Repr
      ensures Valid() && fresh(Repr - old(Repr)) && id == old(nextPageId) && nextPageId == id + 1
      ensures heap == Append(old(heap), id)
    {
      hide TablePage.Valid, TablePage.View, TablePage.NextPageId, Remaining;
      RoomFacts();
      id := nextPageId;
      var page := new TablePage(INVALID_PAGE_ID);
      PointTo(last, id);
      Adopt(id, page);
    }

    /** Puts the tuple on the first page of the chain with room for it, or on a new page. */
    method InsertTuple(t: Bytes) returns (rid: Option<Rid>)
      requires Valid() && nextPageId < PAGE_ID_LIMIT
      modifies this, Repr
      ensures Valid() && fresh(Repr - old(Repr))
      ensures nextPageId == old(nextPageId) + if FirstFit(old(heap), t, 0) < |old(heap).chain| then 0 else 1
      ensures heap == HeapInserted(old(heap), t, old(nextPageId)) && rid == InsertedRid(old(heap), t, old(nextPageId))
    {
      hide FirstFit, Mirrors, HeapOk;
      StartsThere();
      RoomFacts();
      ChainMember(heap, 0);
      var id := firstPageId;
      ghost var i := 0;
      while id != INVALID_PAGE_ID
        invariant Valid() && Repr == old(Repr) && heap == old(heap) && nextPageId == old(nextPageId)
        invariant 0 <= i < |heap.chain| && id == heap.chain[i] && id != INVALID_PAGE_ID && FirstFit(heap, t, 0) == FirstFit(heap, t, i)
        decreases |heap.chain| - i
      {
        var last := id;
        FirstFitNext(heap, t, i);
        rid, id := InsertOrSkip(last, i, t);
        if rid.Some? {
          return;
        }
        if id == INVALID_PAGE_ID {
          rid := InsertOnNewPage(last, t);
          return;
        }
        i := i + 1;
      }
    }

    lemma StartsThere()
      requires Valid()
      ensures heap.chain != [] && firstPageId == heap.chain[0]
    {
    }

    /** The next page id is unused, and no page has more room than an empty one. */
    lemma RoomFacts()
      requires Valid()
      ensures HeapOk(heap) && this !in Repr && nextPageId !in heap.tuples && nextPageId >= 0 && heap.tuples.Keys == heap.room.Keys
      ensures forall i :: 0 <= i < |heap.chain| ==> heap.room[heap.chain[i]] <= EMPTY_ROOM
    {
      assert heap.chain[0] in pages;
      forall i | 0 <= i < |heap.chain| ensures heap.room[heap.chain[i]] <= EMPTY_ROOM {
        assert PageAgrees(heap, heap.chain[i]);
      }
    }

    /** Inserts on page `id` if there is room, and otherwise yields the next page. */
    method InsertOrSkip(id: PageId, ghost i: nat, t: Bytes) returns (rid: Option<Rid>, next: PageId)
      requires Valid() && i < |heap.chain| && id == heap.chain[i]
      modifies this`heap, Repr
      ensures Valid() && (rid.Some? <==> Fits(t, old(heap).room[id]))
      ensures rid.Some? ==> rid.value == Rid(id, |old(heap).tuples[id]|) && heap == InsertOn(old(heap), id, t)
      ensures rid.None? ==> heap == old(heap) && next == NextOf(heap, i, INVALID_PAGE_ID)
    {
      hide NextOf, PageOk, TablePage.View, TablePage.NextPageId, Remaining;
      var slot := InsertOnPage(id, t);
      assert LinkAgrees(heap.chain[i], NextOf(heap, i, INVALID_PAGE_ID));
      next := pages[id].NextPageId();
      if slot.Some? {
        Record(id, heap.tuples[id] + [t], heap.room[id] - |t| - SLOT_SIZE);
        return Some(Rid(id, slot.value)), next;
      }
      Record(id, heap.tuples[id], heap.room[id]);
      assert heap == old(heap);
      return None, next;
    }

    /** Adds a page and inserts there; a tuple that does not even fit an empty page is refused. */
    method InsertOnNewPage(last: PageId, t: Bytes) returns (rid: Option<Rid>)
      requires Valid() && nextPageId < PAGE_ID_LIMIT && last == heap.chain[|heap.chain| - 1]
      modifies this, Repr
      ensures Valid() && fresh(Repr - old(Repr)) && nextPageId == old(nextPageId) + 1
      ensures heap == (if Fits(t, EMPTY_ROOM) then InsertOn(Append(old(heap), old(nextPageId)), old(nextPageId), t)
                       else Append(old(heap), old(nextPageId)))
      ensures rid == if Fits(t, EMPTY_ROOM) then Some(Rid(old(nextPageId), 0)) else None
    {
      var id := AppendPage(last);
      var next;
      rid, next := InsertOrSkip(id, |heap.chain| - 1, t);
    }

    // ---------- Scanning ----------

    /** The first live slot of a page from `slot` on; its number of slots when there is none. */
    method NextOnPage(id: PageId, ghost i: nat, slot: nat) returns (found: nat, next: PageId)
      requires Valid() && i < |heap.chain| && id == heap.chain[i] && slot <= |heap.tuples[id]|
      ensures slot <= found <= |heap.tuples[id]|
      ensures forall k :: slot <= k < found ==> heap.tuples[id][k] == []
      ensures found < |heap.tuples[id]| ==> heap.tuples[id][found] != []
      ensures next == NextOf(heap, i, INVALID_PAGE_ID)
    {
      hide NextOf, TablePage.NextPageId, Remaining;
      assert PageAgrees(heap, id) && LinkAgrees(heap.chain[i], NextOf(heap, i, INVALID_PAGE_ID));
      var count := pages[id].GetNumTuples();
      next := pages[id].NextPageId();
      found := slot;
      while found < count
        invariant slot <= found <= count
        invariant forall k :: slot <= k < found ==> heap.tuples[id][k] == []
      {
        var size := pages[id].GetTupleSize(found);
        if size > 0 {
          return;
        }
        found := found + 1;
      }
    }

    /** The first live slot from slot `slot` of page `id0` on, along the chain. */
    method FindFrom(id0: PageId, ghost i0: nat, slot0: nat) returns (rid: Rid)
      requires Valid() && i0 < |heap.chain| && id0 == heap.chain[i0] && slot0 <= |heap.tuples[id0]|
      ensures FirstFrom(heap, Place(i0, slot0), rid)
    {
      var id: PageId, slot: nat := id0, slot0;
      ghost var i := i0;
      while id != INVALID_PAGE_ID
        invariant i0 <= i <= |heap.chain| && id == (if i < |heap.chain| then heap.chain[i] else INVALID_PAGE_ID)
        invariant i < |heap.chain| ==> slot <= |heap.tuples[id]|
        invariant forall p :: IsLive(heap, p) && !Before(p, Place(i0, slot0)) ==> !Before(p, Place(i, slot))
        invariant !Before(Place(i, slot), Place(i0, slot0))
        decreases |heap.chain| - i
      {
        var found, next := NextOnPage(id, i, slot);
        var count := CountOn(id);
        if found < count {
          assert IsLive(heap, Place(i, found)) && RidOf(heap, Place(i, found)) == Rid(id, found);
          return Rid(id, found);
        }
        id, slot := next, 0;
        i := i + 1;
      }
      return END;
    }

    method CountOn(id: PageId) returns (count: nat)
      requires Valid() && id in heap.tuples
      ensures count == |heap.tuples[id]|
    {
      assert PageAgrees(heap, id);
      count := pages[id].GetNumTuples();
    }

    /** The first live slot of the heap. */
    method Begin() returns (rid: Rid)
      requires Valid()
      ensures FirstFrom(heap, Place(0, 0), rid)
    {
      rid := FindFrom(firstPageId, 0, 0);
    }

    /** The live slot after slot `rid`, which need not be live any more. */
    method Next(rid: Rid, ghost at: Place) returns (next: Rid)
      requires Valid() && IsSlot(heap, at) && RidOf(heap, at) == rid
      ensures FirstFrom(heap, Place(at.page, at.slot + 1), next)
    {
      next := FindFrom(rid.pageId, at.page, rid.slot + 1);
    }
  }

  /** Places in scan order, and among them all live ones that come before `to`. */
  ghost predicate Visits(h: Heap, places: seq<Place>, to: Place) {
    && (forall i :: 0 <= i < |places| ==> IsLive(h, places[i]) && Before(places[i], to))
    && (forall i, j :: 0 <= i < j < |places| ==> Before(places[i], places[j]))
    && (forall p :: IsLive(h, p) && Before(p, to) ==> p in places)
  }

  /** A place past all slots. */
  function Past(h: Heap): Place {
    Place(|h.chain|, 0)
  }

  /** Stepping from the beginning to the end visits every live slot once, in chain-then-slot order. */
  method ScanAll(table: TableHeap) returns (entries: seq<(Rid, Bytes)>, ghost places: seq<Place>)
    requires table.Valid()
    ensures ListsAll(entries, Contents(table.heap))
    ensures Visits(table.heap, places, Past(table.heap)) && |entries| == |places|
    ensures forall i :: 0 <= i < |entries| ==> entries[i] == (RidOf(table.heap, places[i]), TupleAt(table.heap, places[i]))
  {
    table.RoomFacts();
    hide TableHeap.Mirrors, Contents, HeapOk, Before;
    ghost var h := table.heap;
    entries, places := [], [];
    var rid := table.Begin();
    ghost var from := Place(0, 0);
    while rid != END
      invariant FirstFrom(h, from, rid) && Visits(h, places, from) && |entries| == |places|
      invariant forall i :: 0 <= i < |entries| ==> entries[i] == (RidOf(h, places[i]), TupleAt(h, places[i]))
      invariant from.page <= |h.chain|
      decreases |h.chain| - from.page, SlotsLeft(h, from)
    {
      ghost var at := PlaceOf(h, from, rid);
      var t := table.GetTuple(rid);
      VisitsNext(h, places, from, at);
      entries, places, from := entries + [(rid, t)], places + [at], Place(at.page, at.slot + 1);
      rid := table.Next(rid, at);
    }
    VisitsToEnd(h, places, from);
    VisitsAll(h, places, entries);
  }

  /** Every row of the heap once. */
  ghost predicate ListsAll(entries: seq<(Rid, Bytes)>, contents: map<Rid, Bytes>) {
    && (forall i, j :: 0 <= i < j < |entries| ==> entries[i].0 != entries[j].0)
    && (forall rid, t :: (rid, t) in entries <==> rid in contents && contents[rid] == t)
  }

  lemma VisitsToEnd(h: Heap, places: seq<Place>, from: Place)
    requires HeapOk(h) && FirstFrom(h, from, END) && Visits(h, places, from)
    ensures Visits(h, places, Past(h))
  {
    assert forall p :: IsLive(h, p) ==> Before(p, from) && Before(p, Past(h));
  }

  lemma VisitsAll(h: Heap, places: seq<Place>, entries: seq<(Rid, Bytes)>)
    requires HeapOk(h) && Visits(h, places, Past(h)) && |entries| == |places|
    requires forall i :: 0 <= i < |entries| ==> entries[i] == (RidOf(h, places[i]), TupleAt(h, places[i]))
    ensures ListsAll(entries, Contents(h))
  {
    forall i, j | 0 <= i < j < |entries| ensures entries[i].0 != entries[j].0 {
      if entries[i].0 == entries[j].0 {
        RidInjective(h, places[i], places[j]);
      }
    }
    forall i | 0 <= i < |entries| ensures entries[i].0 in Contents(h) && Contents(h)[entries[i].0] == entries[i].1 {
      HeapScans.LiveInContents(h, places[i]);
    }
    forall rid, t | rid in Contents(h) && Contents(h)[rid] == t ensures (rid, t) in entries {
      var at := HeapScans.ContentsLive(h, rid);
      HeapScans.LiveInContents(h, at);
      assert Before(at, Past(h));
      var i :| 0 <= i < |places| && places[i] == at;
      assert entries[i] == (rid, t);
    }
  }

  lemma VisitsNext(h: Heap, places: seq<Place>, from: Place, at: Place)
    requires Visits(h, places, from) && IsLive(h, at) && !Before(at, from)
    requires forall p :: IsLive(h, p) && !Before(p, from) ==> !Before(p, at)
    ensures Visits(h, places + [at], Place(at.page, at.slot + 1))
  {
    forall p | IsLive(h, p) && Before(p, Place(at.page, at.slot + 1)) ensures p in places + [at] {
      assert Before(p, from) || p == at;
    }
  }
}
