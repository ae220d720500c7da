/** Scanning a heap while the rows already visited are being changed. */
module HeapScans {
  import opened Types
  import opened HeapOrder

  /** The same pages and slots, possibly with other tuples in them. */
  ghost predicate SameShape(h: Heap, h': Heap) {
    && h'.chain == h.chain && h'.tuples.Keys == h.tuples.Keys && h'.room.Keys == h.room.Keys
    && forall id :: id in h.tuples ==> |h'.tuples[id]| == |h.tuples[id]|
  }

  /** From place `from` on, the slots are as they were. */
  ghost predicate Ahead(h: Heap, h': Heap, from: Place) {
    forall p :: IsSlot(h, p) && !Before(p, from) ==> IsSlot(h', p) && TupleAt(h', p) == TupleAt(h, p)
  }

  /** `done` are the live rows before place `from`. */
  ghost predicate DoneBefore(h: Heap, from: Place, done: set<Rid>) {
    && (forall p :: IsLive(h, p) ==> (RidOf(h, p) in done <==> Before(p, from)))
    && forall rid :: rid in done ==> rid in Contents(h)
  }

  lemma LiveInContents(h: Heap, at: Place)
    requires HeapOk(h) && IsLive(h, at)
    ensures RidOf(h, at) in Contents(h) && Contents(h)[RidOf(h, at)] == TupleAt(h, at)
  {
  }

  lemma ContentsLive(h: Heap, rid: Rid) returns (at: Place)
    requires HeapOk(h) && rid in Contents(h)
    ensures IsLive(h, at) && RidOf(h, at) == rid
  {
    var i :| 0 <= i < |h.chain| && h.chain[i] == rid.pageId;
    at := Place(i, rid.slot);
  }

  /** A scan of `h0` that stands at place `from` of the heap as it is now. */
  ghost predicate Scanning(h0: Heap, h: Heap, from: Place, rid: Rid, done: set<Rid>) {
    && HeapOk(h0) && HeapOk(h) && SameShape(h0, h) && Ahead(h0, h, from)
    && FirstFrom(h, from, rid) && DoneBefore(h0, from, done) && from.page <= |h0.chain|
  }

  /** The row the scan has come to has not been visited, and is as it was. */
  lemma ScanAt(h0: Heap, h: Heap, from: Place, rid: Rid, done: set<Rid>) returns (at: Place)
    requires Scanning(h0, h, from, rid, done) && rid != END
    ensures IsLive(h, at) && IsLive(h0, at) && RidOf(h, at) == rid && RidOf(h0, at) == rid && !Before(at, from)
    ensures rid !in done && rid in Contents(h0) && Contents(h0)[rid] == TupleAt(h, at) == TupleAt(h0, at)
    ensures rid in Contents(h) && Contents(h)[rid] == Contents(h0)[rid]
    ensures DoneBefore(h0, Place(at.page, at.slot + 1), done + {rid})
    ensures Ahead(h0, h, Place(at.page, at.slot + 1))
    ensures forall p :: IsLive(h0, p) && !Before(p, from) ==> !Before(p, at)
  {
    at := PlaceOf(h, from, rid);
    assert IsSlot(h0, at);
    LiveInContents(h0, at);
    LiveInContents(h, at);
    var next := Place(at.page, at.slot + 1);
    forall p | IsLive(h0, p) ensures RidOf(h0, p) in done + {rid} <==> Before(p, next) {
      if RidOf(h0, p) == rid {
        RidInjective(h0, p, at);
      }
      if !Before(p, from) {
        assert IsLive(h, p) && !Before(p, at);
      }
    }
  }

  /** A change at the place just visited does not disturb the scan. */
  lemma ScanOn(h0: Heap, h: Heap, h': Heap, at: Place, rid: Rid, done: set<Rid>)
    requires HeapOk(h0) && SameShape(h0, h) && Ahead(h0, h, Place(at.page, at.slot + 1)) && HeapOk(h) && HeapOk(h')
    requires SameShape(h, h') && IsSlot(h0, at)
    requires forall p :: IsSlot(h, p) && p != at ==> IsSlot(h', p) && TupleAt(h', p) == TupleAt(h, p)
    requires FirstFrom(h, Place(at.page, at.slot + 1), rid) && DoneBefore(h0, Place(at.page, at.slot + 1), done)
    ensures Scanning(h0, h', Place(at.page, at.slot + 1), rid, done)
  {
    var next := Place(at.page, at.slot + 1);
    assert forall p :: IsLive(h', p) && !Before(p, next) <==> IsLive(h, p) && !Before(p, next);
    if rid.pageId != INVALID_PAGE_ID {
      var p := PlaceOf(h, next, rid);
      assert IsLive(h', p) && RidOf(h', p) == rid;
    }
  }

  /** At the end every row has been visited. */
  lemma ScanEnds(h0: Heap, h: Heap, from: Place, done: set<Rid>)
    requires Scanning(h0, h, from, END, done)
    ensures done == Contents(h0).Keys
  {
    forall rid | rid in Contents(h0) ensures rid in done {
      var at := ContentsLive(h0, rid);
      assert !Before(at, from) ==> IsLive(h, at);
    }
  }

  lemma ScanBegins(h: Heap, rid: Rid)
    requires HeapOk(h) && FirstFrom(h, Place(0, 0), rid)
    ensures Scanning(h, h, Place(0, 0), rid, {})
  {
  }

  /** Writing one slot keeps the shape of the heap and all other slots. */
  lemma OneSlotWritten(h: Heap, at: Place, t: Bytes, room: nat)
    requires HeapOk(h) && IsSlot(h, at)
    ensures var id := h.chain[at.page];
            var h' := Recording(h, id, h.tuples[id][at.slot := t], room);
            && HeapOk(h') && SameShape(h, h')
            && forall p :: IsSlot(h, p) && p != at ==> IsSlot(h', p) && TupleAt(h', p) == TupleAt(h, p)
  {
  }
}
