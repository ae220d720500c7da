/** A table heap as its clients see it: a chain of pages of tuples, scanned in chain-then-slot order. */
module HeapOrder {
  import opened Types

  type Bytes = seq<byte>

  /** The pages in chain order, their tuples by slot (deleted ones empty), and their free space. */
  datatype Heap = Heap(chain: seq<PageId>, tuples: map<PageId, seq<Bytes>>, room: map<PageId, nat>)

  ghost predicate HeapOk(h: Heap) {
    && h.chain != []
    && (forall i :: 0 <= i < |h.chain| ==> h.chain[i] != INVALID_PAGE_ID && h.chain[i] in h.tuples && h.chain[i] in h.room)
    && (forall i, j :: 0 <= i < j < |h.chain| ==> h.chain[i] != h.chain[j])
    && (forall id :: id in h.tuples ==> id in h.chain)
  }

  /** The page after position `i` of the chain, which `tail` continues. */
  function NextOf(h: Heap, i: nat, tail: PageId): PageId {
    if i + 1 < |h.chain| then h.chain[i + 1] else tail
  }

  lemma ChainMember(h: Heap, i: nat)
    requires HeapOk(h) && i < |h.chain|
    ensures h.chain[i] in h.tuples && h.chain[i] in h.room && h.chain[i] != INVALID_PAGE_ID
  {
  }

  /** A place in the scan order: slot `slot` of the `page`-th page of the chain. */
  datatype Place = Place(page: nat, slot: nat)

  predicate IsSlot(h: Heap, at: Place) {
    at.page < |h.chain| && h.chain[at.page] in h.tuples && at.slot < |h.tuples[h.chain[at.page]]|
  }

  function TupleAt(h: Heap, at: Place): Bytes
    requires IsSlot(h, at)
  {
    h.tuples[h.chain[at.page]][at.slot]
  }

  /** A slot that holds a tuple. */
  predicate IsLive(h: Heap, at: Place) {
    IsSlot(h, at) && TupleAt(h, at) != []
  }

  function RidOf(h: Heap, at: Place): Rid
    requires at.page < |h.chain|
  {
    Rid(h.chain[at.page], at.slot)
  }

  predicate Before(a: Place, b: Place) {
    a.page < b.page || (a.page == b.page && a.slot < b.slot)
  }

  /** The slots of a page from a place on. */
  function SlotsLeft(h: Heap, from: Place): int {
    if from.page < |h.chain| && h.chain[from.page] in h.tuples then |h.tuples[h.chain[from.page]]| - from.slot else 0
  }

  const END: Rid := Rid(INVALID_PAGE_ID, 0)

  /** `rid` is the first live slot from `from` on, or the end when there is none. */
  ghost predicate FirstFrom(h: Heap, from: Place, rid: Rid) {
    if rid.pageId == INVALID_PAGE_ID then
      rid == END && forall p :: IsLive(h, p) ==> Before(p, from)
    else
      exists at :: IsLive(h, at) && RidOf(h, at) == rid && !Before(at, from)
                   && forall p :: IsLive(h, p) && !Before(p, from) ==> !Before(p, at)
  }

  lemma PlaceOf(h: Heap, from: Place, rid: Rid) returns (at: Place)
    requires FirstFrom(h, from, rid) && rid != END
    ensures IsLive(h, at) && RidOf(h, at) == rid && !Before(at, from)
    ensures forall p :: IsLive(h, p) && !Before(p, from) ==> !Before(p, at)
  {
    at :| IsLive(h, at) && RidOf(h, at) == rid && !Before(at, from)
          && forall p :: IsLive(h, p) && !Before(p, from) ==> !Before(p, at);
  }

  /** The place of a live slot's id is unique. */
  lemma RidInjective(h: Heap, a: Place, b: Place)
    requires HeapOk(h) && IsSlot(h, a) && IsSlot(h, b) && RidOf(h, a) == RidOf(h, b)
    ensures a == b
  {
  }

  /** Page `id` with other tuples and other free space. */
  function Recording(h: Heap, id: PageId, tuples: seq<Bytes>, room: nat): Heap {
    Heap(h.chain, h.tuples[id := tuples], h.room[id := room])
  }

  lemma RecordingOk(h: Heap, id: PageId, tuples: seq<Bytes>, room: nat)
    requires HeapOk(h) && id in h.tuples && id in h.room
    ensures var h' := Recording(h, id, tuples, room);
            && HeapOk(h') && h'.chain == h.chain && h'.tuples.Keys == h.tuples.Keys && h'.room.Keys == h.room.Keys
            && h'.tuples[id] == tuples && h'.room[id] == room
            && forall i :: i in h.tuples && i in h.room && i != id ==> h'.tuples[i] == h.tuples[i] && h'.room[i] == h.room[i]
    ensures forall i: nat, tail :: NextOf(Recording(h, id, tuples, room), i, tail) == NextOf(h, i, tail)
  {
  }

  function Write(h: Heap, id: PageId, slot: nat, t: Bytes): Heap
    requires id in h.tuples && slot < |h.tuples[id]| && id in h.room
  {
    Recording(h, id, h.tuples[id][slot := t], h.room[id])
  }

  /** A tuple that would grow by more than the free space of its page. */
  predicate HeapRefuses(h: Heap, id: PageId, slot: nat, t: Bytes)
    requires id in h.tuples && slot < |h.tuples[id]| && id in h.room
  {
    |t| > |h.tuples[id][slot]| && |t| - |h.tuples[id][slot]| > h.room[id]
  }

  /** A new version of a tuple takes new space. */
  function Rewrite(h: Heap, id: PageId, slot: nat, t: Bytes): Heap
    requires id in h.tuples && slot < |h.tuples[id]| && id in h.room && |t| <= h.room[id]
  {
    Recording(h, id, h.tuples[id][slot := t], h.room[id] - |t|)
  }

  // ---------- Insertion ----------

  /** The free space of a page that was just initialized. */
  const EMPTY_ROOM: nat := PAGE_SIZE - HEADER_SIZE

  predicate Fits(t: Bytes, room: nat) {
    |t| + SLOT_SIZE <= room
  }

  /** The first position of the chain, from `i` on, with room for `t`; the length of the chain when there is none. */
  function FirstFit(h: Heap, t: Bytes, i: nat): (k: nat)
    requires HeapOk(h) && i <= |h.chain|
    ensures i <= k <= |h.chain|
    ensures forall j :: i <= j < k ==> !Fits(t, h.room[h.chain[j]])
    ensures k < |h.chain| ==> Fits(t, h.room[h.chain[k]])
    decreases |h.chain| - i
  {
    if i == |h.chain| || Fits(t, h.room[h.chain[i]]) then i else FirstFit(h, t, i + 1)
  }

  function Append(h: Heap, id: PageId): Heap {
    Heap(h.chain + [id], h.tuples[id := []], h.room[id := EMPTY_ROOM])
  }

  function InsertOn(h: Heap, id: PageId, t: Bytes): Heap
    requires id in h.tuples && id in h.room && Fits(t, h.room[id])
  {
    Recording(h, id, h.tuples[id] + [t], h.room[id] - |t| - SLOT_SIZE)
  }

  lemma AppendOk(h: Heap, id: PageId)
    requires HeapOk(h) && id !in h.tuples && id != INVALID_PAGE_ID
    ensures HeapOk(Append(h, id))
    ensures Append(h, id).tuples.Keys == h.tuples.Keys + {id} && Append(h, id).room.Keys == h.room.Keys + {id}
  {
  }

  lemma FirstFitNext(h: Heap, t: Bytes, k: nat)
    requires HeapOk(h) && k < |h.chain|
    ensures h.chain[k] in h.room && FirstFit(h, t, k) == if Fits(t, h.room[h.chain[k]]) then k else FirstFit(h, t, k + 1)
    ensures FirstFit(h, t, |h.chain|) == |h.chain|
  {
  }

  /** First fit; page `id` is added to the chain when no page has room. */
  ghost function HeapInserted(h: Heap, t: Bytes, id: PageId): Heap
    requires HeapOk(h)
  {
    var k := FirstFit(h, t, 0);
    if k < |h.chain| then InsertOn(h, h.chain[k], t)
    else if Fits(t, EMPTY_ROOM) then InsertOn(Append(h, id), id, t)
    else Append(h, id)
  }

  /** The id that the insertion returns. */
  ghost function InsertedRid(h: Heap, t: Bytes, id: PageId): Option<Rid>
    requires HeapOk(h)
  {
    var k := FirstFit(h, t, 0);
    if k < |h.chain| then Some(Rid(h.chain[k], |h.tuples[h.chain[k]]|))
    else if Fits(t, EMPTY_ROOM) then Some(Rid(id, 0))
    else None
  }

  // ---------- The heap as a map ----------

  /** The tuples of the live slots by their ids. */
  ghost function Contents(h: Heap): map<Rid, Bytes> {
    map id, slot | id in h.tuples && 0 <= slot < |h.tuples[id]| && h.tuples[id][slot] != [] :: Rid(id, slot) := h.tuples[id][slot]
  }

  lemma RecordingContents(h: Heap, id: PageId, tuples: seq<Bytes>, room: nat, rid: Rid)
    ensures var h' := Recording(h, id, tuples, room);
            && (rid in Contents(h') <==> if rid.pageId == id then rid.slot < |tuples| && tuples[rid.slot] != [] else rid in Contents(h))
            && (rid in Contents(h') ==> Contents(h')[rid] == if rid.pageId == id then tuples[rid.slot] else Contents(h)[rid])
  {
  }

  lemma ContentsAt(h: Heap, rid: Rid)
    ensures rid in Contents(h) <==>
              rid.pageId in h.tuples && rid.slot < |h.tuples[rid.pageId]| && h.tuples[rid.pageId][rid.slot] != []
    ensures rid in Contents(h) ==> Contents(h)[rid] == h.tuples[rid.pageId][rid.slot]
  {
  }

  /** Writing a slot changes the one entry of the map, or removes it when the new tuple is empty. */
  lemma WriteContents(h: Heap, id: PageId, slot: nat, t: Bytes)
    requires id in h.tuples && slot < |h.tuples[id]| && id in h.room
    ensures Contents(Write(h, id, slot, t)) ==
            if t == [] then Contents(h) - {Rid(id, slot)} else Contents(h)[Rid(id, slot) := t]
  {
    hide Contents;
    var m := if t == [] then Contents(h) - {Rid(id, slot)} else Contents(h)[Rid(id, slot) := t];
    var m' := Contents(Write(h, id, slot, t));
    forall rid ensures (rid in m' <==> rid in m) && (rid in m ==> m'[rid] == m[rid]) {
      ContentsAt(h, rid);
      RecordingContents(h, id, h.tuples[id][slot := t], h.room[id], rid);
    }
  }

  lemma RewriteContents(h: Heap, id: PageId, slot: nat, t: Bytes)
    requires id in h.tuples && slot < |h.tuples[id]| && id in h.room && |t| <= h.room[id] && t != []
    ensures Contents(Rewrite(h, id, slot, t)) == Contents(h)[Rid(id, slot) := t]
  {
    hide Contents;
    var m, m' := Contents(h)[Rid(id, slot) := t], Contents(Rewrite(h, id, slot, t));
    forall rid ensures (rid in m' <==> rid in m) && (rid in m ==> m'[rid] == m[rid]) {
      ContentsAt(h, rid);
      RecordingContents(h, id, h.tuples[id][slot := t], h.room[id] - |t|, rid);
    }
  }

  lemma InsertOnContents(h: Heap, id: PageId, t: Bytes)
    requires id in h.tuples && id in h.room && Fits(t, h.room[id]) && t != []
    ensures Rid(id, |h.tuples[id]|) !in Contents(h)
    ensures Contents(InsertOn(h, id, t)) == Contents(h)[Rid(id, |h.tuples[id]|) := t]
  {
    hide Contents;
    ContentsAt(h, Rid(id, |h.tuples[id]|));
    var m, m' := Contents(h)[Rid(id, |h.tuples[id]|) := t], Contents(InsertOn(h, id, t));
    forall rid ensures (rid in m' <==> rid in m) && (rid in m ==> m'[rid] == m[rid]) {
      ContentsAt(h, rid);
      RecordingContents(h, id, h.tuples[id] + [t], h.room[id] - |t| - SLOT_SIZE, rid);
    }
  }

  lemma AppendContents(h: Heap, id: PageId)
    requires HeapOk(h) && id !in h.tuples && id != INVALID_PAGE_ID
    ensures HeapOk(Append(h, id)) && Contents(Append(h, id)) == Contents(h)
  {
    var h' := Append(h, id);
    forall rid ensures (rid in Contents(h') <==> rid in Contents(h)) && (rid in Contents(h) ==> Contents(h')[rid] == Contents(h)[rid]) {
      assert rid.pageId in h'.tuples <==> rid.pageId in h.tuples || rid.pageId == id;
    }
  }

  /** First-fit insertion yields an id that is not in use and changes no other row; it fails only for a tuple that no page can hold. */
  lemma InsertAddsOne(h: Heap, t: Bytes, id: PageId)
    requires HeapOk(h) && id !in h.tuples && id != INVALID_PAGE_ID && t != []
    requires forall i :: 0 <= i < |h.chain| ==> h.room[h.chain[i]] <= EMPTY_ROOM
    ensures HeapOk(HeapInserted(h, t, id))
    ensures InsertedRid(h, t, id).None? <==> !Fits(t, EMPTY_ROOM)
    ensures var rid := InsertedRid(h, t, id);
            if rid.Some? then rid.value !in Contents(h) && Contents(HeapInserted(h, t, id)) == Contents(h)[rid.value := t]
            else Contents(HeapInserted(h, t, id)) == Contents(h)
  {
    var k := FirstFit(h, t, 0);
    if k < |h.chain| {
      InsertOnContents(h, h.chain[k], t);
    } else {
      AppendContents(h, id);
      if Fits(t, EMPTY_ROOM) {
        assert Rid(id, 0) !in Contents(h);
        InsertOnContents(Append(h, id), id, t);
      }
    }
  }
}
