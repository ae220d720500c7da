/** Iterators over the leaf chain of the index, which visit the stored map in key order. */
module TreeIterators {
  import opened Types
  import opened TreePages
  import opened TreeShape
  import opened PageStores

  /** What an iterator walks over: a tree and the map it stands for. */
  datatype Walk = Walk(info: Infos, root: PageId, contents: map<int32, Rid>, leafMax: nat, internalMax: nat)

  ghost predicate Walkable(t: Nodes, w: Walk) {
    && 2 <= w.leafMax && 3 <= w.internalMax
    && if w.root == INVALID_PAGE_ID then t == map[] && w.contents == map[]
       else TreeOver(t, w.info, w.root, w.contents, w.leafMax, w.internalMax, {})
  }

  /** Position `(p, i)` is record `i` of leaf `p`. */
  ghost predicate OnRecord(t: Nodes, p: PageId, i: nat) {
    p in t && t[p].Leaf? && i < |t[p].records|
  }

  /** Position `(p, i)` is the first entry of the map from `key` on, or the end when there is none. */
  ghost predicate FirstFrom(t: Nodes, m: map<int32, Rid>, key: int, p: PageId, i: nat) {
    if p == INVALID_PAGE_ID then i == 0 && forall k :: k in m ==> k < key
    else
      && OnRecord(t, p, i)
      && var e := t[p].records[i];
      && key <= e.key && e.key in m && m[e.key] == e.value
      && forall k :: k in m && key <= k ==> e.key <= k
  }

  /** A legal leaf is not empty. */
  lemma LeavesHoldRecords(t: Nodes, w: Walk, p: PageId)
    requires Walkable(t, w) && w.root != INVALID_PAGE_ID && p in t && t[p].Leaf?
    ensures OnRecord(t, p, 0)
  {
    assert PageSizeOk(t, w.root, w.leafMax, w.internalMax, p);
  }

  /** The records of a leaf are the entries of the map in the range of that leaf. */
  lemma RecordIsEntry(t: Nodes, w: Walk, p: PageId, i: nat)
    requires Walkable(t, w) && w.root != INVALID_PAGE_ID && OnRecord(t, p, i)
    ensures var e := t[p].records[i]; e.key in w.contents && w.contents[e.key] == e.value && p in w.info && Covers(w.info[p], e.key)
  {
    var e := t[p].records[i];
    assert PageOk(t, w.info, w.info, w.root, INVALID_PAGE_ID, p);
    assert Holds(t[p], e.key, e.value);
    assert Stores(t, e.key, e.value);
  }

  lemma EntryIsRecord(t: Nodes, w: Walk, p: PageId, key: int32) returns (i: nat)
    requires Walkable(t, w) && w.root != INVALID_PAGE_ID && p in t && t[p].Leaf? && p in w.info
    requires key in w.contents && Covers(w.info[p], key)
    ensures OnRecord(t, p, i) && t[p].records[i].key == key
  {
    assert Stores(t, key, w.contents[key]);
    StoredWhereCovered(t, w.info, w.root, p, key, w.contents[key]);
    i :| 0 <= i < |t[p].records| && t[p].records[i] == Entry(key, w.contents[key]);
  }

  /**
   When leaf `p` is responsible for `key`, or ends there, and its first `i` records are those
   below `key`, then the first entry from `key` on is record `i`, or the next leaf's first one.
   */
  lemma Settle(t: Nodes, w: Walk, p: PageId, key: int, i: nat)
    requires Walkable(t, w) && w.root != INVALID_PAGE_ID && p in t && t[p].Leaf? && p in w.info
    requires w.info[p].lo <= key <= w.info[p].hi
    requires i <= |t[p].records| && i == LowerBound(t[p].records, key)
    ensures if i < |t[p].records| then FirstFrom(t, w.contents, key, p, i)
            else FirstFrom(t, w.contents, key, t[p].next, 0)
  {
    var rs, n := t[p].records, t[p].next;
    assert PageOk(t, w.info, w.info, w.root, INVALID_PAGE_ID, p);
    forall k | k in w.contents && key <= k && k < w.info[p].hi
      ensures i < |rs| && rs[i].key <= k
    {
      var j := EntryIsRecord(t, w, p, k);
    }
    if i < |rs| {
      RecordIsEntry(t, w, p, i);
    } else if n != INVALID_PAGE_ID {
      SettleInNext(t, w, p, n);
    }
  }

  /** The first record of the next leaf is the first entry past the end of leaf `p`. */
  lemma SettleInNext(t: Nodes, w: Walk, p: PageId, n: PageId)
    requires Walkable(t, w) && w.root != INVALID_PAGE_ID && p in t && t[p].Leaf? && p in w.info
    requires n == t[p].next && n != INVALID_PAGE_ID
    ensures FirstFrom(t, w.contents, w.info[p].hi, n, 0)
  {
    assert PageOk(t, w.info, w.info, w.root, INVALID_PAGE_ID, p);
    assert PageOk(t, w.info, w.info, w.root, INVALID_PAGE_ID, n);
    LeavesHoldRecords(t, w, n);
    RecordIsEntry(t, w, n, 0);
    var first := t[n].records[0].key;
    forall k | k in w.contents && w.info[p].hi <= k ensures first <= k {
      if k < first {
        var j := EntryIsRecord(t, w, n, k);
      }
    }
  }

  /** Two iterators over one tree are at the same position exactly when they stand at the same entry. */
  lemma PositionIsEntry(t: Nodes, w: Walk, p: PageId, i: nat, q: PageId, j: nat)
    requires Walkable(t, w) && w.root != INVALID_PAGE_ID && OnRecord(t, p, i) && OnRecord(t, q, j)
    ensures p == q && i == j <==> t[p].records[i] == t[q].records[j]
  {
    if t[p].records[i] == t[q].records[j] {
      RecordIsEntry(t, w, p, i);
      RecordIsEntry(t, w, q, j);
      assert PageOk(t, w.info, w.info, w.root, INVALID_PAGE_ID, p);
      assert PageOk(t, w.info, w.info, w.root, INVALID_PAGE_ID, q);
      UniqueCover(t, w.info, w.root, p, q, t[p].records[i].key);
    }
  }

  class TreeIterator {
    const bpm: PageStore
    var pageId: PageId
    var index: nat
    var current: Option<Entry<Rid>>

    constructor (bpm: PageStore, pageId: PageId, index: nat)
      ensures this.bpm == bpm && this.pageId == pageId && this.index == index
    {
      this.bpm, this.pageId, this.index, this.current := bpm, pageId, index, None;
    }

    predicate IsEnd()
      reads this
    {
      pageId == INVALID_PAGE_ID
    }

    predicate Equals(other: TreeIterator)
      reads this, other
    {
      pageId == other.pageId && index == other.index
    }

    /** The iterator walks over the pages of its store, which nothing holds pinned. */
    ghost predicate Over(w: Walk)
      reads this, bpm, bpm.Repr
    {
      && this !in bpm.Repr && bpm.Valid() && bpm.pins == multiset{} && Walkable(bpm.image.nodes, w)
    }

    /** The iterator stands at the first entry from `key` on, or at the end. */
    ghost predicate At(w: Walk, key: int)
      reads this, bpm, bpm.Repr
    {
      Over(w) && FirstFrom(bpm.image.nodes, w.contents, key, pageId, index)
    }

    /** The entry the iterator stands at. */
    method Get(ghost w: Walk, ghost key: int) returns (entry: Entry<Rid>)
      requires At(w, key) && !IsEnd()
      modifies this`current, bpm`trace, bpm`pins, bpm`image
      ensures At(w, key) && bpm.image.nodes == old(bpm.image.nodes)
      ensures key <= entry.key && entry.key in w.contents && w.contents[entry.key] == entry.value
      ensures forall k :: k in w.contents && key <= k ==> entry.key <= k
      ensures entry == bpm.image.nodes[pageId].records[index]
    {
      assert bpm.Agrees(pageId);
      var page := bpm.FetchPage(pageId);
      var leaf := page.leaf;
      current := Some(leaf.data[index]);
      assert leaf.data[index] == leaf.Records()[index];
      var ok := bpm.UnpinPage(pageId, false);
      entry := current.value;
    }

    /** Moves on to the next entry in key order, or to the end. */
    method Advance(ghost w: Walk, ghost key: int)
      requires At(w, key)
      modifies this`pageId, this`index, bpm`trace, bpm`pins, bpm`image
      ensures bpm.image.nodes == old(bpm.image.nodes)
      ensures if old(IsEnd()) then IsEnd() && At(w, key)
              else old(OnRecord(bpm.image.nodes, pageId, index)) && At(w, old(bpm.image.nodes[pageId].records[index].key) + 1)
    {
      if IsEnd() {
        return;
      }
      NextPlace(bpm.image.nodes, w, pageId, index);
      pageId, index := Following(w);
    }

    /** The position after the one the iterator stands at. */
    method Following(ghost w: Walk) returns (p: PageId, i: nat)
      requires Over(w) && OnRecord(bpm.image.nodes, pageId, index)
      modifies bpm`trace, bpm`pins, bpm`image
      ensures bpm.Valid() && bpm.pins == multiset{} && bpm.image.nodes == old(bpm.image.nodes)
      ensures var node := bpm.image.nodes[pageId];
              if index + 1 < |node.records| then p == pageId && i == index + 1 else p == node.next && i == 0
    {
      assert bpm.Agrees(pageId);
      var page := bpm.FetchPage(pageId);
      var leaf := page.leaf;
      p, i := pageId, index + 1;
      if i >= leaf.size {
        p, i := leaf.nextPageId, 0;
      }
      var ok := bpm.UnpinPage(pageId, false);
    }
  }

  lemma NextPlace(t: Nodes, w: Walk, p: PageId, i: nat)
    requires Walkable(t, w) && OnRecord(t, p, i)
    ensures var key := t[p].records[i].key + 1;
            if i + 1 < |t[p].records| then FirstFrom(t, w.contents, key, p, i + 1)
            else FirstFrom(t, w.contents, key, t[p].next, 0)
  {
    assert PageOk(t, w.info, w.info, w.root, INVALID_PAGE_ID, p);
    RecordIsEntry(t, w, p, i);
    LowerBoundUnique(t[p].records, t[p].records[i].key + 1, i + 1);
    Settle(t, w, p, t[p].records[i].key + 1, i + 1);
  }
}
