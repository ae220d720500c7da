/**
 In-place edits of pinned pages, as the index performs them through page pointers, with
 their effect on the values of all pages in the store.
 */
module PageEdits {
  import opened Types
  import opened TreePages
  import opened TreeShape
  import opened TreeSteps
  import opened TreeRemovalSteps
  import opened PageStores

  /** `leaf` is the pinned page `id`. */
  ghost predicate IsLeafPage(bpm: PageStore, id: PageId, leaf: LeafPage)
    reads bpm
  {
    id in bpm.table && id in bpm.pins && bpm.table[id] == LeafRef(leaf)
  }

  ghost predicate IsInternalPage(bpm: PageStore, id: PageId, internal: InternalPage)
    reads bpm
  {
    id in bpm.table && id in bpm.pins && bpm.table[id] == InternalRef(internal)
  }

  method InsertRecordOnPage(bpm: PageStore, id: PageId, leaf: LeafPage, key: int32, value: Rid) returns (newSize: nat)
    requires bpm.Valid() && IsLeafPage(bpm, id, leaf)
    requires id in bpm.image.nodes && bpm.image.nodes[id].Leaf? && Ascending(bpm.image.nodes[id].records)
    requires bpm.image.nodes[id].Size() <= leaf.maxSize
    modifies bpm`trace, bpm`image, leaf, leaf.data
    ensures bpm.Valid() && newSize == leaf.size && bpm.image.unsaved == old(bpm.image.unsaved) + Changed(old(bpm.image.nodes), bpm.image.nodes)
    ensures var rs := InsertRecord(old(bpm.image.nodes)[id].records, Entry(key, value));
            bpm.image.nodes == SetRecords(old(bpm.image.nodes), id, rs) && newSize == |rs|
  {
    assert bpm.Agrees(id);
    ghost var t := bpm.image.nodes;
    newSize := leaf.Insert(key, value);
    forall i | i in bpm.table && i != id ensures bpm.Agrees(i) {
      assert old(bpm.Agrees(i)) && bpm.table[i].Apart(bpm.table[id]);
    }
    bpm.CommitOne(id, t[id].(records := InsertRecord(t[id].records, Entry(key, value))));
  }

  method RemoveRecordOnPage(bpm: PageStore, id: PageId, leaf: LeafPage, key: int32) returns (newSize: nat)
    requires bpm.Valid() && IsLeafPage(bpm, id, leaf)
    requires id in bpm.image.nodes && bpm.image.nodes[id].Leaf? && Ascending(bpm.image.nodes[id].records)
    modifies bpm`trace, bpm`image, leaf, leaf.data
    ensures bpm.Valid() && newSize == leaf.size && bpm.image.unsaved == old(bpm.image.unsaved) + Changed(old(bpm.image.nodes), bpm.image.nodes)
    ensures var rs := RemoveRecord(old(bpm.image.nodes)[id].records, key);
            bpm.image.nodes == SetRecords(old(bpm.image.nodes), id, rs) && newSize == |rs|
  {
    assert bpm.Agrees(id);
    ghost var t := bpm.image.nodes;
    newSize := leaf.RemoveAndDeleteRecord(key);
    forall i | i in bpm.table && i != id ensures bpm.Agrees(i) {
      assert old(bpm.Agrees(i)) && bpm.table[i].Apart(bpm.table[id]);
    }
    bpm.CommitOne(id, t[id].(records := RemoveRecord(t[id].records, key)));
  }

  /** The split on the two pages alone. */
  method MoveUpperHalf(leaf: LeafPage, newLeaf: LeafPage, r: PageId)
    requires leaf.Valid() && newLeaf.Valid() && leaf != newLeaf && leaf.data != newLeaf.data
    requires leaf.View().Size() <= newLeaf.maxSize + 1
    modifies leaf, newLeaf, newLeaf.data
    ensures leaf.Valid() && newLeaf.Valid()
    ensures var n := old(leaf.View());
            && leaf.View() == n.(next := r, records := n.records[..n.Size() / 2])
            && newLeaf.View() == n.(records := n.records[n.Size() / 2..])
  {
    newLeaf.parentPageId := leaf.parentPageId;
    newLeaf.nextPageId := leaf.nextPageId;
    leaf.nextPageId := r;
    leaf.MoveHalfTo(newLeaf);
  }

  /** Moves the upper half of leaf `l` to the new leaf `r` and links `r` into the leaf chain. */
  method SplitLeafOnPages(bpm: PageStore, l: PageId, leaf: LeafPage, r: PageId, newLeaf: LeafPage)
    requires bpm.Valid() && IsLeafPage(bpm, l, leaf) && IsLeafPage(bpm, r, newLeaf) && l != r
    requires l in bpm.image.nodes && bpm.image.nodes[l].Leaf? && bpm.image.nodes[l].Size() <= newLeaf.maxSize + 1
    modifies bpm`trace, bpm`image, leaf, leaf.data, newLeaf, newLeaf.data
    ensures bpm.Valid()
    ensures bpm.image.nodes == SplitLeaf(old(bpm.image.nodes), l, r, old(bpm.image.nodes)[l].Size() / 2)
  {
    hide Leads, Changed;
    assert bpm.Agrees(l) && bpm.Agrees(r) && bpm.table[l].Apart(bpm.table[r]);
    ghost var t, rs, h := bpm.image.nodes, bpm.image.nodes[l].records, |bpm.image.nodes[l].records| / 2;
    assert t[l] == leaf.View();
    MoveUpperHalf(leaf, newLeaf, r);
    forall i | i in bpm.table && i !in {l, r} ensures bpm.Agrees(i) {
      assert old(bpm.Agrees(i)) && bpm.table[i].Apart(bpm.table[l]) && bpm.table[i].Apart(bpm.table[r]);
    }
    bpm.CommitTwo(l, t[l].(next := r, records := rs[..h]), r, t[l].(records := rs[h..]));
  }

  /** Sets the parent pointer of page `id`. */
  method SetParentOnPage(bpm: PageStore, id: PageId, page: PageRef, parent: PageId)
    requires bpm.Valid() && id in bpm.table && id in bpm.pins && bpm.table[id] == page && id in bpm.image.nodes
    modifies bpm`trace, bpm`image, page.Objects()
    ensures bpm.Valid() && bpm.image.nodes == old(bpm.image.nodes)[id := old(bpm.image.nodes)[id].(parent := parent)]
  {
    assert bpm.Agrees(id);
    ghost var t := bpm.image.nodes;
    page.SetParent(parent);
    forall i | i in bpm.table && i != id ensures bpm.Agrees(i) {
      assert old(bpm.Agrees(i)) && bpm.table[i].Apart(bpm.table[id]);
    }
    bpm.CommitOne(id, t[id].(parent := parent));
  }

  /** Makes page `id` an internal page with the two given children. */
  method PopulateRootOnPage(bpm: PageStore, id: PageId, root: InternalPage, l: PageId, mid: int32, r: PageId)
    returns (ghost junk: int32)
    requires bpm.Valid() && IsInternalPage(bpm, id, root) && 2 <= root.maxSize
    requires id in bpm.image.nodes && bpm.image.nodes[id] == Internal(INVALID_PAGE_ID, [])
    modifies bpm`trace, bpm`image, root, root.data
    ensures bpm.Valid()
    ensures bpm.image.nodes == old(bpm.image.nodes)[id := Internal(INVALID_PAGE_ID, [Entry(junk, l), Entry(mid, r)])]
  {
    assert bpm.Agrees(id);
    ghost var t := bpm.image.nodes;
    junk := root.data[0].key;
    root.PopulateNewRoot(l, mid, r);
    forall i | i in bpm.table && i != id ensures bpm.Agrees(i) {
      assert old(bpm.Agrees(i)) && bpm.table[i].Apart(bpm.table[id]);
    }
    bpm.CommitOne(id, Internal(INVALID_PAGE_ID, [Entry(junk, l), Entry(mid, r)]));
  }

  /** Fills the new page `top` with the two halves of the old root, and makes it their parent. */
  method MakeRoot(bpm: PageStore, l: PageId, mid: int32, r: PageId, top: PageId, page: InternalPage, ghost t: Nodes)
    returns (ghost junk: int32)
    requires bpm.Valid() && IsInternalPage(bpm, top, page) && 2 <= page.maxSize
    requires top !in t && bpm.image.nodes == t[top := Internal(INVALID_PAGE_ID, [])]
    requires l in t && l in bpm.pins && r in t && r in bpm.pins && l != r
    modifies bpm`trace, bpm`image, bpm.Repr
    ensures bpm.Valid() && bpm.image.nodes == AttachRoot(t, l, mid, r, top, junk)
  {
    assert bpm.Agrees(top);
    junk := PopulateRootOnPage(bpm, top, page, l, mid, r);
    SetParents(bpm, l, r, top);
  }

  /** Makes page `p` the parent of the pinned pages `l` and `r`. */
  method SetParents(bpm: PageStore, l: PageId, r: PageId, p: PageId)
    requires bpm.Valid() && l in bpm.pins && r in bpm.pins && l in bpm.image.nodes && r in bpm.image.nodes && l != r
    modifies bpm`trace, bpm`image, bpm.Repr
    ensures bpm.Valid()
    ensures var t := old(bpm.image.nodes); bpm.image.nodes == t[l := t[l].(parent := p)][r := t[r].(parent := p)]
  {
    assert bpm.Agrees(l);
    SetParentOnPage(bpm, l, bpm.table[l], p);
    assert bpm.Agrees(r);
    SetParentOnPage(bpm, r, bpm.table[r], p);
  }

  /** The insertion on the page alone. */
  method InsertIntoSlots(page: InternalPage, l: PageId, mid: int32, r: PageId)
    requires page.Valid() && IsChild(page.View().slots, l) && page.View().Size() <= page.maxSize
    modifies page`size, page.data
    ensures page.Valid()
    ensures page.View() == old(page.View()).(slots := InsertSlot(old(page.View()).slots, ChildIndex(old(page.View()).slots, l) + 1, Entry(mid, r)))
  {
    var size := page.InsertNodeAfter(l, mid, r);
  }

  /** Adds a slot for `r` after the one for `l`. */
  method InsertSlotOnPage(bpm: PageStore, id: PageId, page: InternalPage, l: PageId, mid: int32, r: PageId)
    requires bpm.Valid() && IsInternalPage(bpm, id, page) && id in bpm.image.nodes && bpm.image.nodes[id].Internal?
    requires IsChild(bpm.image.nodes[id].slots, l) && bpm.image.nodes[id].Size() <= page.maxSize
    modifies bpm`trace, bpm`image, page, page.data
    ensures bpm.Valid() && bpm.image.nodes == old(bpm.image.nodes)[id := old(bpm.image.nodes)[id].(slots := InsertSlot(old(bpm.image.nodes)[id].slots, ChildIndex(old(bpm.image.nodes)[id].slots, l) + 1, Entry(mid, r)))]
  {
    hide Leads, Changed, PageRef.Parent;
    assert bpm.Agrees(id);
    ghost var t := bpm.image.nodes;
    InsertIntoSlots(page, l, mid, r);
    forall i | i in bpm.table && i != id ensures bpm.Agrees(i) {
      assert old(bpm.Agrees(i)) && bpm.table[i].Apart(bpm.table[id]);
    }
    bpm.CommitOne(id, t[id].(slots := InsertSlot(t[id].slots, ChildIndex(t[id].slots, l) + 1, Entry(mid, r))));
  }

  /** Removes slot `n`. */
  method RemoveSlotOnPage(bpm: PageStore, id: PageId, page: InternalPage, n: nat)
    requires bpm.Valid() && IsInternalPage(bpm, id, page) && id in bpm.image.nodes && bpm.image.nodes[id].Internal?
    requires n < |bpm.image.nodes[id].slots|
    modifies bpm`trace, bpm`image, page, page.data
    ensures bpm.Valid() && bpm.image.nodes == old(bpm.image.nodes)[id := old(bpm.image.nodes)[id].(slots := RemoveSlot(old(bpm.image.nodes)[id].slots, n))]
  {
    assert bpm.Agrees(id);
    ghost var t := bpm.image.nodes;
    page.Remove(n);
    forall i | i in bpm.table && i != id ensures bpm.Agrees(i) {
      assert old(bpm.Agrees(i)) && bpm.table[i].Apart(bpm.table[id]);
    }
    bpm.CommitOne(id, t[id].(slots := RemoveSlot(t[id].slots, n)));
  }

  /** Replaces the separator of slot `n`. */
  method SetKeyOnPage(bpm: PageStore, id: PageId, page: InternalPage, n: nat, key: int32)
    requires bpm.Valid() && IsInternalPage(bpm, id, page) && id in bpm.image.nodes && bpm.image.nodes[id].Internal?
    requires n < |bpm.image.nodes[id].slots|
    modifies bpm`trace, bpm`image, page, page.data
    ensures bpm.Valid() && bpm.image.nodes == old(bpm.image.nodes)[id := old(bpm.image.nodes)[id].(slots := SetKey(old(bpm.image.nodes)[id].slots, n, key))]
  {
    assert bpm.Agrees(id);
    ghost var t := bpm.image.nodes;
    page.SetKeyAt(n, key);
    forall i | i in bpm.table && i != id ensures bpm.Agrees(i) {
      assert old(bpm.Agrees(i)) && bpm.table[i].Apart(bpm.table[id]);
    }
    bpm.CommitOne(id, t[id].(slots := SetKey(t[id].slots, n, key)));
  }

  /** Moves the last record of `l` to the front of `r`. */
  method LendLastRecord(bpm: PageStore, l: PageId, left: LeafPage, r: PageId, right: LeafPage)
    requires bpm.Valid() && IsLeafPage(bpm, l, left) && IsLeafPage(bpm, r, right) && l != r
    requires l in bpm.image.nodes && bpm.image.nodes[l].Leaf? && r in bpm.image.nodes && bpm.image.nodes[r].Leaf?
    requires 0 < |bpm.image.nodes[l].records| && |bpm.image.nodes[r].records| <= right.maxSize
    modifies bpm`trace, bpm`image, left, left.data, right, right.data
    ensures bpm.Valid()
    ensures var a, b := old(bpm.image.nodes)[l], old(bpm.image.nodes)[r];
            bpm.image.nodes == old(bpm.image.nodes)[l := a.(records := a.records[..|a.records| - 1])][r := b.(records := [a.records[|a.records| - 1]] + b.records)]
  {
    hide Leads;
    assert bpm.Agrees(l) && bpm.Agrees(r) && bpm.table[l].Apart(bpm.table[r]);
    ghost var t, a, b := bpm.image.nodes, bpm.image.nodes[l], bpm.image.nodes[r];
    assert a == left.View() && b == right.View();
    left.MoveLastToFrontOf(right);
    assert left.View() == a.(records := a.records[..|a.records| - 1]);
    assert right.View() == b.(records := [a.records[|a.records| - 1]] + b.records);
    forall i | i in bpm.table && i !in {l, r} ensures bpm.Agrees(i) {
      assert old(bpm.Agrees(i)) && bpm.table[i].Apart(bpm.table[l]) && bpm.table[i].Apart(bpm.table[r]);
    }
    bpm.CommitTwo(l, a.(records := a.records[..|a.records| - 1]), r, b.(records := [a.records[|a.records| - 1]] + b.records));
  }

  method PassFirst(left: LeafPage, right: LeafPage)
    requires left.Valid() && right.Valid() && left != right && left.data != right.data
    requires 0 < right.size && left.size < left.data.Length
    modifies left, left.data, right, right.data
    ensures left.Valid() && right.Valid()
    ensures left.View() == old(Leaf(left.parentPageId, left.nextPageId, left.Records() + [right.Records()[0]]))
    ensures right.View() == old(Leaf(right.parentPageId, right.nextPageId, right.Records()[1..]))
  {
    right.MoveFirstToEndOf(left);
  }

  /** Moves the first record of `r` to the end of `l`. */
  method LendFirstRecord(bpm: PageStore, l: PageId, left: LeafPage, r: PageId, right: LeafPage)
    requires bpm.Valid() && IsLeafPage(bpm, l, left) && IsLeafPage(bpm, r, right) && l != r
    requires l in bpm.image.nodes && bpm.image.nodes[l].Leaf? && r in bpm.image.nodes && bpm.image.nodes[r].Leaf?
    requires 0 < |bpm.image.nodes[r].records| && |bpm.image.nodes[l].records| <= left.maxSize
    modifies bpm`trace, bpm`image, left, left.data, right, right.data
    ensures bpm.Valid()
    ensures var a, b := old(bpm.image.nodes)[l], old(bpm.image.nodes)[r];
            bpm.image.nodes == old(bpm.image.nodes)[l := a.(records := a.records + [b.records[0]])][r := b.(records := b.records[1..])]
  {
    hide Leads, Changed;
    assert bpm.Agrees(l) && bpm.Agrees(r) && bpm.table[l].Apart(bpm.table[r]);
    ghost var t, a, b := bpm.image.nodes, bpm.image.nodes[l], bpm.image.nodes[r];
    ghost var a', b' := a.(records := a.records + [b.records[0]]), b.(records := b.records[1..]);
    assert a == left.View() && b == right.View();
    PassFirst(left, right);
    assert left.View() == a' && right.View() == b';
    forall i | i in bpm.table && i !in {l, r} ensures bpm.Agrees(i) {
      assert old(bpm.Agrees(i)) && bpm.table[i].Apart(bpm.table[l]) && bpm.table[i].Apart(bpm.table[r]);
    }
    bpm.CommitTwo(l, a', r, b');
  }

  /** Moves all records of `r` to the end of `l`, and its place in the leaf chain. */
  method GiveAllRecords(bpm: PageStore, l: PageId, left: LeafPage, r: PageId, right: LeafPage)
    requires bpm.Valid() && IsLeafPage(bpm, l, left) && IsLeafPage(bpm, r, right) && l != r
    requires l in bpm.image.nodes && bpm.image.nodes[l].Leaf? && r in bpm.image.nodes && bpm.image.nodes[r].Leaf?
    requires |bpm.image.nodes[l].records| + |bpm.image.nodes[r].records| <= left.maxSize + 1
    modifies bpm`trace, bpm`image, left, left.data, right, right.data
    ensures bpm.Valid()
    ensures var a, b := old(bpm.image.nodes)[l], old(bpm.image.nodes)[r];
            bpm.image.nodes == old(bpm.image.nodes)[l := a.(next := b.next, records := a.records + b.records)][r := b.(records := [])]
  {
    hide Leads;
    assert bpm.Agrees(l) && bpm.Agrees(r) && bpm.table[l].Apart(bpm.table[r]);
    ghost var t, a, b := bpm.image.nodes, bpm.image.nodes[l], bpm.image.nodes[r];
    right.MoveAllTo(left);
    forall i | i in bpm.table && i !in {l, r} ensures bpm.Agrees(i) {
      assert old(bpm.Agrees(i)) && bpm.table[i].Apart(bpm.table[l]) && bpm.table[i].Apart(bpm.table[r]);
    }
    bpm.CommitTwo(l, a.(next := b.next, records := a.records + b.records), r, b.(records := []));
  }

  /** Moves the upper half of the slots of `l` to the new page `r`, which gets the same parent. */
  method SplitSlots(bpm: PageStore, l: PageId, left: InternalPage, r: PageId, right: InternalPage)
    requires bpm.Valid() && IsInternalPage(bpm, l, left) && IsInternalPage(bpm, r, right) && l != r
    requires l in bpm.image.nodes && bpm.image.nodes[l].Internal? && r in bpm.image.nodes && bpm.image.nodes[r].Internal?
    requires bpm.image.nodes[r].slots == [] && |bpm.image.nodes[l].slots| <= right.maxSize + 1
    modifies bpm`trace, bpm`image, left, left.data, right, right.data
    ensures bpm.Valid()
    ensures var a, b := old(bpm.image.nodes)[l], old(bpm.image.nodes)[r];
            bpm.image.nodes == old(bpm.image.nodes)[l := a.(slots := a.slots[..|a.slots| / 2])][r := a.(slots := a.slots[|a.slots| / 2..])]
  {
    assert bpm.Agrees(l) && bpm.Agrees(r) && bpm.table[l].Apart(bpm.table[r]);
    ghost var t, a, b := bpm.image.nodes, bpm.image.nodes[l], bpm.image.nodes[r];
    right.parentPageId := left.parentPageId;
    left.MoveHalfTo(right);
    forall i | i in bpm.table && i !in {l, r} ensures bpm.Agrees(i) {
      assert old(bpm.Agrees(i)) && bpm.table[i].Apart(bpm.table[l]) && bpm.table[i].Apart(bpm.table[r]);
    }
    bpm.CommitTwo(l, a.(slots := a.slots[..|a.slots| / 2]), r, a.(slots := a.slots[|a.slots| / 2..]));
  }

  /** Moves the last child of `l` to the front of `r`. */
  method LendLastSlot(bpm: PageStore, l: PageId, left: InternalPage, r: PageId, right: InternalPage, middle: int32)
    requires bpm.Valid() && IsInternalPage(bpm, l, left) && IsInternalPage(bpm, r, right) && l != r
    requires l in bpm.image.nodes && bpm.image.nodes[l].Internal? && r in bpm.image.nodes && bpm.image.nodes[r].Internal?
    requires 0 < |bpm.image.nodes[l].slots| && 0 < |bpm.image.nodes[r].slots| <= right.maxSize
    modifies bpm`trace, bpm`image, left, left.data, right, right.data
    ensures bpm.Valid()
    ensures var a, b := old(bpm.image.nodes)[l], old(bpm.image.nodes)[r];
            bpm.image.nodes == old(bpm.image.nodes)[l := a.(slots := a.slots[..|a.slots| - 1])][r := b.(slots := [a.slots[|a.slots| - 1].(key := b.slots[0].key)] + SetKey(b.slots, 0, middle))]
  {
    hide Leads;
    assert bpm.Agrees(l) && bpm.Agrees(r) && bpm.table[l].Apart(bpm.table[r]);
    ghost var t, a, b := bpm.image.nodes, bpm.image.nodes[l], bpm.image.nodes[r];
    assert a == left.View() && b == right.View();
    left.MoveLastToFrontOf(right, middle);
    assert left.View() == a.(slots := a.slots[..|a.slots| - 1]);
    assert right.View() == b.(slots := [a.slots[|a.slots| - 1].(key := b.slots[0].key)] + SetKey(b.slots, 0, middle));
    forall i | i in bpm.table && i !in {l, r} ensures bpm.Agrees(i) {
      assert old(bpm.Agrees(i)) && bpm.table[i].Apart(bpm.table[l]) && bpm.table[i].Apart(bpm.table[r]);
    }
    bpm.CommitTwo(l, a.(slots := a.slots[..|a.slots| - 1]), r, b.(slots := [a.slots[|a.slots| - 1].(key := b.slots[0].key)] + SetKey(b.slots, 0, middle)));
  }

  /** Moves the first child of `r` to the end of `l`. */
  method LendFirstSlot(bpm: PageStore, l: PageId, left: InternalPage, r: PageId, right: InternalPage, middle: int32)
    requires bpm.Valid() && IsInternalPage(bpm, l, left) && IsInternalPage(bpm, r, right) && l != r
    requires l in bpm.image.nodes && bpm.image.nodes[l].Internal? && r in bpm.image.nodes && bpm.image.nodes[r].Internal?
    requires 1 < |bpm.image.nodes[r].slots| && |bpm.image.nodes[l].slots| <= left.maxSize
    modifies bpm`trace, bpm`image, left, left.data, right, right.data
    ensures bpm.Valid()
    ensures var a, b := old(bpm.image.nodes)[l], old(bpm.image.nodes)[r];
            bpm.image.nodes == old(bpm.image.nodes)[l := a.(slots := a.slots + [b.slots[0].(key := middle)])][r := b.(slots := [b.slots[1].(key := b.slots[0].key)] + b.slots[2..])]
  {
    hide Leads;
    assert bpm.Agrees(l) && bpm.Agrees(r) && bpm.table[l].Apart(bpm.table[r]);
    ghost var t, a, b := bpm.image.nodes, bpm.image.nodes[l], bpm.image.nodes[r];
    right.MoveFirstToEndOf(left, middle);
    forall i | i in bpm.table && i !in {l, r} ensures bpm.Agrees(i) {
      assert old(bpm.Agrees(i)) && bpm.table[i].Apart(bpm.table[l]) && bpm.table[i].Apart(bpm.table[r]);
    }
    bpm.CommitTwo(l, a.(slots := a.slots + [b.slots[0].(key := middle)]), r, b.(slots := [b.slots[1].(key := b.slots[0].key)] + b.slots[2..]));
  }

  /** Moves all children of `r` to the end of `l`. */
  method GiveAllSlots(bpm: PageStore, l: PageId, left: InternalPage, r: PageId, right: InternalPage, middle: int32)
    requires bpm.Valid() && IsInternalPage(bpm, l, left) && IsInternalPage(bpm, r, right) && l != r
    requires l in bpm.image.nodes && bpm.image.nodes[l].Internal? && r in bpm.image.nodes && bpm.image.nodes[r].Internal?
    requires 0 < |bpm.image.nodes[r].slots| && |bpm.image.nodes[l].slots| + |bpm.image.nodes[r].slots| <= left.maxSize + 1
    modifies bpm`trace, bpm`image, left, left.data, right, right.data
    ensures bpm.Valid()
    ensures var a, b := old(bpm.image.nodes)[l], old(bpm.image.nodes)[r];
            bpm.image.nodes == old(bpm.image.nodes)[l := a.(slots := a.slots + SetKey(b.slots, 0, middle))][r := b.(slots := [])]
  {
    hide Leads;
    assert bpm.Agrees(l) && bpm.Agrees(r) && bpm.table[l].Apart(bpm.table[r]);
    ghost var t, a, b := bpm.image.nodes, bpm.image.nodes[l], bpm.image.nodes[r];
    right.MoveAllTo(left, middle);
    forall i | i in bpm.table && i !in {l, r} ensures bpm.Agrees(i) {
      assert old(bpm.Agrees(i)) && bpm.table[i].Apart(bpm.table[l]) && bpm.table[i].Apart(bpm.table[r]);
    }
    bpm.CommitTwo(l, a.(slots := a.slots + SetKey(b.slots, 0, middle)), r, b.(slots := []));
  }

  lemma ReparentNext(t: Nodes, s: seq<Entry<PageId>>, i: nat, p: PageId)
    requires i < |s| && s[i].value in t
    ensures s[i].value in Reparent(t, Children(s[..i]), p)
    ensures var t' := Reparent(t, Children(s[..i]), p);
            Reparent(t, Children(s[..i + 1]), p) == t'[s[i].value := t'[s[i].value].(parent := p)]
  {
    assert Children(s[..i + 1]) == Children(s[..i]) + {s[i].value} by {
      assert s[..i + 1] == s[..i] + [s[i]];
      forall c ensures c in Children(s[..i + 1]) <==> c in Children(s[..i]) || c == s[i].value {
        if c == s[i].value {
          assert s[..i + 1][i].value == c;
        }
        if c in Children(s[..i]) {
          var j :| 0 <= j < i && s[..i][j].value == c;
          assert s[..i + 1][j].value == c;
        }
      }
    }
  }

  /** Makes page `p` the parent of every child of the pinned page `id`. */
  method ReparentChildren(bpm: PageStore, id: PageId, page: InternalPage, p: PageId)
    requires bpm.Valid() && IsInternalPage(bpm, id, page) && |bpm.pins| < PIN_LIMIT
    requires id in bpm.image.nodes && bpm.image.nodes[id].Internal?
    requires var s := bpm.image.nodes[id].slots; forall j :: 0 <= j < |s| ==> s[j].value in bpm.image.nodes && s[j].value != id
    modifies bpm`trace, bpm`pins, bpm`image, bpm.Repr
    ensures bpm.Valid() && bpm.pins == old(bpm.pins)
    ensures bpm.image.nodes == Reparent(old(bpm.image.nodes), Children(old(bpm.image.nodes)[id].slots), p)
  {
    ghost var t, s := bpm.image.nodes, bpm.image.nodes[id].slots;
    assert bpm.Agrees(id);
    var i := 0;
    assert t == Reparent(t, Children(s[..0]), p);
    while i < page.size
      invariant bpm.Valid() && bpm.pins == old(bpm.pins)
      invariant 0 <= i <= page.size == |s| && bpm.image.nodes[id].Internal? && bpm.image.nodes[id].slots == s
      invariant bpm.image.nodes == Reparent(t, Children(s[..i]), p)
      modifies bpm`trace, bpm`pins, bpm`image, bpm.Repr
      decreases |s| - i
    {
      ReparentNext(t, s, i, p);
      assert bpm.image.nodes[id].slots[i] == s[i];
      AdoptChild(bpm, id, page, i, p);
      assert bpm.Agrees(id);
      i := i + 1;
    }
    assert s[..i] == s;
  }

  /** Makes page `p` the parent of child `i` of the pinned page `id`. */
  method AdoptChild(bpm: PageStore, id: PageId, page: InternalPage, i: nat, p: PageId)
    requires bpm.Valid() && IsInternalPage(bpm, id, page) && |bpm.pins| < PIN_LIMIT
    requires id in bpm.image.nodes && bpm.image.nodes[id].Internal? && i < |bpm.image.nodes[id].slots|
    requires var c := bpm.image.nodes[id].slots[i].value; c in bpm.image.nodes && c != id
    modifies bpm`trace, bpm`pins, bpm`image, bpm.Repr
    ensures bpm.Valid() && bpm.pins == old(bpm.pins)
    ensures var c := old(bpm.image.nodes)[id].slots[i].value;
            bpm.image.nodes == old(bpm.image.nodes)[c := old(bpm.image.nodes)[c].(parent := p)]

  {
    assert bpm.Agrees(id);
    var c := page.data[i].value;
    assert bpm.Agrees(c) && bpm.table[c].Apart(bpm.table[id]);
    Adopt(bpm, c, p);
  }

  /** Fetches page `c`, sets its parent pointer and unpins it. */
  method Adopt(bpm: PageStore, c: PageId, p: PageId)
    requires bpm.Valid() && c in bpm.table && |bpm.pins| < PIN_LIMIT
    modifies bpm`trace, bpm`pins, bpm`image, bpm.table[c].Objects()
    ensures bpm.Valid() && bpm.pins == old(bpm.pins)
    ensures c in old(bpm.image.nodes) && bpm.image.nodes == old(bpm.image.nodes)[c := old(bpm.image.nodes)[c].(parent := p)]
  {
    hide Leads;
    var child := bpm.FetchPage(c);
    SetParentOnPage(bpm, c, child, p);
    var ok := bpm.UnpinPage(c, true);
  }

  /** Gives the parent of page `l` a slot for `r` and fetches it; `l` and `r` are unpinned. */
  method LinkSlot(bpm: PageStore, l: PageId, mid: int32, r: PageId) returns (q: PageId, page: InternalPage)
    requires bpm.Valid() && bpm.pins == multiset{l, r} && l in bpm.image.nodes && r in bpm.image.nodes && l != r
    requires Linked(bpm.image.nodes, l) && bpm.image.nodes[l].parent !in {l, r}
    requires bpm.image.nodes[bpm.image.nodes[l].parent].Size() <= bpm.table[bpm.image.nodes[l].parent].MaxSize()
    modifies bpm`trace, bpm`pins, bpm`image, bpm.Repr
    ensures bpm.Valid() && bpm.pins == multiset{q} && q == old(bpm.image.nodes)[l].parent
    ensures bpm.image.nodes == AttachParent(old(bpm.image.nodes), l, mid, r)
    ensures IsInternalPage(bpm, q, page)
  {
    hide Leads;
    ghost var t := bpm.image.nodes;
    assert bpm.Agrees(r);
    q, page := FetchParent(bpm, l, r);
    InsertSlotOnPage(bpm, q, page, l, mid, r);
    AttachParentInOrder(t, l, mid, r);
    UnpinTwo(bpm, l, r);
  }

  /** Makes the parent of `l` the parent of `r` as well, and fetches it. */
  method FetchParent(bpm: PageStore, l: PageId, r: PageId) returns (q: PageId, page: InternalPage)
    requires bpm.Valid() && bpm.pins == multiset{l, r} && l in bpm.image.nodes && r in bpm.image.nodes && l != r
    requires Linked(bpm.image.nodes, l) && bpm.image.nodes[l].parent !in {l, r}
    modifies bpm`trace, bpm`pins, bpm`image, bpm.table[r].Objects()
    ensures bpm.Valid() && bpm.pins == multiset{l, r, q} && q == old(bpm.image.nodes)[l].parent
    ensures bpm.image.nodes == old(bpm.image.nodes)[r := old(bpm.image.nodes)[r].(parent := q)]
    ensures IsInternalPage(bpm, q, page) && page.maxSize == bpm.table[q].MaxSize() && {page, page.data} <= bpm.Repr
  {
    assert bpm.Agrees(l) && bpm.Agrees(r);
    q := bpm.table[l].Parent();
    assert bpm.Agrees(q);
    SetParentOnPage(bpm, r, bpm.table[r], q);
    var parent := bpm.FetchPage(q);
    assert bpm.Agrees(q);
    page := parent.internal;
  }

  lemma AttachParentInOrder(t: Nodes, l: PageId, mid: int32, r: PageId)
    requires l in t && r in t && Linked(t, l) && t[l].parent !in {l, r}
    ensures var q := t[l].parent;
            var s := t[q].slots;
            t[r := t[r].(parent := q)][q := t[q].(slots := InsertSlot(s, ChildIndex(s, l) + 1, Entry(mid, r)))]
            == AttachParent(t, l, mid, r)
  {
  }

  /** Moves the upper half of the children of `l` to the new page `r`. */
  method DivideSlots(bpm: PageStore, l: PageId, page: InternalPage, r: PageId, newPage: InternalPage, ghost t: Nodes)
    returns (middle: int32)
    requires bpm.Valid() && IsInternalPage(bpm, l, page) && IsInternalPage(bpm, r, newPage) && l != r
    requires |bpm.pins| < PIN_LIMIT
    requires r !in t && bpm.image.nodes == t[r := Internal(INVALID_PAGE_ID, [])]
    requires l in t && t[l].Internal? && 0 < t[l].Size() <= newPage.maxSize + 1
    requires forall j :: 0 <= j < |t[l].slots| ==> t[l].slots[j].value in t && t[l].slots[j].value !in {l, r}
    modifies bpm`trace, bpm`pins, bpm`image, bpm.Repr
    ensures bpm.Valid() && bpm.pins == old(bpm.pins)
    ensures bpm.image.nodes == SplitInternal(t, l, r, t[l].Size() / 2)
    ensures middle == t[l].slots[t[l].Size() / 2].key
  {
    hide Leads;
    assert bpm.Agrees(l) && bpm.Agrees(r) && page.Slots() == t[l].slots;
    middle := page.data[page.size / 2].key;
    SplitSlots(bpm, l, page, r, newPage);
    ReparentChildren(bpm, r, newPage, r);
  }

  /** Unpins the one page that is pinned. */
  method UnpinLast(bpm: PageStore, id: PageId, isDirty: bool)
    requires bpm.Valid() && bpm.pins == multiset{id}
    requires !isDirty ==> id !in bpm.image.unsaved
    modifies bpm`trace, bpm`pins, bpm`image
    ensures bpm.Valid() && bpm.pins == multiset{} && bpm.image.nodes == old(bpm.image.nodes)
  {
    var ok := bpm.UnpinPage(id, isDirty);
  }

  /** Unpins two written pages. */
  method UnpinTwo(bpm: PageStore, a: PageId, b: PageId)
    requires bpm.Valid() && a in bpm.pins && b in bpm.pins && a != b
    modifies bpm`trace, bpm`pins, bpm`image
    ensures bpm.Valid() && bpm.image.nodes == old(bpm.image.nodes)
    ensures bpm.pins == old(bpm.pins) - multiset{a} - multiset{b}
    ensures old(bpm.pins) == multiset{a, b} ==> bpm.pins == multiset{}
    ensures forall c :: c !in {a, b} && old(bpm.pins) == multiset{a, b, c} ==> bpm.pins == multiset{c}
  {
    var ok := bpm.UnpinPage(a, true);
    ok := bpm.UnpinPage(b, true);
  }

  /** Unpins three written pages. */
  method UnpinThree(bpm: PageStore, a: PageId, b: PageId, c: PageId)
    requires bpm.Valid() && a in bpm.pins && b in bpm.pins && c in bpm.pins && a != b && a != c && b != c
    modifies bpm`trace, bpm`pins, bpm`image
    ensures bpm.Valid() && bpm.image.nodes == old(bpm.image.nodes)
    ensures old(bpm.pins) == multiset{a, b, c} ==> bpm.pins == multiset{}
  {
    UnpinTwo(bpm, a, b);
    var ok := bpm.UnpinPage(c, true);
  }
}
