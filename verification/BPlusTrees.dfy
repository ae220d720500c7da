/** The B+ tree index: lookups, insertion with splits and deletion with borrowing and merging. */
module BPlusTrees {
  import opened Types
  import opened TreePages
  import opened TreeShape
  import opened TreeSteps
  import opened TreeRemovalSteps
  import opened TreeInternalRemovalSteps
  import opened PageStores
  import opened PageEdits
  import opened RemovalEdits
  import opened TreeIterators

  /** Height and range of every page, and the map the index stands for. */
  datatype Model = Model(info: Infos, contents: map<int32, Rid>)

  class BPlusTree {
    const bpm: PageStore
    const leafMaxSize: nat
    const internalMaxSize: nat
    var rootPageId: PageId
    ghost var model: Model

    /** The pages are in order and have the sizes this tree gives them. */
    ghost predicate Ready()
      reads this, bpm, bpm.Repr
    {
      && this !in bpm.Repr
      && bpm.Valid()
      && 2 <= leafMaxSize && 3 <= internalMaxSize
      && Configured(bpm.table)
    }

    ghost predicate Configured(table: map<PageId, PageRef>) {
      forall id {:trigger table[id].MaxSize()} :: id in table ==>
        table[id].MaxSize() == if table[id].LeafRef? then leafMaxSize else internalMaxSize
    }

    /** The pages form a search tree whose leaves hold `contents`; pages in `except` may have any size. */
    ghost predicate Holding(except: set<PageId>)
      reads this, bpm
    {
      TreeOver(bpm.image.nodes, model.info, rootPageId, model.contents, leafMaxSize, internalMaxSize, except)
    }

    /** Between operations nothing is pinned and every page in the store belongs to the tree. */
    ghost predicate Valid()
      reads this, bpm, bpm.Repr
    {
      && Ready()
      && bpm.pins == multiset{}
      && if rootPageId == INVALID_PAGE_ID then bpm.table == map[] && model.contents == map[] else Holding({})
    }

    constructor (bpm: PageStore, leafMaxSize: nat, internalMaxSize: nat)
      requires bpm.Valid() && bpm.table == map[] && bpm.pins == multiset{}
      requires 2 <= leafMaxSize && 3 <= internalMaxSize
      ensures Valid() && this.bpm == bpm && model.contents == map[] && rootPageId == INVALID_PAGE_ID
      ensures this.leafMaxSize == leafMaxSize && this.internalMaxSize == internalMaxSize
    {
      this.bpm, this.leafMaxSize, this.internalMaxSize := bpm, leafMaxSize, internalMaxSize;
      rootPageId, model := INVALID_PAGE_ID, Model(map[], map[]);
    }

    predicate IsEmpty()
      reads this
    {
      rootPageId == INVALID_PAGE_ID
    }

    // ---------- New pages ----------

    method NewLeaf() returns (id: PageId, leaf: LeafPage)
      requires Ready() && |bpm.pins| < PIN_LIMIT
      modifies bpm
      ensures Ready() && fresh(bpm.Repr - old(bpm.Repr)) && old(bpm.Repr) <= bpm.Repr && fresh(leaf) && fresh(leaf.data)
      ensures IsOurLeaf(id, leaf) && id != INVALID_PAGE_ID && id !in old(bpm.image.nodes)
      ensures bpm.pins == old(bpm.pins) + multiset{id}
      ensures bpm.table == old(bpm.table)[id := LeafRef(leaf)]
      ensures bpm.image.nodes == old(bpm.image.nodes)[id := Leaf(INVALID_PAGE_ID, INVALID_PAGE_ID, [])]
    {
      id, leaf := bpm.NewLeafPage(leafMaxSize);
      assert bpm.Agrees(id);
    }

    method NewInternal() returns (id: PageId, page: InternalPage)
      requires Ready() && |bpm.pins| < PIN_LIMIT
      modifies bpm
      ensures Ready() && fresh(bpm.Repr - old(bpm.Repr)) && old(bpm.Repr) <= bpm.Repr && fresh(page) && fresh(page.data)
      ensures IsOurPage(id, page) && id != INVALID_PAGE_ID && id !in old(bpm.image.nodes)
      ensures bpm.pins == old(bpm.pins) + multiset{id}
      ensures bpm.table == old(bpm.table)[id := InternalRef(page)]
      ensures bpm.image.nodes == old(bpm.image.nodes)[id := Internal(INVALID_PAGE_ID, [])]
    {
      id, page := bpm.NewInternalPage(internalMaxSize);
      assert bpm.Agrees(id);
    }

    // ---------- Descending to a leaf ----------

    /** Page `id` is the one page pinned, it has not been written, and it is responsible for `key`. */
    ghost predicate At(id: PageId, page: PageRef, key: int)
      reads this, bpm, bpm.Repr
    {
      && Ready() && bpm.pins == multiset{id}
      && Shape(bpm.image.nodes, model.info, rootPageId)
      && id in bpm.table && bpm.table[id] == page && Covers(model.info[id], key)
      && id !in bpm.image.unsaved
    }

    method StepDown(id: PageId, node: InternalPage, key: int32) returns (next: PageId, page: PageRef)
      requires At(id, InternalRef(node), key)
      modifies bpm`trace, bpm`pins, bpm`image
      ensures bpm.image.nodes == old(bpm.image.nodes)
      ensures At(next, page, key) && model.info[next].level < model.info[id].level
    {
      assert bpm.Agrees(id);
      assert PageOk(bpm.image.nodes, model.info, model.info, rootPageId, INVALID_PAGE_ID, id);
      next := node.Lookup(key);
      ghost var i :| Routes(bpm.image.nodes[id].slots, key, i) && bpm.image.nodes[id].slots[i].value == next;
      ChildFacts(bpm.image.nodes, model.info, rootPageId, id, i);
      var ok := bpm.UnpinPage(id, false);
      assert next !in bpm.image.unsaved;
      page := bpm.FetchPage(next);
    }

    /** Walks from the root to the leaf responsible for `key` and leaves it pinned. */
    method FindLeaf(key: int32) returns (id: PageId, leaf: LeafPage)
      requires Ready() && bpm.pins == multiset{} && Shape(bpm.image.nodes, model.info, rootPageId)
      modifies bpm`trace, bpm`pins, bpm`image
      ensures At(id, LeafRef(leaf), key) && IsOurLeaf(id, leaf)
      ensures bpm.image.nodes == old(bpm.image.nodes)
    {
      id := rootPageId;
      assert PageOk(bpm.image.nodes, model.info, model.info, rootPageId, INVALID_PAGE_ID, id);
      var page := bpm.FetchPage(id);
      while page.InternalRef?
        invariant At(id, page, key) && bpm.image.nodes == old(bpm.image.nodes)
        decreases model.info[id].level
      {
        id, page := StepDown(id, page.internal, key);
      }
      leaf := page.leaf;
      assert bpm.Agrees(id) && page.MaxSize() == leafMaxSize;
    }

    /** `leaf` is the pinned leaf `id` of this tree. */
    ghost predicate IsOurLeaf(id: PageId, leaf: LeafPage)
      reads this, bpm, leaf
    {
      && IsLeafPage(bpm, id, leaf) && leaf in bpm.Repr && leaf.data in bpm.Repr && leaf.maxSize == leafMaxSize
      && id in bpm.image.nodes && bpm.image.nodes[id].Leaf? && bpm.image.nodes[id].Size() == leaf.size
    }

    method GetValue(key: int32) returns (result: Option<Rid>)
      requires Valid()
      modifies bpm`trace, bpm`pins, bpm`image
      ensures Valid()
      ensures result == if key in model.contents then Some(model.contents[key]) else None
    {
      if IsEmpty() {
        return None;
      }
      var id, leaf := FindLeaf(key);
      assert bpm.Agrees(id);
      ghost var records := leaf.Records();
      assert bpm.image.nodes[id].records == records;
      assert PageOk(bpm.image.nodes, model.info, model.info, rootPageId, INVALID_PAGE_ID, id);
      result := leaf.Lookup(key);
      assert result.Some? ==> Entry(key, result.value) in records;
      assert result.None? ==> forall i :: 0 <= i < |records| ==> records[i].key != key;
      LookupIsContents(id, key, result);
      UnpinLast(bpm, id, false);
    }

    lemma LookupIsContents(id: PageId, key: int32, result: Option<Rid>)
      requires Holding({}) && id in bpm.image.nodes && bpm.image.nodes[id].Leaf? && id in model.info && Covers(model.info[id], key)
      requires result.Some? ==> Entry(key, result.value) in bpm.image.nodes[id].records
      requires result.None? ==> forall i :: 0 <= i < |bpm.image.nodes[id].records| ==> bpm.image.nodes[id].records[i].key != key
      ensures result == if key in model.contents then Some(model.contents[key]) else None
    {
      if result.Some? {
        StoredWhereCovered(bpm.image.nodes, model.info, rootPageId, id, key, result.value);
      } else if key in model.contents {
        StoredWhereCovered(bpm.image.nodes, model.info, rootPageId, id, key, model.contents[key]);
      }
    }

    // ---------- Iteration ----------

    /** This tree, as an iterator walks over it. */
    ghost function Walked(): Walk
      reads this
    {
      Walk(model.info, rootPageId, model.contents, leafMaxSize, internalMaxSize)
    }

    /** An iterator at the least key. */
    method Begin() returns (it: TreeIterator)
      requires Valid()
      modifies bpm`trace, bpm`pins, bpm`image
      ensures Valid() && fresh(it) && it.bpm == bpm && it.At(Walked(), INT32_MIN)
    {
      if IsEmpty() {
        it := new TreeIterator(bpm, INVALID_PAGE_ID, 0);
        return;
      }
      var id, leaf := FindFirstLeaf();
      assert PageOk(bpm.image.nodes, model.info, model.info, rootPageId, INVALID_PAGE_ID, id);
      LeavesHoldRecords(bpm.image.nodes, Walked(), id);
      LowerBoundUnique(bpm.image.nodes[id].records, INT32_MIN, 0);
      Settle(bpm.image.nodes, Walked(), id, INT32_MIN, 0);
      UnpinLast(bpm, id, false);
      it := new TreeIterator(bpm, id, 0);
    }

    /** An iterator at the least key that is not below `key`. */
    method BeginAt(key: int32) returns (it: TreeIterator)
      requires Valid()
      modifies bpm`trace, bpm`pins, bpm`image
      ensures Valid() && fresh(it) && it.bpm == bpm && it.At(Walked(), key)
    {
      if IsEmpty() {
        it := new TreeIterator(bpm, INVALID_PAGE_ID, 0);
        return;
      }
      var id, leaf := FindLeaf(key);
      var pageId, index := KeyPlace(id, leaf, key);
      UnpinLast(bpm, id, false);
      it := new TreeIterator(bpm, pageId, index);
    }

    /** The place of `key` in its leaf, or the start of the next one when that is past the end. */
    method KeyPlace(id: PageId, leaf: LeafPage, key: int32) returns (pageId: PageId, index: nat)
      requires At(id, LeafRef(leaf), key) && IsOurLeaf(id, leaf) && Holding({})
      ensures FirstFrom(bpm.image.nodes, model.contents, key, pageId, index)
    {
      assert bpm.Agrees(id) && bpm.image.nodes[id].records == leaf.Records();
      assert PageOk(bpm.image.nodes, model.info, model.info, rootPageId, INVALID_PAGE_ID, id);
      index := leaf.KeyIndex(key);
      Settle(bpm.image.nodes, Walked(), id, key, index);
      pageId := id;
      if index >= leaf.size {
        pageId, index := leaf.nextPageId, 0;
      }
    }

    method End() returns (it: TreeIterator)
      ensures fresh(it) && it.pageId == INVALID_PAGE_ID && it.index == 0
    {
      it := new TreeIterator(bpm, INVALID_PAGE_ID, 0);
    }

    /** Walks down the first children and leaves the first leaf pinned. */
    method FindFirstLeaf() returns (id: PageId, leaf: LeafPage)
      requires Ready() && bpm.pins == multiset{} && Shape(bpm.image.nodes, model.info, rootPageId)
      modifies bpm`trace, bpm`pins, bpm`image
      ensures At(id, LeafRef(leaf), INT32_MIN) && IsOurLeaf(id, leaf)
      ensures bpm.image.nodes == old(bpm.image.nodes)
    {
      id := rootPageId;
      assert PageOk(bpm.image.nodes, model.info, model.info, rootPageId, INVALID_PAGE_ID, id);
      var page := bpm.FetchPage(id);
      while page.InternalRef?
        invariant At(id, page, INT32_MIN) && bpm.image.nodes == old(bpm.image.nodes)
        decreases model.info[id].level
      {
        id, page := StepDownFirst(id, page.internal);
      }
      leaf := page.leaf;
      assert bpm.Agrees(id) && page.MaxSize() == leafMaxSize;
    }

    method StepDownFirst(id: PageId, node: InternalPage) returns (next: PageId, page: PageRef)
      requires At(id, InternalRef(node), INT32_MIN)
      modifies bpm`trace, bpm`pins, bpm`image
      ensures bpm.image.nodes == old(bpm.image.nodes)
      ensures At(next, page, INT32_MIN) && model.info[next].level < model.info[id].level
    {
      assert bpm.Agrees(id);
      assert PageOk(bpm.image.nodes, model.info, model.info, rootPageId, INVALID_PAGE_ID, id);
      next := node.data[0].value;
      assert node.Slots()[0].value == next;
      ChildFacts(bpm.image.nodes, model.info, rootPageId, id, 0);
      var ok := bpm.UnpinPage(id, false);
      assert next !in bpm.image.unsaved;
      page := bpm.FetchPage(next);
    }

    // ---------- Insertion ----------

    method Insert(key: int32, value: Rid) returns (inserted: bool)
      requires Valid()
      modifies this, bpm, bpm.Repr
      ensures Valid() && fresh(bpm.Repr - old(bpm.Repr))
      ensures inserted <==> key !in old(model.contents)
      ensures model.contents == if inserted then old(model.contents)[key := value] else old(model.contents)
    {
      if IsEmpty() {
        InsertFirst(key, value);
        return true;
      }
      var id, leaf := FindLeaf(key);
      inserted := InsertIntoLeaf(id, leaf, key, value);
      if !inserted {
        UnpinLast(bpm, id, false);
        return;
      }
      if leaf.size <= leaf.maxSize {
        UnpinLast(bpm, id, true);
        return;
      }
      SplitUpward(id, leaf);
    }

    method InsertIntoLeaf(id: PageId, leaf: LeafPage, key: int32, value: Rid) returns (inserted: bool)
      requires At(id, LeafRef(leaf), key) && IsOurLeaf(id, leaf) && Holding({})
      modifies this`model, bpm`trace, bpm`image, leaf, leaf.data
      ensures Ready() && IsOurLeaf(id, leaf)
      ensures inserted <==> key !in old(model.contents)
      ensures model.contents == if inserted then old(model.contents)[key := value] else old(model.contents)
      ensures !inserted ==> bpm.image == old(bpm.image)
      ensures Holding(if leaf.size <= leafMaxSize then {} else {id})
      ensures leaf.size <= leafMaxSize + 1
    {
      var oldSize := leaf.size;
      InsertionSize(bpm.image.nodes, model.info, rootPageId, id, key, value, model.contents, leafMaxSize, internalMaxSize);
      var newSize := InsertRecordOnPage(bpm, id, leaf, key, value);
      inserted := oldSize != newSize;
      if inserted {
        model := model.(contents := model.contents[key := value]);
      }
    }

    method SplitLeafPage(id: PageId, leaf: LeafPage) returns (right: PageId, middle: int32)
      requires Ready() && bpm.pins == multiset{id} && IsOurLeaf(id, leaf) && Holding({id})
      requires leaf.size == leafMaxSize + 1
      modifies this`model, bpm, leaf, leaf.data
      ensures Ready() && fresh(bpm.Repr - old(bpm.Repr)) && bpm.pins == multiset{id, right}
      ensures Pending(id, middle, right) && model.contents == old(model.contents)
    {
      var newLeaf;
      right, newLeaf := NewLeaf();
      middle := DivideLeaf(id, leaf, right, newLeaf, old(bpm.image.nodes));
    }

    method DivideLeaf(id: PageId, leaf: LeafPage, right: PageId, newLeaf: LeafPage, ghost t: Nodes) returns (middle: int32)
      requires Ready() && bpm.pins == multiset{id, right} && id != right && right != INVALID_PAGE_ID
      requires IsLeafPage(bpm, id, leaf) && IsLeafPage(bpm, right, newLeaf) && newLeaf.maxSize == leafMaxSize
      requires right !in t && bpm.image.nodes == t[right := Leaf(INVALID_PAGE_ID, INVALID_PAGE_ID, [])]
      requires TreeOver(t, model.info, rootPageId, model.contents, leafMaxSize, internalMaxSize, {id})
      requires id in t && t[id].Leaf? && t[id].Size() == leafMaxSize + 1
      modifies this`model, bpm`trace, bpm`image, leaf, leaf.data, newLeaf, newLeaf.data
      ensures Ready() && Pending(id, middle, right) && model.contents == old(model.contents)
    {
      SplitLeafPending(t, model.info, rootPageId, model.contents, leafMaxSize, internalMaxSize, id, right, bpm.image.nodes[right]);
      SplitLeafOnPages(bpm, id, leaf, right, newLeaf);
      assert bpm.Agrees(right);
      middle := newLeaf.data[0].key;
      model := model.(info := SplitInfos(model.info, id, right, middle));
    }

    /** Splits an overfull leaf, and then ancestors as far up as needed. */
    method SplitUpward(id: PageId, leaf: LeafPage)
      requires Ready() && bpm.pins == multiset{id} && IsOurLeaf(id, leaf) && Holding({id})
      requires leaf.size == leafMaxSize + 1
      modifies this, bpm, bpm.Repr
      ensures Valid() && fresh(bpm.Repr - old(bpm.Repr)) && model.contents == old(model.contents)
    {
      hide Leads;
      var l := id;
      var r, mid := SplitLeafPage(id, leaf);
      var done := false;
      ParentIsInvalidOnlyAtRoot(l, mid, r);
      while !done
        invariant Ready() && fresh(bpm.Repr - old(bpm.Repr)) && model.contents == old(model.contents)
        invariant done ==> Valid()
        invariant !done ==> bpm.pins == multiset{l, r} && Pending(l, mid, r) && l in model.info && rootPageId in model.info
        invariant !done ==> model.info[l].level <= model.info[rootPageId].level
        decreases !done, if done then 0 else model.info[rootPageId].level - model.info[l].level
      {
        done, l, mid, r := LinkHalf(l, mid, r);
      }
    }

    /**
     Links the right half `r` of the split page `l` into the parent, or into a new root.  When
     that overfills the parent, splits it and leaves its two halves to be linked.
     */
    method LinkHalf(l: PageId, mid: int32, r: PageId) returns (done: bool, l': PageId, mid': int32, r': PageId)
      requires Ready() && bpm.pins == multiset{l, r} && Pending(l, mid, r) && l in model.info
      modifies this, bpm, bpm.Repr
      ensures Ready() && fresh(bpm.Repr - old(bpm.Repr)) && model.contents == old(model.contents)
      ensures done ==> Valid()
      ensures !done ==> bpm.pins == multiset{l', r'} && Pending(l', mid', r') && l' in model.info
      ensures !done ==> rootPageId == old(rootPageId) && rootPageId in model.info && rootPageId in old(model.info)
      ensures !done ==> 0 <= model.info[rootPageId].level - model.info[l'].level
                        < old(model.info[rootPageId].level - model.info[l].level)
    {
      hide Leads;
      l', mid', r' := l, mid, r;
      ParentIsInvalidOnlyAtRoot(l, mid, r);
      assert bpm.Agrees(l);
      if bpm.table[l].Parent() == INVALID_PAGE_ID {
        GrowRoot(l, mid, r);
        return true, l', mid', r';
      }
      var page;
      l', page := LinkIntoParent(l, mid, r);
      if page.size <= page.maxSize {
        UnpinLast(bpm, l', true);
        return true, l', mid', r';
      }
      r', mid' := SplitInternalPage(l', page);
      return false, l', mid', r';
    }

    lemma ParentIsInvalidOnlyAtRoot(l: PageId, mid: int32, r: PageId)
      requires Pending(l, mid, r)
      ensures l in bpm.image.nodes && (bpm.image.nodes[l].parent == INVALID_PAGE_ID <==> l == rootPageId)
      ensures r in bpm.image.nodes && l != r && l in model.info && rootPageId in model.info
      ensures model.info[l].level <= model.info[rootPageId].level
    {
      assert PageOk(bpm.image.nodes, model.info, Seen(model.info, l, r), rootPageId, r, l);
    }

    method GrowRoot(l: PageId, mid: int32, r: PageId)
      requires Ready() && bpm.pins == multiset{l, r} && Pending(l, mid, r) && l == rootPageId
      modifies this, bpm, bpm.Repr
      ensures Valid() && fresh(bpm.Repr - old(bpm.Repr)) && model.contents == old(model.contents)
    {
      var top, page := NewInternal();
      FillRoot(l, mid, r, top, page, old(bpm.image.nodes));
      UnpinThree(bpm, top, l, r);
    }

    method FillRoot(l: PageId, mid: int32, r: PageId, top: PageId, page: InternalPage, ghost t: Nodes)
      requires Ready() && bpm.pins == multiset{l, r, top} && IsInternalPage(bpm, top, page) && page.maxSize == internalMaxSize
      requires top != INVALID_PAGE_ID && top !in t && bpm.image.nodes == t[top := Internal(INVALID_PAGE_ID, [])]
      requires PendingOver(t, model.info, rootPageId, model.contents, leafMaxSize, internalMaxSize, l, mid, r) && l == rootPageId
      modifies this, bpm`trace, bpm`image, bpm.Repr
      ensures Ready() && Holding({}) && model.contents == old(model.contents) && rootPageId == top
    {
      ghost var junk := MakeRoot(bpm, l, mid, r, top, page, t);
      AttachRootTree(t, model.info, model.contents, leafMaxSize, internalMaxSize, l, mid, r, top, junk);
      rootPageId := top;
      model := model.(info := AttachRootInfos(model.info, l, top));
    }

    method LinkIntoParent(l: PageId, mid: int32, r: PageId) returns (q: PageId, page: InternalPage)
      requires Ready() && bpm.pins == multiset{l, r} && Pending(l, mid, r) && l != rootPageId && l in model.info
      modifies bpm`trace, bpm`pins, bpm`image, bpm.Repr
      ensures Ready() && bpm.pins == multiset{q} && IsOurPage(q, page)
      ensures q in model.info && rootPageId in model.info
      ensures model.info[q].level == model.info[l].level + 1 <= model.info[rootPageId].level
      ensures page.size <= internalMaxSize + 1 && Holding(if page.size <= internalMaxSize then {} else {q})
    {
      AttachParentTree(bpm.image.nodes, model.info, rootPageId, model.contents, leafMaxSize, internalMaxSize, l, mid, r);
      assert bpm.Agrees(bpm.image.nodes[l].parent) && bpm.table[bpm.image.nodes[l].parent].MaxSize() == internalMaxSize;
      q, page := LinkSlot(bpm, l, mid, r);
      assert bpm.Agrees(q);
    }

    /** `page` is the pinned internal page `id` of this tree. */
    ghost predicate IsOurPage(id: PageId, page: InternalPage)
      reads this, bpm, page
    {
      && IsInternalPage(bpm, id, page) && page in bpm.Repr && page.data in bpm.Repr && page.maxSize == internalMaxSize
      && id in bpm.image.nodes && bpm.image.nodes[id].Internal? && bpm.image.nodes[id].Size() == page.size
    }

    method SplitInternalPage(id: PageId, page: InternalPage) returns (right: PageId, middle: int32)
      requires Ready() && bpm.pins == multiset{id} && IsOurPage(id, page) && Holding({id})
      requires page.size == internalMaxSize + 1
      modifies this`model, bpm, bpm.Repr
      ensures Ready() && fresh(bpm.Repr - old(bpm.Repr)) && bpm.pins == multiset{id, right}
      ensures Pending(id, middle, right) && model.contents == old(model.contents)
      ensures forall p :: p in old(model.info) ==> p in model.info && model.info[p].level == old(model.info)[p].level
    {
      var newPage;
      right, newPage := NewInternal();
      middle := DivideInternal(id, page, right, newPage, old(bpm.image.nodes));
    }

    method DivideInternal(id: PageId, page: InternalPage, right: PageId, newPage: InternalPage, ghost t: Nodes)
      returns (middle: int32)
      requires Ready() && bpm.pins == multiset{id, right} && id != right && right != INVALID_PAGE_ID
      requires IsInternalPage(bpm, id, page) && IsInternalPage(bpm, right, newPage) && newPage.maxSize == internalMaxSize
      requires right !in t && bpm.image.nodes == t[right := Internal(INVALID_PAGE_ID, [])]
      requires TreeOver(t, model.info, rootPageId, model.contents, leafMaxSize, internalMaxSize, {id})
      requires id in t && t[id].Internal? && t[id].Size() == internalMaxSize + 1
      modifies this`model, bpm`trace, bpm`pins, bpm`image, bpm.Repr
      ensures Ready() && bpm.pins == old(bpm.pins) && Pending(id, middle, right) && model.contents == old(model.contents)
      ensures forall p :: p in old(model.info) ==> p in model.info && model.info[p].level == old(model.info)[p].level
    {
      SplitInternalPending(t, model.info, rootPageId, model.contents, leafMaxSize, internalMaxSize, id, right);
      middle := DivideSlots(bpm, id, page, right, newPage, t);
      model := model.(info := SplitInfos(model.info, id, right, middle));
    }

    /** Page `l` has been split and its right half `r`, which starts at `middle`, has no slot in a parent yet. */
    ghost predicate Pending(l: PageId, middle: int32, r: PageId)
      reads this, bpm
    {
      PendingOver(bpm.image.nodes, model.info, rootPageId, model.contents, leafMaxSize, internalMaxSize, l, middle, r)
    }

    method InsertFirst(key: int32, value: Rid)
      requires Valid() && rootPageId == INVALID_PAGE_ID
      modifies this, bpm
      ensures Valid() && fresh(bpm.Repr - old(bpm.Repr))
      ensures model.contents == map[key := value]
    {
      var id, leaf := NewLeaf();
      FirstPage(id, leaf, key, value);
      UnpinLast(bpm, id, true);
    }

    method FirstPage(id: PageId, leaf: LeafPage, key: int32, value: Rid)
      requires Ready() && IsOurLeaf(id, leaf) && id != INVALID_PAGE_ID
      requires bpm.image.nodes == map[id := Leaf(INVALID_PAGE_ID, INVALID_PAGE_ID, [])]
      modifies this, bpm`trace, bpm`image, leaf, leaf.data
      ensures Ready() && Holding({}) && rootPageId == id && model.contents == map[key := value]
    {
      InsertIntoEmpty(Entry(key, value));
      rootPageId := id;
      var size := InsertRecordOnPage(bpm, id, leaf, key, value);
      model := Model(SingletonInfos(id), map[key := value]);
      SingletonTree(bpm.image.nodes, id, Entry(key, value), leafMaxSize, internalMaxSize);
    }

    // ---------- Deletion ----------

    method Remove(key: int32)
      requires Valid()
      modifies this, bpm, bpm.Repr
      ensures Valid() && bpm.Repr == old(bpm.Repr) && model.contents == old(model.contents) - {key}
    {
      if IsEmpty() {
        return;
      }
      var id, leaf := FindLeaf(key);
      assert bpm.Agrees(id);
      ShortLeaf(id);
      if leaf.parentPageId == INVALID_PAGE_ID {
        RemoveFromRoot(id, leaf, key);
      } else {
        RemoveFromChild(id, leaf, leaf.parentPageId, key);
      }
    }

    lemma ShortLeaf(id: PageId)
      requires Holding({}) && id in bpm.image.nodes && 3 <= internalMaxSize
      ensures bpm.image.nodes[id].parent == INVALID_PAGE_ID <==> id == rootPageId
      ensures id != rootPageId ==> Linked(bpm.image.nodes, id) && bpm.image.nodes[id].parent != id
    {
      ExceptMore(bpm.image.nodes, model.info, rootPageId, model.contents, leafMaxSize, internalMaxSize, {}, {id});
      ShortPageFacts(bpm.image.nodes, model.info, rootPageId, model.contents, leafMaxSize, internalMaxSize, id);
    }

    /** Takes the record of `key` off the leaf that is responsible for it. */
    method TakeRecord(id: PageId, leaf: LeafPage, key: int32) returns (removed: bool)
      requires Ready() && Holding({}) && IsOurLeaf(id, leaf) && id in model.info && Covers(model.info[id], key)
      modifies this`model, bpm`trace, bpm`image, leaf, leaf.data
      ensures Ready() && IsOurLeaf(id, leaf) && Holding({id}) && model.info == old(model.info)
      ensures model.contents == old(model.contents) - {key}
      ensures bpm.image.nodes[id].parent == old(bpm.image.nodes)[id].parent
      ensures bpm.image.unsaved == old(bpm.image.unsaved) + Changed(old(bpm.image.nodes), bpm.image.nodes)
      ensures forall p :: p in old(bpm.image.nodes) && p != id ==> p in bpm.image.nodes && bpm.image.nodes[p] == old(bpm.image.nodes)[p]
      ensures !removed ==> bpm.image.nodes == old(bpm.image.nodes) && Holding({})
      ensures removed && id != rootPageId ==> MinSize(true, leafMaxSize) <= leaf.size + 1 <= leafMaxSize
      ensures MinSize(true, leafMaxSize) <= leaf.size || (id == rootPageId && 0 < leaf.size) ==> Holding({})
    {
      var oldSize := leaf.size;
      RemovalEffect(bpm.image.nodes, model.info, rootPageId, id, key, model.contents, leafMaxSize, internalMaxSize);
      var newSize := RemoveRecordOnPage(bpm, id, leaf, key);
      removed := newSize != oldSize;
      model := model.(contents := model.contents - {key});
      if SizeOk(bpm.image.nodes[id], id == rootPageId, leafMaxSize, internalMaxSize) {
        ExceptNone(bpm.image.nodes, model.info, rootPageId, model.contents, leafMaxSize, internalMaxSize, id);
      }
    }

    method RemoveFromRoot(id: PageId, leaf: LeafPage, key: int32)
      requires At(id, LeafRef(leaf), key) && Holding({}) && IsOurLeaf(id, leaf) && id == rootPageId
      modifies this, bpm, bpm.Repr
      ensures Valid() && bpm.Repr == old(bpm.Repr) && model.contents == old(model.contents) - {key}
    {
      hide Leads;
      var removed := TakeRecord(id, leaf, key);
      if !removed {
        UnpinLast(bpm, id, false);
        return;
      }
      if leaf.size >= leaf.GetMinSize() || leaf.size != 0 {
        UnpinLast(bpm, id, true);
        return;
      }
      RootLeafAlone(bpm.image.nodes, model.info, rootPageId, model.contents);
      assert bpm.Agrees(id);
      rootPageId := INVALID_PAGE_ID;
      Drop(bpm, id);
    }

    method RemoveFromChild(id: PageId, leaf: LeafPage, q: PageId, key: int32)
      requires At(id, LeafRef(leaf), key) && Holding({}) && IsOurLeaf(id, leaf) && id != rootPageId
      requires q == bpm.image.nodes[id].parent && Linked(bpm.image.nodes, id) && q != id
      modifies this, bpm, bpm.Repr
      ensures Valid() && bpm.Repr == old(bpm.Repr) && model.contents == old(model.contents) - {key}
    {
      assert bpm.Agrees(q);
      var parent := bpm.FetchPage(q);
      assert parent.MaxSize() == internalMaxSize;
      var removed := TakeRecord(id, leaf, key);
      if !removed {
        UnpinClean(bpm, id, q);
        return;
      }
      if leaf.size >= leaf.GetMinSize() {
        UnpinTwo(bpm, id, q);
        return;
      }
      BalanceLeaf(id, leaf, q, parent.internal);
    }

    /** Borrows a record for a short leaf, or merges it with a neighbour and repairs the parents. */
    method BalanceLeaf(id: PageId, leaf: LeafPage, q: PageId, page: InternalPage)
      requires Ready() && bpm.pins == multiset{id, q} && Holding({id}) && IsOurLeaf(id, leaf)
      requires id != rootPageId && q == bpm.image.nodes[id].parent && IsInternalPage(bpm, q, page)
      requires leaf.size + 1 == MinSize(true, leafMaxSize)
      modifies this, bpm, bpm.Repr
      ensures Valid() && bpm.Repr == old(bpm.Repr) && model.contents == old(model.contents)
    {
      hide Leads, TreeOver;
      ShortPageFacts(bpm.image.nodes, model.info, rootPageId, model.contents, leafMaxSize, internalMaxSize, id);
      var n, l, r, rightShort := ChooseSibling(bpm, id, q, page);
      var left, right := PairedLeaves(q, page, n, l, r, id);
      if left.size > left.GetMinSize() || right.size > right.GetMinSize() {
        BorrowAndLetGo(q, page, n, l, left, r, right, rightShort);
        return;
      }
      MergeLeafPair(q, page, n, l, left, r, right);
      var done := LetGoUnlessShort(q, page);
      if !done {
        RepairUpward(q, page);
      }
    }

    /** The pages of two neighbouring leaves, one of which, `x`, is a record short. */
    method PairedLeaves(q: PageId, page: InternalPage, n: nat, l: PageId, r: PageId, ghost x: PageId)
      returns (left: LeafPage, right: LeafPage)
      requires Ready() && bpm.pins == multiset{l, r, q} && Holding({x}) && IsInternalPage(bpm, q, page)
      requires Neighbours(bpm.image.nodes, q, n, l, r) && x in {l, r}
      requires bpm.image.nodes[x].Leaf? && bpm.image.nodes[x].Size() + 1 == MinSize(true, leafMaxSize)
      ensures Holding({l, r}) && LeafPair(bpm, q, page, n, l, left, r, right)
      ensures IsOurPage(q, page) && IsOurLeaf(l, left) && IsOurLeaf(r, right)
      ensures left.size == bpm.image.nodes[l].Size() && right.size == bpm.image.nodes[r].Size()
      ensures x == l ==> MinSize(true, leafMaxSize) <= right.size <= leafMaxSize
      ensures x == r ==> MinSize(true, leafMaxSize) <= left.size <= leafMaxSize
    {
      LeafPairSizes(bpm.image.nodes, model.info, rootPageId, model.contents, leafMaxSize, internalMaxSize, q, n, l, r, x);
      assert bpm.Agrees(l) && bpm.Agrees(r) && bpm.Agrees(q);
      left, right := bpm.table[l].leaf, bpm.table[r].leaf;
      assert bpm.table[l].MaxSize() == leafMaxSize && bpm.table[r].MaxSize() == leafMaxSize;
      assert bpm.table[q].MaxSize() == internalMaxSize;
    }

    method BorrowAndLetGo(q: PageId, page: InternalPage, n: nat, l: PageId, left: LeafPage, r: PageId, right: LeafPage,
                          fromLeft: bool)
      requires Ready() && bpm.pins == multiset{l, r, q} && Holding({l, r}) && LeafPair(bpm, q, page, n, l, left, r, right)
      requires IsOurLeaf(l, left) && IsOurLeaf(r, right)
      requires if fromLeft then right.size + 1 == MinSize(true, leafMaxSize) < left.size <= leafMaxSize
               else left.size + 1 == MinSize(true, leafMaxSize) < right.size <= leafMaxSize
      modifies this`model, bpm`trace, bpm`pins, bpm`image, bpm.Repr
      ensures Valid() && model.contents == old(model.contents)
    {
      hide Leads;
      BorrowRecord(q, page, n, l, left, r, right, fromLeft);
      UnpinThree(bpm, l, r, q);
    }

    method BorrowRecord(q: PageId, page: InternalPage, n: nat, l: PageId, left: LeafPage, r: PageId, right: LeafPage,
                        fromLeft: bool)
      requires Ready() && Holding({l, r}) && LeafPair(bpm, q, page, n, l, left, r, right)
      requires IsOurLeaf(l, left) && IsOurLeaf(r, right)
      requires if fromLeft then right.size + 1 == MinSize(true, leafMaxSize) < left.size <= leafMaxSize
               else left.size + 1 == MinSize(true, leafMaxSize) < right.size <= leafMaxSize
      modifies this`model, bpm`trace, bpm`image, bpm.Repr
      ensures Ready() && Holding({}) && model.contents == old(model.contents)
    {
      hide Leads, TreeOver;
      if fromLeft {
        TakeRecordFromLeft(q, page, n, l, left, r, right);
      } else {
        TakeRecordFromRight(q, page, n, l, left, r, right);
      }
    }

    method TakeRecordFromLeft(q: PageId, page: InternalPage, n: nat, l: PageId, left: LeafPage, r: PageId, right: LeafPage)
      requires Ready() && Holding({l, r}) && LeafPair(bpm, q, page, n, l, left, r, right)
      requires IsOurLeaf(l, left) && IsOurLeaf(r, right)
      requires right.size + 1 == MinSize(true, leafMaxSize) < left.size <= leafMaxSize
      modifies this`model, bpm`trace, bpm`image, bpm.Repr
      ensures Ready() && Holding({}) && model.contents == old(model.contents)
    {
      hide Leads;
      ghost var t, x, y := bpm.image.nodes, bpm.image.nodes[l].records, bpm.image.nodes[r].records;
      ghost var a, b := x[..|x| - 1], [x[|x| - 1]] + y;
      assert a + b == x + y;
      ShareLeavesTree(t, model.info, rootPageId, model.contents, leafMaxSize, internalMaxSize, q, n, l, r, a, b);
      BorrowRecordFromLeft(bpm, q, page, n, l, left, r, right);
      model := model.(info := MoveInfos(model.info, l, r, b[0].key));
    }

    method TakeRecordFromRight(q: PageId, page: InternalPage, n: nat, l: PageId, left: LeafPage, r: PageId, right: LeafPage)
      requires Ready() && Holding({l, r}) && LeafPair(bpm, q, page, n, l, left, r, right)
      requires IsOurLeaf(l, left) && IsOurLeaf(r, right)
      requires left.size + 1 == MinSize(true, leafMaxSize) < right.size <= leafMaxSize
      modifies this`model, bpm`trace, bpm`image, bpm.Repr
      ensures Ready() && Holding({}) && model.contents == old(model.contents)
    {
      hide Leads;
      ghost var t, x, y := bpm.image.nodes, bpm.image.nodes[l].records, bpm.image.nodes[r].records;
      ghost var a, b := x + [y[0]], y[1..];
      assert a + b == x + y;
      ShareLeavesTree(t, model.info, rootPageId, model.contents, leafMaxSize, internalMaxSize, q, n, l, r, a, b);
      BorrowRecordFromRight(bpm, q, page, n, l, left, r, right);
      model := model.(info := MoveInfos(model.info, l, r, b[0].key));
    }

    /** Page `q` is an internal page that may be one child short; nothing else is out of order or pinned. */
    ghost predicate MaybeShort(q: PageId, page: InternalPage)
      reads this, bpm, bpm.Repr, page
    {
      && Ready() && bpm.pins == multiset{q} && IsOurPage(q, page) && Holding({q})
      && page.size <= internalMaxSize
      && (if q == rootPageId then 1 <= page.size else MinSize(false, internalMaxSize) <= page.size + 1)
      && (MinSize(false, internalMaxSize) <= page.size ==> Holding({}))
    }

    /** When page `q` has at least the minimum of children it is not short. */
    lemma EnoughChildren(q: PageId)
      requires Holding({q}) && q in bpm.image.nodes && bpm.image.nodes[q].Internal? && 3 <= internalMaxSize
      requires MinSize(false, internalMaxSize) <= bpm.image.nodes[q].Size() <= internalMaxSize
      ensures Holding({})
    {
      ExceptNone(bpm.image.nodes, model.info, rootPageId, model.contents, leafMaxSize, internalMaxSize, q);
    }

    method MergeLeafPair(q: PageId, page: InternalPage, n: nat, l: PageId, left: LeafPage, r: PageId, right: LeafPage)
      requires Ready() && bpm.pins == multiset{l, r, q} && Holding({l, r})
      requires LeafPair(bpm, q, page, n, l, left, r, right)
      requires IsOurPage(q, page) && IsOurLeaf(l, left) && IsOurLeaf(r, right)
      requires left.size + right.size + 1 == 2 * MinSize(true, leafMaxSize)
      modifies this`model, bpm`trace, bpm`table, bpm`pins, bpm`image, bpm.Repr
      ensures MaybeShort(q, page) && bpm.Repr == old(bpm.Repr) && model.contents == old(model.contents)
    {
      MergeLeavesTree(bpm.image.nodes, model.info, rootPageId, model.contents, leafMaxSize, internalMaxSize, q, n, l, r);
      MergeLeafPages(bpm, q, page, n, l, left, r, right);
      assert bpm.Agrees(q);
      model := model.(info := MergeInfos(model.info, l, r));
      if MinSize(false, internalMaxSize) <= page.size {
        EnoughChildren(q);
      }
    }

    /** Repairs a short internal page, and then its ancestors as far up as needed. */
    method RepairUpward(q0: PageId, page0: InternalPage)
      requires MaybeShort(q0, page0) && page0.size < MinSize(false, internalMaxSize)
      modifies this, bpm, bpm.Repr
      ensures Valid() && bpm.Repr == old(bpm.Repr) && model.contents == old(model.contents)
    {
      var q, page, done := q0, page0, false;
      ShortPageFacts(bpm.image.nodes, model.info, rootPageId, model.contents, leafMaxSize, internalMaxSize, q);
      while !done
        invariant bpm.Repr == old(bpm.Repr) && model.contents == old(model.contents)
        invariant done ==> Valid()
        invariant !done ==> MaybeShort(q, page) && page.size < MinSize(false, internalMaxSize)
        invariant !done ==> q in model.info && rootPageId in model.info
        invariant !done ==> model.info[q].level <= model.info[rootPageId].level
        decreases !done, if done then 0 else model.info[rootPageId].level - model.info[q].level
      {
        done, q, page := RepairPage(q, page);
      }
    }

    /**
     Repairs page `q`: lets go of a root with one child, borrows a child, or merges the page with
     a neighbour, which may leave its parent short.
     */
    method RepairPage(q: PageId, page: InternalPage) returns (done: bool, q': PageId, page': InternalPage)
      requires MaybeShort(q, page) && page.size < MinSize(false, internalMaxSize)
      requires q in model.info
      modifies this, bpm, bpm.Repr
      ensures bpm.Repr == old(bpm.Repr) && model.contents == old(model.contents)
      ensures done ==> Valid()
      ensures !done ==> MaybeShort(q', page') && page'.size < MinSize(false, internalMaxSize)
      ensures !done ==> q' in model.info && rootPageId in model.info && rootPageId in old(model.info)
      ensures !done ==> 0 <= model.info[rootPageId].level - model.info[q'].level
                        < old(model.info[rootPageId].level - model.info[q].level)
    {
      q', page' := q, page;
      ShortPageFacts(bpm.image.nodes, model.info, rootPageId, model.contents, leafMaxSize, internalMaxSize, q);
      assert bpm.Agrees(q);
      if page.parentPageId == INVALID_PAGE_ID {
        RepairRoot(q, page);
        return true, q', page';
      }
      done, q', page' := RepairBelowRoot(q, page, page.parentPageId);
    }

    method RepairRoot(q: PageId, page: InternalPage)
      requires MaybeShort(q, page) && q == rootPageId
      modifies this, bpm, bpm.Repr
      ensures Valid() && bpm.Repr == old(bpm.Repr) && model.contents == old(model.contents)
    {
      if page.size == 1 {
        CollapseRootTree(bpm.image.nodes, model.info, rootPageId, model.contents, leafMaxSize, internalMaxSize);
        rootPageId := PromoteOnlyChild(bpm, q, page);
        model := model.(info := model.info - {q});
      } else {
        ExceptNone(bpm.image.nodes, model.info, rootPageId, model.contents, leafMaxSize, internalMaxSize, q);
        UnpinLast(bpm, q, true);
      }
    }

    method RepairBelowRoot(x: PageId, xPage: InternalPage, q: PageId) returns (done: bool, q': PageId, page: InternalPage)
      requires MaybeShort(x, xPage) && xPage.size < MinSize(false, internalMaxSize) && x != rootPageId
      requires x in model.info && q == bpm.image.nodes[x].parent
      modifies this, bpm, bpm.Repr
      ensures bpm.Repr == old(bpm.Repr) && model.contents == old(model.contents)
      ensures done ==> Valid()
      ensures !done ==> MaybeShort(q', page) && page.size < MinSize(false, internalMaxSize)
      ensures !done ==> q' in model.info && rootPageId in model.info && rootPageId in old(model.info)
      ensures !done ==> 0 <= model.info[rootPageId].level - model.info[q'].level
                        < old(model.info[rootPageId].level - model.info[x].level)
    {
      q' := q;
      var n, l, left, r, right, rightShort;
      page, n, l, left, r, right, rightShort := FetchPair(x, xPage, q);
      done := BorrowOrMerge(q, page, n, l, left, r, right, rightShort);
    }

    /** Borrows a child for the short one of two neighbours, or merges them. */
    method BorrowOrMerge(q: PageId, page: InternalPage, n: nat,
                         l: PageId, left: InternalPage, r: PageId, right: InternalPage, rightShort: bool)
      returns (done: bool)
      requires Ready() && bpm.pins == multiset{l, r, q} && Holding({l, r})
      requires InternalPair(bpm, q, page, n, l, left, r, right)
      requires IsOurPage(q, page) && IsOurPage(l, left) && IsOurPage(r, right)
      requires InternalNeighbours(bpm.image.nodes, model.info, rootPageId, q, n, l, r)
      requires if rightShort then right.size + 1 == MinSize(false, internalMaxSize) <= left.size <= internalMaxSize
               else left.size + 1 == MinSize(false, internalMaxSize) <= right.size <= internalMaxSize
      modifies this`model, bpm`trace, bpm`table, bpm`pins, bpm`image, bpm.Repr
      ensures bpm.Repr == old(bpm.Repr) && model.contents == old(model.contents)
      ensures if done then Valid() else MaybeShort(q, page) && page.size < MinSize(false, internalMaxSize)
      ensures !done ==> l in old(model.info) && r in old(model.info) && l != r
      ensures !done ==> model.info == MergeInfos(old(model.info), l, r)
    {
      if left.size > left.GetMinSize() || right.size > right.GetMinSize() {
        BorrowChild(q, page, n, l, left, r, right, rightShort);
        return true;
      }
      MergeInternalPair(q, page, n, l, left, r, right);
      done := LetGoUnlessShort(q, page);
    }

    /** Ends a repair at page `q` when it still has enough children. */
    method LetGoUnlessShort(q: PageId, page: InternalPage) returns (done: bool)
      requires MaybeShort(q, page)
      modifies bpm`trace, bpm`pins, bpm`image
      ensures if done then Valid() else MaybeShort(q, page) && page.size < MinSize(false, internalMaxSize)
    {
      if page.size >= page.GetMinSize() {
        UnpinLast(bpm, q, true);
        return true;
      }
      return false;
    }

    /** Fetches the parent `q` of the short page `x` and a neighbour of `x` under that parent. */
    method FetchPair(x: PageId, ghost xPage: InternalPage, q: PageId)
      returns (page: InternalPage, n: nat, l: PageId, left: InternalPage, r: PageId, right: InternalPage, rightShort: bool)
      requires MaybeShort(x, xPage) && xPage.size < MinSize(false, internalMaxSize) && x != rootPageId
      requires q == bpm.image.nodes[x].parent
      modifies bpm`trace, bpm`pins
      ensures Ready() && bpm.pins == multiset{l, r, q} && Holding({l, r}) && InternalPair(bpm, q, page, n, l, left, r, right)
      ensures InternalNeighbours(bpm.image.nodes, model.info, rootPageId, q, n, l, r)
      ensures IsOurPage(q, page) && IsOurPage(l, left) && IsOurPage(r, right)
      ensures if rightShort then right.size + 1 == MinSize(false, internalMaxSize) <= left.size <= internalMaxSize
              else left.size + 1 == MinSize(false, internalMaxSize) <= right.size <= internalMaxSize
      ensures x in model.info && q in model.info && rootPageId in model.info
      ensures model.info[q].level == model.info[x].level + 1 <= model.info[rootPageId].level
    {
      ShortPageFacts(bpm.image.nodes, model.info, rootPageId, model.contents, leafMaxSize, internalMaxSize, x);
      assert bpm.Agrees(q);
      var parent := bpm.FetchPage(q);
      page := parent.internal;
      n, l, r, rightShort := ChooseSibling(bpm, x, q, page);
      left, right := PairedInternals(q, page, n, l, r, x);
    }

    /** The pages of two neighbouring internal pages, one of which, `x`, is a child short. */
    method PairedInternals(q: PageId, page: InternalPage, n: nat, l: PageId, r: PageId, ghost x: PageId)
      returns (left: InternalPage, right: InternalPage)
      requires Ready() && bpm.pins == multiset{l, r, q} && Holding({x}) && IsInternalPage(bpm, q, page)
      requires Neighbours(bpm.image.nodes, q, n, l, r) && x in {l, r}
      requires bpm.image.nodes[x].Internal? && bpm.image.nodes[x].Size() + 1 == MinSize(false, internalMaxSize)
      ensures Holding({l, r}) && InternalPair(bpm, q, page, n, l, left, r, right)
      ensures InternalNeighbours(bpm.image.nodes, model.info, rootPageId, q, n, l, r)
      ensures IsOurPage(q, page) && IsOurPage(l, left) && IsOurPage(r, right)
      ensures x == l ==> left.size + 1 == MinSize(false, internalMaxSize) <= right.size <= internalMaxSize
      ensures x == r ==> right.size + 1 == MinSize(false, internalMaxSize) <= left.size <= internalMaxSize
    {
      InternalPairSizes(bpm.image.nodes, model.info, rootPageId, model.contents, leafMaxSize, internalMaxSize, q, n, l, r, x);
      assert bpm.Agrees(l) && bpm.Agrees(r) && bpm.Agrees(q);
      left, right := bpm.table[l].internal, bpm.table[r].internal;
      assert bpm.table[l].MaxSize() == internalMaxSize && bpm.table[r].MaxSize() == internalMaxSize;
      assert bpm.table[q].MaxSize() == internalMaxSize;
    }

    method TakeChildFromLeft(q: PageId, page: InternalPage, n: nat,
                             l: PageId, left: InternalPage, r: PageId, right: InternalPage)
      requires Ready() && bpm.pins == multiset{l, r, q} && Holding({l, r})
      requires InternalPair(bpm, q, page, n, l, left, r, right) && IsOurPage(l, left) && IsOurPage(r, right)
      requires InternalNeighbours(bpm.image.nodes, model.info, rootPageId, q, n, l, r)
      requires right.size + 1 == MinSize(false, internalMaxSize) < left.size <= internalMaxSize
      modifies this`model, bpm`trace, bpm`pins, bpm`image, bpm.Repr
      ensures Ready() && Holding({}) && model.contents == old(model.contents) && bpm.pins == old(bpm.pins)
    {
      ghost var t := bpm.image.nodes;
      LeftLentTree(t, model.info, rootPageId, model.contents, leafMaxSize, internalMaxSize, q, n, l, r);
      BorrowChildFromLeft(bpm, q, page, n, l, left, r, right);
      model := model.(info := MoveInfos(model.info, l, r, t[l].slots[|t[l].slots| - 1].key));
    }

    method TakeChildFromRight(q: PageId, page: InternalPage, n: nat,
                              l: PageId, left: InternalPage, r: PageId, right: InternalPage)
      requires Ready() && bpm.pins == multiset{l, r, q} && Holding({l, r})
      requires InternalPair(bpm, q, page, n, l, left, r, right) && IsOurPage(l, left) && IsOurPage(r, right)
      requires InternalNeighbours(bpm.image.nodes, model.info, rootPageId, q, n, l, r)
      requires left.size + 1 == MinSize(false, internalMaxSize) < right.size <= internalMaxSize
      modifies this`model, bpm`trace, bpm`pins, bpm`image, bpm.Repr
      ensures Ready() && Holding({}) && model.contents == old(model.contents) && bpm.pins == old(bpm.pins)
    {
      ghost var t := bpm.image.nodes;
      RightLentTree(t, model.info, rootPageId, model.contents, leafMaxSize, internalMaxSize, q, n, l, r);
      BorrowChildFromRight(bpm, q, page, n, l, left, r, right);
      model := model.(info := MoveInfos(model.info, l, r, t[r].slots[1].key));
    }

    method BorrowChild(q: PageId, page: InternalPage, n: nat,
                       l: PageId, left: InternalPage, r: PageId, right: InternalPage, rightShort: bool)
      requires Ready() && bpm.pins == multiset{l, r, q} && Holding({l, r})
      requires InternalPair(bpm, q, page, n, l, left, r, right) && IsOurPage(l, left) && IsOurPage(r, right)
      requires InternalNeighbours(bpm.image.nodes, model.info, rootPageId, q, n, l, r)
      requires if rightShort then right.size + 1 == MinSize(false, internalMaxSize) < left.size <= internalMaxSize
               else left.size + 1 == MinSize(false, internalMaxSize) < right.size <= internalMaxSize
      modifies this`model, bpm`trace, bpm`pins, bpm`image, bpm.Repr
      ensures Valid() && model.contents == old(model.contents)
    {
      if rightShort {
        TakeChildFromLeft(q, page, n, l, left, r, right);
      } else {
        TakeChildFromRight(q, page, n, l, left, r, right);
      }
      UnpinThree(bpm, q, l, r);
    }

    method MergeInternalPair(q: PageId, page: InternalPage, n: nat,
                             l: PageId, left: InternalPage, r: PageId, right: InternalPage)
      requires Ready() && bpm.pins == multiset{l, r, q} && Holding({l, r})
      requires InternalPair(bpm, q, page, n, l, left, r, right)
      requires IsOurPage(q, page) && IsOurPage(l, left) && IsOurPage(r, right)
      requires InternalNeighbours(bpm.image.nodes, model.info, rootPageId, q, n, l, r)
      requires left.size + right.size + 1 == 2 * MinSize(false, internalMaxSize)
      modifies this`model, bpm`trace, bpm`table, bpm`pins, bpm`image, bpm.Repr
      ensures MaybeShort(q, page) && bpm.Repr == old(bpm.Repr) && model.contents == old(model.contents)
      ensures q in old(model.info) && l in old(model.info) && r in old(model.info) && l != r
      ensures model.info == MergeInfos(old(model.info), l, r)
    {
      hide Leads, TreeOver, AllApart, InternalPair, MergeInternals, MergeInfos, Joined;
      MergeInternalsTree(bpm.image.nodes, model.info, rootPageId, model.contents, leafMaxSize, internalMaxSize, q, n, l, r);
      MergeInternalPages(bpm, q, page, n, l, left, r, right);
      assert bpm.Agrees(q);
      model := model.(info := MergeInfos(model.info, l, r));
      if MinSize(false, internalMaxSize) <= page.size {
        EnoughChildren(q);
      }
    }
  }
}
