/** The in-place edits of a deletion that touch several pages, composed from `PageEdits`. */
module RemovalEdits {
  import opened Types
  import opened TreePages
  import opened TreeShape
  import opened TreeSteps
  import opened TreeRemovalSteps
  import opened TreeInternalRemovalSteps
  import opened PageStores
  import opened PageEdits

  /** Slots `n - 1` and `n` of the pinned page `q` are the pinned leaves `l` and `r`. */
  ghost predicate LeafPair(bpm: PageStore, q: PageId, page: InternalPage, n: nat,
                           l: PageId, left: LeafPage, r: PageId, right: LeafPage)
    reads bpm
  {
    && IsInternalPage(bpm, q, page) && IsLeafPage(bpm, l, left) && IsLeafPage(bpm, r, right)
    && Neighbours(bpm.image.nodes, q, n, l, r) && l != r && l != q && r != q
    && bpm.image.nodes[l].Leaf? && bpm.image.nodes[r].Leaf?
  }

  /** Moves the last record of `l` over to `r` and lowers the separator to it. */
  method BorrowRecordFromLeft(bpm: PageStore, q: PageId, page: InternalPage, n: nat,
                              l: PageId, left: LeafPage, r: PageId, right: LeafPage)
    requires bpm.Valid() && LeafPair(bpm, q, page, n, l, left, r, right)
    requires 0 < |bpm.image.nodes[l].records| && |bpm.image.nodes[r].records| <= right.maxSize
    modifies bpm`trace, bpm`image, bpm.Repr
    ensures bpm.Valid()
    ensures var t := old(bpm.image.nodes);
            var x, y := t[l].records, t[r].records;
            bpm.image.nodes == ShareLeaves(t, q, n, l, r, x[..|x| - 1], [x[|x| - 1]] + y)
  {
    assert bpm.Agrees(l) && bpm.Agrees(r) && bpm.Agrees(q);
    LendLastRecord(bpm, l, left, r, right);
    assert bpm.Agrees(r);
    var key := right.data[0].key;
    SetKeyOnPage(bpm, q, page, n, key);
  }

  /** Moves the first record of `r` over to `l` and raises the separator to the next one. */
  method BorrowRecordFromRight(bpm: PageStore, q: PageId, page: InternalPage, n: nat,
                               l: PageId, left: LeafPage, r: PageId, right: LeafPage)
    requires bpm.Valid() && LeafPair(bpm, q, page, n, l, left, r, right)
    requires 1 < |bpm.image.nodes[r].records| && |bpm.image.nodes[l].records| <= left.maxSize
    modifies bpm`trace, bpm`image, bpm.Repr
    ensures bpm.Valid()
    ensures var t := old(bpm.image.nodes);
            var x, y := t[l].records, t[r].records;
            bpm.image.nodes == ShareLeaves(t, q, n, l, r, x + [y[0]], y[1..])
  {
    assert bpm.Agrees(l) && bpm.Agrees(r) && bpm.Agrees(q);
    LendFirstRecord(bpm, l, left, r, right);
    assert bpm.Agrees(r);
    var key := right.data[0].key;
    SetKeyOnPage(bpm, q, page, n, key);
  }

  /** Moves all records of `r` over to `l`, drops the slot of `r` and deletes the page. */
  method MergeLeafPages(bpm: PageStore, q: PageId, page: InternalPage, n: nat,
                        l: PageId, left: LeafPage, r: PageId, right: LeafPage)
    requires bpm.Valid() && LeafPair(bpm, q, page, n, l, left, r, right) && bpm.pins == multiset{l, r, q}
    requires |bpm.image.nodes[l].records| + |bpm.image.nodes[r].records| <= left.maxSize + 1
    modifies bpm`trace, bpm`table, bpm`pins, bpm`image, bpm.Repr
    ensures bpm.Valid() && bpm.pins == multiset{q} && bpm.table == old(bpm.table) - {r}
    ensures bpm.image.nodes == MergeLeaves(old(bpm.image.nodes), q, n, l, r)
  {
    hide Leads;
    assert bpm.Agrees(l) && bpm.Agrees(r) && bpm.Agrees(q);
    GiveAllRecords(bpm, l, left, r, right);
    RemoveSlotOnPage(bpm, q, page, n);
    KeepAndDrop(bpm, l, r, q);
  }

  /** Unpins page `r` and deletes it. */
  method Drop(bpm: PageStore, r: PageId)
    requires bpm.Valid() && bpm.pins[r] == 1
    modifies bpm`trace, bpm`table, bpm`pins, bpm`image
    ensures bpm.Valid() && bpm.pins == old(bpm.pins) - multiset{r}
    ensures bpm.table == old(bpm.table) - {r} && bpm.image.nodes == old(bpm.image.nodes) - {r}
  {
    var ok := bpm.UnpinPage(r, true);
    ok := bpm.DeletePage(r);
  }

  method KeepAndDrop(bpm: PageStore, l: PageId, r: PageId, ghost q: PageId)
    requires bpm.Valid() && bpm.pins == multiset{l, r, q} && l != r && l != q && r != q
    modifies bpm`trace, bpm`table, bpm`pins, bpm`image
    ensures bpm.Valid() && bpm.pins == multiset{q}
    ensures bpm.table == old(bpm.table) - {r} && bpm.image.nodes == old(bpm.image.nodes) - {r}
  {
    var ok := bpm.UnpinPage(l, true);
    Drop(bpm, r);
  }

  method DropAndKeep(bpm: PageStore, l: PageId, r: PageId, ghost q: PageId)
    requires bpm.Valid() && bpm.pins == multiset{l, r, q} && l != r && l != q && r != q
    modifies bpm`trace, bpm`table, bpm`pins, bpm`image
    ensures bpm.Valid() && bpm.pins == multiset{q}
    ensures bpm.table == old(bpm.table) - {r} && bpm.image.nodes == old(bpm.image.nodes) - {r}
  {
    Drop(bpm, r);
    var ok := bpm.UnpinPage(l, true);
  }

  /** Slots `n - 1` and `n` of the pinned page `q` are the pinned internal pages `l` and `r`. */
  ghost predicate InternalPair(bpm: PageStore, q: PageId, page: InternalPage, n: nat,
                               l: PageId, left: InternalPage, r: PageId, right: InternalPage)
    reads bpm
  {
    && IsInternalPage(bpm, q, page) && IsInternalPage(bpm, l, left) && IsInternalPage(bpm, r, right)
    && Neighbours(bpm.image.nodes, q, n, l, r) && l != r && l != q && r != q
    && bpm.image.nodes[l].Internal? && bpm.image.nodes[r].Internal?
  }

  /** The pages after the last child of `l` has moved to the front of `r`. */
  function LeftLent(t: Nodes, q: PageId, n: nat, l: PageId, r: PageId): Nodes
    requires Neighbours(t, q, n, l, r) && t[l].Internal? && t[r].Internal? && |t[l].slots| > 0 && |t[r].slots| > 0
    requires l != q && r != q && l != r
    requires t[l].slots[|t[l].slots| - 1].value in t
  {
    var s := t[l].slots;
    var e := s[|s| - 1];
    var b := [e.(key := t[r].slots[0].key)] + SetKey(t[r].slots, 0, t[q].slots[n].key);
    var t0 := t[l := t[l].(slots := s[..|s| - 1])][r := t[r].(slots := b)]
               [q := t[q].(slots := SetKey(t[q].slots, n, e.key))];
    t0[e.value := t0[e.value].(parent := r)]
  }

  /** The pages after the first child of `r` has moved to the end of `l`. */
  function RightLent(t: Nodes, q: PageId, n: nat, l: PageId, r: PageId): Nodes
    requires Neighbours(t, q, n, l, r) && t[l].Internal? && t[r].Internal? && |t[r].slots| > 1
    requires l != q && r != q && l != r
    requires t[r].slots[0].value in t
  {
    var s := t[r].slots;
    var a := t[l].slots + [s[0].(key := t[q].slots[n].key)];
    var t0 := t[l := t[l].(slots := a)][r := t[r].(slots := [s[1].(key := s[0].key)] + s[2..])]
               [q := t[q].(slots := SetKey(t[q].slots, n, s[1].key))];
    t0[s[0].value := t0[s[0].value].(parent := l)]
  }

  /** Lending the last child of `l` moves the boundary past that child and changes nothing else. */
  lemma LeftLentTree(t: Nodes, g: Infos, root: PageId, m: map<int32, Rid>, leafMax: nat, internalMax: nat,
                     q: PageId, n: nat, l: PageId, r: PageId)
    requires TreeOver(t, g, root, m, leafMax, internalMax, {l, r}) && InternalNeighbours(t, g, root, q, n, l, r)
    requires |t[r].slots| + 1 == MinSize(false, internalMax) < |t[l].slots| <= internalMax && 3 <= internalMax
    ensures l in g && r in g && l != r && l != q && r != q
    ensures var e := t[l].slots[|t[l].slots| - 1];
            && e.value in t && e.value !in {l, r, q}
            && TreeOver(LeftLent(t, q, n, l, r), MoveInfos(g, l, r, e.key), root, m, leafMax, internalMax, {})
  {
    var s := t[l].slots;
    var e := s[|s| - 1];
    var a, b := s[..|s| - 1], [e.(key := t[r].slots[0].key)] + SetKey(t[r].slots, 0, t[q].slots[n].key);
    assert a + SetKey(b, 0, e.key) == Joined(t, q, n, l, r);
    NeighbourFacts(t, g, root, q, n, l, r);
    SharedChild(t, g, root, q, n, l, r, a, b, e.key, |s| - 1);
    JoinedChild(t, g, root, q, n, l, r, |s| - 1);
    ShareInternalsInOrder(t, g, root, q, n, l, r, a, b, e.key, e.value, r);
    ShareInternalsTree(t, g, root, m, leafMax, internalMax, q, n, l, r, a, b, e.key);
  }

  /** Lending the first child of `r` moves the boundary past that child and changes nothing else. */
  lemma RightLentTree(t: Nodes, g: Infos, root: PageId, m: map<int32, Rid>, leafMax: nat, internalMax: nat,
                      q: PageId, n: nat, l: PageId, r: PageId)
    requires TreeOver(t, g, root, m, leafMax, internalMax, {l, r}) && InternalNeighbours(t, g, root, q, n, l, r)
    requires |t[l].slots| + 1 == MinSize(false, internalMax) < |t[r].slots| <= internalMax && 3 <= internalMax
    ensures l in g && r in g && l != r && l != q && r != q
    ensures var s := t[r].slots;
            && s[0].value in t && s[0].value !in {l, r, q}
            && TreeOver(RightLent(t, q, n, l, r), MoveInfos(g, l, r, s[1].key), root, m, leafMax, internalMax, {})
  {
    var s := t[r].slots;
    var a, b := t[l].slots + [s[0].(key := t[q].slots[n].key)], [s[1].(key := s[0].key)] + s[2..];
    assert a + SetKey(b, 0, s[1].key) == Joined(t, q, n, l, r);
    NeighbourFacts(t, g, root, q, n, l, r);
    SharedChild(t, g, root, q, n, l, r, a, b, s[1].key, |t[l].slots|);
    JoinedChild(t, g, root, q, n, l, r, |t[l].slots|);
    ShareInternalsInOrder(t, g, root, q, n, l, r, a, b, s[1].key, s[0].value, l);
    ShareInternalsTree(t, g, root, m, leafMax, internalMax, q, n, l, r, a, b, s[1].key);
  }

  method BorrowChildFromLeft(bpm: PageStore, q: PageId, page: InternalPage, n: nat,
                             l: PageId, left: InternalPage, r: PageId, right: InternalPage)
    requires bpm.Valid() && InternalPair(bpm, q, page, n, l, left, r, right) && |bpm.pins| < PIN_LIMIT
    requires 0 < |bpm.image.nodes[l].slots| && 0 < |bpm.image.nodes[r].slots| <= right.maxSize
    requires var s := bpm.image.nodes[l].slots; s[|s| - 1].value in bpm.image.nodes && s[|s| - 1].value !in {l, r, q}
    modifies bpm`trace, bpm`pins, bpm`image, bpm.Repr
    ensures bpm.Valid() && bpm.pins == old(bpm.pins)
    ensures bpm.image.nodes == LeftLent(old(bpm.image.nodes), q, n, l, r)
  {
    hide Leads;
    LendLastChild(bpm, q, page, n, l, left, r, right);
    assert bpm.Agrees(r);
    var moved := right.data[0].value;
    assert bpm.Agrees(moved);
    Adopt(bpm, moved, r);
  }

  /** The last slot of `l` becomes the first of `r`, through the separator in `q`. */
  method LendLastChild(bpm: PageStore, q: PageId, page: InternalPage, n: nat,
                       l: PageId, left: InternalPage, r: PageId, right: InternalPage)
    requires bpm.Valid() && InternalPair(bpm, q, page, n, l, left, r, right)
    requires 0 < |bpm.image.nodes[l].slots| && 0 < |bpm.image.nodes[r].slots| <= right.maxSize
    modifies bpm`trace, bpm`image, bpm.Repr
    ensures bpm.Valid()
    ensures var t := old(bpm.image.nodes);
            var s := t[l].slots;
            var e := s[|s| - 1];
            var b := [e.(key := t[r].slots[0].key)] + SetKey(t[r].slots, 0, t[q].slots[n].key);
            bpm.image.nodes == t[l := t[l].(slots := s[..|s| - 1])][r := t[r].(slots := b)]
                                [q := t[q].(slots := SetKey(t[q].slots, n, e.key))]
  {
    hide Leads, Changed, AllApart;
    assert bpm.Agrees(l) && bpm.Agrees(r) && bpm.Agrees(q);
    var middle := page.data[n].key;
    var keyToPushUp := left.data[left.size - 1].key;
    LendLastSlot(bpm, l, left, r, right, middle);
    SetKeyOnPage(bpm, q, page, n, keyToPushUp);
  }

  method BorrowChildFromRight(bpm: PageStore, q: PageId, page: InternalPage, n: nat,
                              l: PageId, left: InternalPage, r: PageId, right: InternalPage)
    requires bpm.Valid() && InternalPair(bpm, q, page, n, l, left, r, right) && |bpm.pins| < PIN_LIMIT
    requires 1 < |bpm.image.nodes[r].slots| && |bpm.image.nodes[l].slots| <= left.maxSize
    requires var s := bpm.image.nodes[r].slots; s[0].value in bpm.image.nodes && s[0].value !in {l, r, q}
    modifies bpm`trace, bpm`pins, bpm`image, bpm.Repr
    ensures bpm.Valid() && bpm.pins == old(bpm.pins)
    ensures bpm.image.nodes == RightLent(old(bpm.image.nodes), q, n, l, r)
  {
    hide Leads;
    LendFirstChild(bpm, q, page, n, l, left, r, right);
    assert bpm.Agrees(l);
    var moved := left.data[left.size - 1].value;
    assert bpm.Agrees(moved);
    Adopt(bpm, moved, l);
  }

  /** The first slot of `r` becomes the last of `l`, through the separator in `q`. */
  method LendFirstChild(bpm: PageStore, q: PageId, page: InternalPage, n: nat,
                        l: PageId, left: InternalPage, r: PageId, right: InternalPage)
    requires bpm.Valid() && InternalPair(bpm, q, page, n, l, left, r, right)
    requires 1 < |bpm.image.nodes[r].slots| && |bpm.image.nodes[l].slots| <= left.maxSize
    modifies bpm`trace, bpm`image, bpm.Repr
    ensures bpm.Valid()
    ensures var t := old(bpm.image.nodes);
            var s := t[r].slots;
            var a := t[l].slots + [s[0].(key := t[q].slots[n].key)];
            bpm.image.nodes == t[l := t[l].(slots := a)][r := t[r].(slots := [s[1].(key := s[0].key)] + s[2..])]
                                [q := t[q].(slots := SetKey(t[q].slots, n, s[1].key))]
  {
    assert bpm.Agrees(l) && bpm.Agrees(r) && bpm.Agrees(q);
    var middle := page.data[n].key;
    var keyToPushUp := right.data[1].key;
    LendFirstSlot(bpm, l, left, r, right, middle);
    SetKeyOnPage(bpm, q, page, n, keyToPushUp);
  }

  /** Moves all children of `r` over to `l`, drops the slot of `r` and deletes the page. */
  method MergeInternalPages(bpm: PageStore, q: PageId, page: InternalPage, n: nat,
                            l: PageId, left: InternalPage, r: PageId, right: InternalPage)
    requires bpm.Valid() && InternalPair(bpm, q, page, n, l, left, r, right) && bpm.pins == multiset{l, r, q}
    requires 0 < |bpm.image.nodes[r].slots|
    requires |bpm.image.nodes[l].slots| + |bpm.image.nodes[r].slots| <= left.maxSize + 1
    requires var c := Joined(bpm.image.nodes, q, n, l, r);
             forall j :: 0 <= j < |c| ==> c[j].value in bpm.image.nodes && c[j].value !in {l, r, q}
    modifies bpm`trace, bpm`table, bpm`pins, bpm`image, bpm.Repr
    ensures bpm.Valid() && bpm.pins == multiset{q} && bpm.table == old(bpm.table) - {r}
    ensures bpm.image.nodes == MergeInternals(old(bpm.image.nodes), q, n, l, r)
  {
    assert bpm.Agrees(l) && bpm.Agrees(r) && bpm.Agrees(q);
    MergeInternalsInOrder(bpm.image.nodes, q, n, l, r);
    var middle := page.data[n].key;
    GiveAllSlots(bpm, l, left, r, right, middle);
    ReparentChildren(bpm, l, left, l);
    assert bpm.Agrees(q);
    RemoveSlotOnPage(bpm, q, page, n);
    DropAndKeep(bpm, l, r, q);
  }

  /** The only child of the pinned root becomes the root; the old root is deleted. */
  method PromoteOnlyChild(bpm: PageStore, root: PageId, page: InternalPage) returns (child: PageId)
    requires bpm.Valid() && bpm.pins == multiset{root} && IsInternalPage(bpm, root, page) && root in bpm.image.nodes
    requires bpm.image.nodes[root].Internal? && |bpm.image.nodes[root].slots| == 1
    requires var c := bpm.image.nodes[root].slots[0].value; c in bpm.image.nodes && c != root
    modifies bpm`trace, bpm`table, bpm`pins, bpm`image, bpm.Repr
    ensures bpm.Valid() && bpm.pins == multiset{} && bpm.table == old(bpm.table) - {root}
    ensures child == old(bpm.image.nodes)[root].slots[0].value
    ensures bpm.image.nodes == CollapseRoot(old(bpm.image.nodes), root, child)
  {
    hide Leads;
    assert bpm.Agrees(root);
    child := TakeOnlyChild(bpm, root, page);
    assert bpm.Agrees(child);
    Adopt(bpm, child, INVALID_PAGE_ID);
    Drop(bpm, root);
  }

  method TakeOnlyChild(bpm: PageStore, root: PageId, page: InternalPage) returns (child: PageId)
    requires bpm.Valid() && IsInternalPage(bpm, root, page) && root in bpm.image.nodes
    requires bpm.image.nodes[root].Internal? && |bpm.image.nodes[root].slots| == 1
    modifies bpm`trace, bpm`image, page
    ensures bpm.Valid() && child == old(bpm.image.nodes)[root].slots[0].value
    ensures bpm.image.nodes == old(bpm.image.nodes)[root := old(bpm.image.nodes)[root].(slots := [])]
  {
    assert bpm.Agrees(root);
    ghost var t := bpm.image.nodes;
    child := page.RemoveAndReturnOnlyChild();
    forall i | i in bpm.table && i != root ensures bpm.Agrees(i) {
      assert old(bpm.Agrees(i)) && bpm.table[i].Apart(bpm.table[root]);
    }
    bpm.CommitOne(root, t[root].(slots := []));
  }

  /** Unpins two pages that have not been written. */
  method UnpinClean(bpm: PageStore, a: PageId, b: PageId)
    requires bpm.Valid() && bpm.pins == multiset{a, b} && a != b
    requires a !in bpm.image.unsaved && b !in bpm.image.unsaved
    modifies bpm`trace, bpm`pins, bpm`image
    ensures bpm.Valid() && bpm.pins == multiset{} && bpm.image.nodes == old(bpm.image.nodes)
  {
    var ok := bpm.UnpinPage(a, false);
    UnpinLast(bpm, b, false);
  }

  /**
   Fetches the left neighbour of child `id` of page `q`, or the right one when it is the first
   child.  Slots `n - 1` and `n` are the resulting pair `l` and `r`.
   */
  method ChooseSibling(bpm: PageStore, id: PageId, q: PageId, page: InternalPage)
    returns (n: nat, l: PageId, r: PageId, rightShort: bool)
    requires bpm.Valid() && bpm.pins == multiset{id, q} && IsInternalPage(bpm, q, page)
    requires q in bpm.image.nodes && bpm.image.nodes[q].Internal? && 2 <= bpm.image.nodes[q].Size()
    requires IsChild(bpm.image.nodes[q].slots, id)
    requires var s := bpm.image.nodes[q].slots; forall j :: 0 <= j < |s| ==> s[j].value in bpm.image.nodes
    modifies bpm`trace, bpm`pins
    ensures bpm.Valid() && bpm.pins == multiset{l, r, q}
    ensures Neighbours(bpm.image.nodes, q, n, l, r)
    ensures if rightShort then r == id else l == id
  {
    n, l, r, rightShort := PickNeighbour(bpm, id, q, page);
    var sibling := bpm.FetchPage(if rightShort then l else r);
  }

  method PickNeighbour(bpm: PageStore, id: PageId, q: PageId, page: InternalPage)
    returns (n: nat, l: PageId, r: PageId, rightShort: bool)
    requires bpm.Valid() && IsInternalPage(bpm, q, page)
    requires q in bpm.image.nodes && bpm.image.nodes[q].Internal? && 2 <= bpm.image.nodes[q].Size()
    requires IsChild(bpm.image.nodes[q].slots, id)
    requires var s := bpm.image.nodes[q].slots; forall j :: 0 <= j < |s| ==> s[j].value in bpm.image.nodes
    ensures Neighbours(bpm.image.nodes, q, n, l, r)
    ensures if rightShort then r == id else l == id
  {
    assert bpm.Agrees(q);
    var index := page.ValueIndex(id);
    if index == 0 {
      n, l, r, rightShort := 1, id, page.data[1].value, false;
    } else {
      n, l, r, rightShort := index, page.data[index - 1].value, id, true;
    }
    assert page.Slots()[n - 1].value == l && page.Slots()[n].value == r;
  }
}
