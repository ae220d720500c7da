/** The structural steps of deletion: moving a boundary between leaves, merging them, and losing a root. */
module TreeRemovalSteps {
  import opened Types
  import opened TreePages
  import opened TreeShape
  import opened TreeSteps

  // ---------- Two neighbouring children of one page ----------

  /** Slots `n - 1` and `n` of page `q`. */
  ghost predicate Neighbours(t: Nodes, q: PageId, n: nat, l: PageId, r: PageId) {
    && q in t && t[q].Internal? && 0 < n < |t[q].slots|
    && t[q].slots[n - 1].value == l && t[q].slots[n].value == r
    && l in t && r in t
  }

  lemma NeighbourFacts(t: Nodes, g: Infos, root: PageId, q: PageId, n: nat, l: PageId, r: PageId)
    requires Shape(t, g, root) && Neighbours(t, q, n, l, r)
    ensures l != r && l != q && r != q && l != root && r != root
    ensures t[l].parent == q && t[r].parent == q && t[l].Leaf? == t[r].Leaf?
    ensures g[l].level == g[r].level && g[l].hi == g[r].lo == t[q].slots[n].key
    ensures g[l].lo == SlotLo(t[q].slots, g[q], n - 1) && g[r].hi == SlotHi(t[q].slots, g[q], n)
    ensures g[l].lo < g[l].hi < g[r].hi
    ensures PageOk(t, g, g, root, INVALID_PAGE_ID, l) && PageOk(t, g, g, root, INVALID_PAGE_ID, r)
    ensures PageOk(t, g, g, root, INVALID_PAGE_ID, q)
    ensures ChildIndex(t[q].slots, l) == n - 1 && ChildIndex(t[q].slots, r) == n
  {
    ChildFacts(t, g, root, q, n - 1);
    ChildFacts(t, g, root, q, n);
    assert PageOk(t, g, g, root, INVALID_PAGE_ID, l);
    assert PageOk(t, g, g, root, INVALID_PAGE_ID, r);
  }

  /** Any other page's children are not these two. */
  lemma OtherChild(t: Nodes, g: Infos, root: PageId, q: PageId, n: nat, l: PageId, r: PageId, p: PageId, i: nat)
    requires Shape(t, g, root) && Neighbours(t, q, n, l, r)
    requires p in t && t[p].Internal? && i < |t[p].slots|
    ensures ChildOk(t, g, g[p], p, t[p].slots, i)
    ensures t[p].slots[i].value == l <==> p == q && i == n - 1
    ensures t[p].slots[i].value == r <==> p == q && i == n
  {
    NeighbourFacts(t, g, root, q, n, l, r);
    ChildFacts(t, g, root, p, i);
  }

  // ---------- Slot ranges after the two edits of the parent ----------

  lemma SetKeyRange(own: Info, s: seq<Entry<PageId>>, n: nat, key: int32, i: nat)
    requires 0 < n < |s| && i < |s|
    ensures var s' := SetKey(s, n, key);
            && s'[i].value == s[i].value
            && SlotLo(s', own, i) == (if i == n then key else SlotLo(s, own, i))
            && SlotHi(s', own, i) == (if i + 1 == n then key else SlotHi(s, own, i))
  {
  }

  lemma SetKeyOk(own: Info, s: seq<Entry<PageId>>, n: nat, key: int32)
    requires SlotsOk(own, s) && 0 < n < |s| && SlotLo(s, own, n - 1) < key < SlotHi(s, own, n)
    ensures SlotsOk(own, SetKey(s, n, key))
  {
  }

  lemma SetKeyKeepsChildren(s: seq<Entry<PageId>>, n: nat, key: int32, c: PageId)
    requires n < |s| && IsChild(s, c)
    ensures IsChild(SetKey(s, n, key), c)
  {
    assert SetKey(s, n, key)[ChildIndex(s, c)].value == c;
  }

  // ---------- Moving the boundary between two leaves ----------

  function MoveInfos(g: Infos, l: PageId, r: PageId, key: int32): Infos
    requires l in g && r in g
  {
    g[l := g[l].(hi := key)][r := g[r].(lo := key)]
  }

  function ShareLeaves(t: Nodes, q: PageId, n: nat, l: PageId, r: PageId,
                       a: seq<Entry<Rid>>, b: seq<Entry<Rid>>): Nodes
    requires q in t && l in t && r in t && t[l].Leaf? && t[r].Leaf?
    requires t[q].Internal? && n < |t[q].slots| && |b| > 0
  {
    t[l := t[l].(records := a)][r := t[r].(records := b)][q := t[q].(slots := SetKey(t[q].slots, n, b[0].key))]
  }

  ghost predicate CanShareLeaves(t: Nodes, g: Infos, root: PageId, q: PageId, n: nat, l: PageId, r: PageId,
                                 a: seq<Entry<Rid>>, b: seq<Entry<Rid>>) {
    && Shape(t, g, root) && Neighbours(t, q, n, l, r) && t[l].Leaf? && t[r].Leaf?
    && |a| > 0 && |b| > 0 && a + b == t[l].records + t[r].records
  }

  lemma JoinedRecords(t: Nodes, g: Infos, root: PageId, q: PageId, n: nat, l: PageId, r: PageId)
    requires Shape(t, g, root) && Neighbours(t, q, n, l, r) && t[l].Leaf? && t[r].Leaf?
    ensures RecordsOk(Info(0, g[l].lo, g[r].hi), t[l].records + t[r].records)
  {
    NeighbourFacts(t, g, root, q, n, l, r);
    var c := t[l].records + t[r].records;
    assert forall i :: 0 <= i < |c| ==> c[i] == if i < |t[l].records| then t[l].records[i] else t[r].records[i - |t[l].records|];
    forall i, j | 0 <= i < j < |c| ensures c[i].key < c[j].key {
      if i < |t[l].records| <= j {
        assert c[i].key < g[l].hi <= c[j].key;
      }
    }
  }

  lemma ShareLeavesHalves(t: Nodes, g: Infos, root: PageId, q: PageId, n: nat, l: PageId, r: PageId,
                          a: seq<Entry<Rid>>, b: seq<Entry<Rid>>)
    requires CanShareLeaves(t, g, root, q, n, l, r, a, b)
    ensures g[l].lo < b[0].key < g[r].hi
    ensures RecordsOk(Info(0, g[l].lo, b[0].key), a) && RecordsOk(Info(0, b[0].key, g[r].hi), b)
  {
    var c := a + b;
    JoinedRecords(t, g, root, q, n, l, r);
    assert forall i :: 0 <= i < |a| ==> a[i] == c[i];
    assert forall i :: 0 <= i < |b| ==> b[i] == c[|a| + i];
    assert c[0].key < c[|a|].key;
  }

  lemma ShareLeavesParent(t: Nodes, g: Infos, root: PageId, q: PageId, n: nat, l: PageId, r: PageId,
                          a: seq<Entry<Rid>>, b: seq<Entry<Rid>>)
    requires CanShareLeaves(t, g, root, q, n, l, r, a, b)
    ensures var t', g' := ShareLeaves(t, q, n, l, r, a, b), MoveInfos(g, l, r, b[0].key);
            ContentOk(t', g', g', q)
  {
    var t', g' := ShareLeaves(t, q, n, l, r, a, b), MoveInfos(g, l, r, b[0].key);
    var s, s' := t[q].slots, t'[q].slots;
    NeighbourFacts(t, g, root, q, n, l, r);
    ShareLeavesHalves(t, g, root, q, n, l, r, a, b);
    SetKeyOk(g[q], s, n, b[0].key);
    forall i | 0 <= i < |s| ensures ChildOk(t', g', g'[q], q, s', i) {
      OtherChild(t, g, root, q, n, l, r, q, i);
      SetKeyRange(g[q], s, n, b[0].key, i);
    }
  }

  lemma ShareLeavesLeaf(t: Nodes, g: Infos, root: PageId, q: PageId, n: nat, l: PageId, r: PageId,
                        a: seq<Entry<Rid>>, b: seq<Entry<Rid>>, p: PageId)
    requires CanShareLeaves(t, g, root, q, n, l, r, a, b) && p in t && t[p].Leaf?
    ensures var t', g' := ShareLeaves(t, q, n, l, r, a, b), MoveInfos(g, l, r, b[0].key);
            ContentOk(t', g', g', p)
  {
    NeighbourFacts(t, g, root, q, n, l, r);
    ShareLeavesHalves(t, g, root, q, n, l, r, a, b);
    NextIsNeighbour(t, g, root, l, r);
    assert PageOk(t, g, g, root, INVALID_PAGE_ID, p);
    if p != l && t[p].next == r {
      NextInjective(t, g, root, l, p);
    }
  }

  lemma ShareLeavesContent(t: Nodes, g: Infos, root: PageId, q: PageId, n: nat, l: PageId, r: PageId,
                           a: seq<Entry<Rid>>, b: seq<Entry<Rid>>, p: PageId)
    requires CanShareLeaves(t, g, root, q, n, l, r, a, b) && p in t
    ensures var t', g' := ShareLeaves(t, q, n, l, r, a, b), MoveInfos(g, l, r, b[0].key);
            ContentOk(t', g', g', p)
  {
    if t[p].Leaf? {
      ShareLeavesLeaf(t, g, root, q, n, l, r, a, b, p);
    } else if p == q {
      ShareLeavesParent(t, g, root, q, n, l, r, a, b);
    } else {
      var t', g' := ShareLeaves(t, q, n, l, r, a, b), MoveInfos(g, l, r, b[0].key);
      NeighbourFacts(t, g, root, q, n, l, r);
      assert PageOk(t, g, g, root, INVALID_PAGE_ID, p);
      forall i | 0 <= i < |t[p].slots| ensures ChildOk(t', g', g'[p], p, t'[p].slots, i) {
        OtherChild(t, g, root, q, n, l, r, p, i);
      }
    }
  }

  lemma ShareLeavesKeepsShape(t: Nodes, g: Infos, root: PageId, q: PageId, n: nat, l: PageId, r: PageId,
                              a: seq<Entry<Rid>>, b: seq<Entry<Rid>>)
    requires CanShareLeaves(t, g, root, q, n, l, r, a, b)
    ensures Shape(ShareLeaves(t, q, n, l, r, a, b), MoveInfos(g, l, r, b[0].key), root)
    ensures SameRecords(t, ShareLeaves(t, q, n, l, r, a, b))
  {
    var t', g' := ShareLeaves(t, q, n, l, r, a, b), MoveInfos(g, l, r, b[0].key);
    NeighbourFacts(t, g, root, q, n, l, r);
    ShareLeavesHalves(t, g, root, q, n, l, r, a, b);
    hide PageOk;
    forall p | p in t' ensures PageOk(t', g', g', root, INVALID_PAGE_ID, p) {
      SharedLeafPageOk(t, g, root, q, n, l, r, a, b, p);
    }
    ShareLeavesRecords(t, g, root, q, n, l, r, a, b);
  }

  lemma SharedLeafPageOk(t: Nodes, g: Infos, root: PageId, q: PageId, n: nat, l: PageId, r: PageId,
                         a: seq<Entry<Rid>>, b: seq<Entry<Rid>>, p: PageId)
    requires CanShareLeaves(t, g, root, q, n, l, r, a, b) && p in t
    ensures l in g && r in g
    ensures var t', g' := ShareLeaves(t, q, n, l, r, a, b), MoveInfos(g, l, r, b[0].key);
            p in t' && p in g' && root in g' && PageOk(t', g', g', root, INVALID_PAGE_ID, p)
  {
    NeighbourFacts(t, g, root, q, n, l, r);
    ShareLeavesHalves(t, g, root, q, n, l, r, a, b);
    assert PageOk(t, g, g, root, INVALID_PAGE_ID, p);
    ShareLeavesContent(t, g, root, q, n, l, r, a, b, p);
    if p != root && t[p].parent == q {
      SetKeyKeepsChildren(t[q].slots, n, b[0].key, p);
    }
  }

  lemma ShareLeavesRecords(t: Nodes, g: Infos, root: PageId, q: PageId, n: nat, l: PageId, r: PageId,
                           a: seq<Entry<Rid>>, b: seq<Entry<Rid>>)
    requires CanShareLeaves(t, g, root, q, n, l, r, a, b)
    ensures SameRecords(t, ShareLeaves(t, q, n, l, r, a, b))
  {
    var t' := ShareLeaves(t, q, n, l, r, a, b);
    NeighbourFacts(t, g, root, q, n, l, r);
    forall key, value ensures Stores(t, key, value) <==> Stores(t', key, value) {
      var e := Entry(key, value);
      assert (e in t[l].records || e in t[r].records) <==> e in t[l].records + t[r].records;
      assert (e in a || e in b) <==> e in a + b;
      if Stores(t, key, value) {
        var p :| p in t && Holds(t[p], key, value);
        assert Holds(t'[p], key, value) || Holds(t'[l], key, value) || Holds(t'[r], key, value);
      }
      if Stores(t', key, value) {
        var p :| p in t' && Holds(t'[p], key, value);
        assert Holds(t[p], key, value) || Holds(t[l], key, value) || Holds(t[r], key, value);
      }
    }
  }

  // ---------- Merging two leaves ----------

  function MergeInfos(g: Infos, l: PageId, r: PageId): Infos
    requires l in g && r in g && l != r
  {
    (g - {r})[l := g[l].(hi := g[r].hi)]
  }

  function MergeLeaves(t: Nodes, q: PageId, n: nat, l: PageId, r: PageId): Nodes
    requires q in t && l in t && r in t && t[l].Leaf? && t[r].Leaf?
    requires t[q].Internal? && n < |t[q].slots|
  {
    (t - {r})[l := t[l].(next := t[r].next, records := t[l].records + t[r].records)]
             [q := t[q].(slots := RemoveSlot(t[q].slots, n))]
  }

  lemma RemoveSlotRange(own: Info, s: seq<Entry<PageId>>, n: nat, i: nat)
    requires 0 < n < |s| && i < |s| - 1
    ensures var s' := RemoveSlot(s, n);
            && |s'| == |s| - 1
            && s'[i].value == s[if i < n then i else i + 1].value
            && SlotLo(s', own, i) == SlotLo(s, own, if i < n then i else i + 1)
            && SlotHi(s', own, i) == SlotHi(s, own, if i + 1 < n then i else i + 1)
  {
  }

  lemma RemoveSlotOk(own: Info, s: seq<Entry<PageId>>, n: nat)
    requires SlotsOk(own, s) && 0 < n < |s|
    ensures SlotsOk(own, RemoveSlot(s, n))
  {
  }

  lemma RemoveSlotKeepsChildren(s: seq<Entry<PageId>>, n: nat, c: PageId)
    requires n < |s| && IsChild(s, c) && c != s[n].value
    ensures IsChild(RemoveSlot(s, n), c)
  {
    var i := ChildIndex(s, c);
    assert RemoveSlot(s, n)[if i < n then i else i - 1] == s[i];
  }

  lemma MergeLeavesParent(t: Nodes, g: Infos, root: PageId, q: PageId, n: nat, l: PageId, r: PageId)
    requires Shape(t, g, root) && Neighbours(t, q, n, l, r) && t[l].Leaf? && t[r].Leaf?
    ensures l != r && r != q
    ensures var t', g' := MergeLeaves(t, q, n, l, r), MergeInfos(g, l, r);
            ContentOk(t', g', g', q)
  {
    NeighbourFacts(t, g, root, q, n, l, r);
    var t', g' := MergeLeaves(t, q, n, l, r), MergeInfos(g, l, r);
    var s, s' := t[q].slots, t'[q].slots;
    RemoveSlotOk(g[q], s, n);
    forall i | 0 <= i < |s'| ensures ChildOk(t', g', g'[q], q, s', i) {
      MergedChild(t, g, root, q, n, l, r, i);
    }
  }

  lemma MergedChild(t: Nodes, g: Infos, root: PageId, q: PageId, n: nat, l: PageId, r: PageId, i: nat)
    requires Shape(t, g, root) && Neighbours(t, q, n, l, r) && t[l].Leaf? && t[r].Leaf?
    requires i < |t[q].slots| - 1
    ensures l != r && r != q && l in g && r in g
    ensures var t', g' := MergeLeaves(t, q, n, l, r), MergeInfos(g, l, r);
            q in g' && q in t' && ChildOk(t', g', g'[q], q, t'[q].slots, i)
  {
    NeighbourFacts(t, g, root, q, n, l, r);
    RemoveSlotRange(g[q], t[q].slots, n, i);
    OtherChild(t, g, root, q, n, l, r, q, if i < n then i else i + 1);
  }

  lemma MergeLeavesLeaf(t: Nodes, g: Infos, root: PageId, q: PageId, n: nat, l: PageId, r: PageId, p: PageId)
    requires Shape(t, g, root) && Neighbours(t, q, n, l, r) && t[l].Leaf? && t[r].Leaf?
    requires p in t && t[p].Leaf? && p != r && l != r
    ensures var t', g' := MergeLeaves(t, q, n, l, r), MergeInfos(g, l, r);
            p in t' && p in g' && ContentOk(t', g', g', p)
  {
    NeighbourFacts(t, g, root, q, n, l, r);
    JoinedRecords(t, g, root, q, n, l, r);
    NextIsNeighbour(t, g, root, l, r);
    assert PageOk(t, g, g, root, INVALID_PAGE_ID, p);
    if p != l && t[p].next == r {
      NextInjective(t, g, root, l, p);
    }
    NextIsNeighbour(t, g, root, r, r);
  }

  lemma MergeLeavesContent(t: Nodes, g: Infos, root: PageId, q: PageId, n: nat, l: PageId, r: PageId, p: PageId)
    requires Shape(t, g, root) && Neighbours(t, q, n, l, r) && t[l].Leaf? && t[r].Leaf?
    requires p in t && p != r && l != r
    ensures var t', g' := MergeLeaves(t, q, n, l, r), MergeInfos(g, l, r);
            p in t' && p in g' && ContentOk(t', g', g', p)
  {
    if t[p].Leaf? {
      MergeLeavesLeaf(t, g, root, q, n, l, r, p);
    } else if p == q {
      MergeLeavesParent(t, g, root, q, n, l, r);
    } else {
      var t', g' := MergeLeaves(t, q, n, l, r), MergeInfos(g, l, r);
      NeighbourFacts(t, g, root, q, n, l, r);
      assert PageOk(t, g, g, root, INVALID_PAGE_ID, p);
      forall i | 0 <= i < |t[p].slots| ensures ChildOk(t', g', g'[p], p, t'[p].slots, i) {
        OtherChild(t, g, root, q, n, l, r, p, i);
      }
    }
  }

  lemma MergeLeavesLinks(t: Nodes, g: Infos, root: PageId, q: PageId, n: nat, l: PageId, r: PageId, p: PageId)
    requires Shape(t, g, root) && Neighbours(t, q, n, l, r) && t[l].Leaf? && t[r].Leaf?
    requires p in t && p != r && p != root
    ensures var t' := MergeLeaves(t, q, n, l, r); p in t' && Linked(t', p)
  {
    NeighbourFacts(t, g, root, q, n, l, r);
    var i := RangeInParent(t, g, root, p);
    if t[p].parent == q {
      RemoveSlotKeepsChildren(t[q].slots, n, p);
    }
  }

  lemma MergeLeavesKeepsShape(t: Nodes, g: Infos, root: PageId, q: PageId, n: nat, l: PageId, r: PageId)
    requires Shape(t, g, root) && Neighbours(t, q, n, l, r) && t[l].Leaf? && t[r].Leaf?
    ensures l != r && Shape(MergeLeaves(t, q, n, l, r), MergeInfos(g, l, r), root)
    ensures SameRecords(t, MergeLeaves(t, q, n, l, r))
  {
    NeighbourFacts(t, g, root, q, n, l, r);
    var t', g' := MergeLeaves(t, q, n, l, r), MergeInfos(g, l, r);
    forall p | p in t' ensures PageOk(t', g', g', root, INVALID_PAGE_ID, p) {
      assert PageOk(t, g, g, root, INVALID_PAGE_ID, p);
      MergeLeavesContent(t, g, root, q, n, l, r, p);
      if p != root {
        MergeLeavesLinks(t, g, root, q, n, l, r, p);
      }
    }
    MergeLeavesRecords(t, g, root, q, n, l, r);
  }

  lemma MergeLeavesRecords(t: Nodes, g: Infos, root: PageId, q: PageId, n: nat, l: PageId, r: PageId)
    requires Shape(t, g, root) && Neighbours(t, q, n, l, r) && t[l].Leaf? && t[r].Leaf?
    ensures SameRecords(t, MergeLeaves(t, q, n, l, r))
  {
    var t' := MergeLeaves(t, q, n, l, r);
    NeighbourFacts(t, g, root, q, n, l, r);
    forall key, value ensures Stores(t, key, value) <==> Stores(t', key, value) {
      if Stores(t, key, value) {
        var p :| p in t && Holds(t[p], key, value);
        assert Holds(t'[if p == r then l else p], key, value);
      }
      if Stores(t', key, value) {
        var p :| p in t' && Holds(t'[p], key, value);
        assert Holds(t[p], key, value) || Holds(t[l], key, value) || Holds(t[r], key, value);
      }
    }
  }

  // ---------- Losing the root ----------

  /** The only child of an internal root becomes the root. */
  function CollapseRoot(t: Nodes, root: PageId, c: PageId): Nodes
    requires c in t
  {
    (t - {root})[c := t[c].(parent := INVALID_PAGE_ID)]
  }

  lemma CollapseRootKeepsShape(t: Nodes, g: Infos, root: PageId, c: PageId)
    requires Shape(t, g, root) && t[root].Internal? && |t[root].slots| == 1 && c == t[root].slots[0].value
    ensures c in t && c != root && Shape(CollapseRoot(t, root, c), g - {root}, c)
    ensures SameRecords(t, CollapseRoot(t, root, c))
  {
    ChildFacts(t, g, root, root, 0);
    var t', g' := CollapseRoot(t, root, c), g - {root};
    forall p | p in t' ensures PageOk(t', g', g', c, INVALID_PAGE_ID, p) {
      CollapseRootPage(t, g, root, c, p);
    }
    SameLeavesSameRecords(t, t');
  }

  lemma CollapseRootPage(t: Nodes, g: Infos, root: PageId, c: PageId, p: PageId)
    requires Shape(t, g, root) && t[root].Internal? && |t[root].slots| == 1 && c == t[root].slots[0].value
    requires c in t && c != root && p in t && p != root
    ensures PageOk(CollapseRoot(t, root, c), g - {root}, g - {root}, c, INVALID_PAGE_ID, p)
  {
    var t', g' := CollapseRoot(t, root, c), g - {root};
    ChildFacts(t, g, root, root, 0);
    assert PageOk(t, g, g, root, INVALID_PAGE_ID, p);
    if t[p].Internal? {
      forall i | 0 <= i < |t[p].slots| ensures ChildOk(t', g', g'[p], p, t'[p].slots, i) {
        ChildFacts(t, g, root, p, i);
      }
    }
    var i := RangeInParent(t, g, root, p);
    if t[p].Leaf? && t[p].next != INVALID_PAGE_ID {
      assert t[p].next != root;
    }
  }

  // ---------- The same steps for trees over a map ----------

  lemma ExceptMore(t: Nodes, g: Infos, root: PageId, m: map<int32, Rid>, leafMax: nat, internalMax: nat,
                   except: set<PageId>, more: set<PageId>)
    requires TreeOver(t, g, root, m, leafMax, internalMax, except) && except <= more
    ensures TreeOver(t, g, root, m, leafMax, internalMax, more)
  {
    forall p | p in t && p !in more ensures PageSizeOk(t, root, leafMax, internalMax, p) {
    }
  }

  lemma ExceptNone(t: Nodes, g: Infos, root: PageId, m: map<int32, Rid>, leafMax: nat, internalMax: nat, p: PageId)
    requires TreeOver(t, g, root, m, leafMax, internalMax, {p})
    requires p in t && SizeOk(t[p], p == root, leafMax, internalMax)
    ensures TreeOver(t, g, root, m, leafMax, internalMax, {})
  {
    forall x | x in t ensures PageSizeOk(t, root, leafMax, internalMax, x) {
    }
  }

  /** A page below the root that is one entry short has siblings to turn to. */
  lemma ShortPageFacts(t: Nodes, g: Infos, root: PageId, m: map<int32, Rid>, leafMax: nat, internalMax: nat, x: PageId)
    requires TreeOver(t, g, root, m, leafMax, internalMax, {x}) && x in t && 3 <= internalMax
    ensures t[x].parent == INVALID_PAGE_ID <==> x == root
    ensures x in g && root in g && g[x].level <= g[root].level
    ensures x != root ==>
              && Linked(t, x) && t[x].parent != x
              && 2 <= t[t[x].parent].Size() <= internalMax && g[t[x].parent].level == g[x].level + 1 <= g[root].level
              && forall j :: 0 <= j < |t[t[x].parent].slots| ==> t[t[x].parent].slots[j].value in t
  {
    assert PageOk(t, g, g, root, INVALID_PAGE_ID, x);
    if x != root {
      var i := RangeInParent(t, g, root, x);
      var q := t[x].parent;
      assert PageSizeOk(t, root, leafMax, internalMax, q);
      forall j | 0 <= j < |t[q].slots| ensures t[q].slots[j].value in t {
        ChildFacts(t, g, root, q, j);
      }
    }
  }

  /** Two neighbouring leaves of which one, `x`, is one record short: what may be borrowed, or how they merge. */
  lemma LeafPairSizes(t: Nodes, g: Infos, root: PageId, m: map<int32, Rid>, leafMax: nat, internalMax: nat,
                      q: PageId, n: nat, l: PageId, r: PageId, x: PageId)
    requires TreeOver(t, g, root, m, leafMax, internalMax, {x}) && Neighbours(t, q, n, l, r) && x in {l, r}
    requires t[x].Leaf? && t[x].Size() + 1 == MinSize(true, leafMax) && 2 <= leafMax
    ensures TreeOver(t, g, root, m, leafMax, internalMax, {l, r})
    ensures l != r && l != q && r != q && l != root && r != root
    ensures t[l].Leaf? && t[r].Leaf?
    ensures var y := if x == l then r else l; MinSize(true, leafMax) <= t[y].Size() <= leafMax
  {
    NeighbourFacts(t, g, root, q, n, l, r);
    var y := if x == l then r else l;
    assert PageSizeOk(t, root, leafMax, internalMax, y);
    ExceptMore(t, g, root, m, leafMax, internalMax, {x}, {l, r});
  }

  /** Moving records between two leaves so that both have legal sizes. */
  lemma ShareLeavesTree(t: Nodes, g: Infos, root: PageId, m: map<int32, Rid>, leafMax: nat, internalMax: nat,
                        q: PageId, n: nat, l: PageId, r: PageId, a: seq<Entry<Rid>>, b: seq<Entry<Rid>>)
    requires TreeOver(t, g, root, m, leafMax, internalMax, {l, r})
    requires CanShareLeaves(t, g, root, q, n, l, r, a, b)
    requires MinSize(true, leafMax) <= |a| <= leafMax && MinSize(true, leafMax) <= |b| <= leafMax
    ensures l in g && r in g
    ensures var t' := ShareLeaves(t, q, n, l, r, a, b);
            TreeOver(t', MoveInfos(g, l, r, b[0].key), root, m, leafMax, internalMax, {})
  {
    NeighbourFacts(t, g, root, q, n, l, r);
    ShareLeavesKeepsShape(t, g, root, q, n, l, r, a, b);
    var t' := ShareLeaves(t, q, n, l, r, a, b);
    RepresentsSame(t, t', m);
    forall p | p in t' ensures PageSizeOk(t', root, leafMax, internalMax, p) {
      assert p !in {l, r} ==> PageSizeOk(t, root, leafMax, internalMax, p);
    }
  }

  /** Merging two leaves that fit into one; the parent loses a slot and may now be short. */
  lemma MergeLeavesTree(t: Nodes, g: Infos, root: PageId, m: map<int32, Rid>, leafMax: nat, internalMax: nat,
                        q: PageId, n: nat, l: PageId, r: PageId)
    requires TreeOver(t, g, root, m, leafMax, internalMax, {l, r})
    requires Neighbours(t, q, n, l, r) && t[l].Leaf? && t[r].Leaf?
    requires MinSize(true, leafMax) <= |t[l].records| + |t[r].records| <= leafMax
    ensures l in g && r in g && q != l && q != r && l != r && root != r
    ensures SizeOk(t[q], q == root, leafMax, internalMax)
    ensures var t' := MergeLeaves(t, q, n, l, r);
            TreeOver(t', MergeInfos(g, l, r), root, m, leafMax, internalMax, {q}) && t'[q].Size() == t[q].Size() - 1
  {
    NeighbourFacts(t, g, root, q, n, l, r);
    MergeLeavesKeepsShape(t, g, root, q, n, l, r);
    var t' := MergeLeaves(t, q, n, l, r);
    RepresentsSame(t, t', m);
    assert PageSizeOk(t, root, leafMax, internalMax, q);
    forall p | p in t' && p != q ensures PageSizeOk(t', root, leafMax, internalMax, p) {
      assert p != l ==> PageSizeOk(t, root, leafMax, internalMax, p);
    }
  }

  /** The only child of the root takes its place. */
  lemma CollapseRootTree(t: Nodes, g: Infos, root: PageId, m: map<int32, Rid>, leafMax: nat, internalMax: nat)
    requires TreeOver(t, g, root, m, leafMax, internalMax, {root}) && 2 <= leafMax && 3 <= internalMax
    requires t[root].Internal? && |t[root].slots| == 1
    ensures var c := t[root].slots[0].value;
            && c in t && c != root
            && TreeOver(CollapseRoot(t, root, c), g - {root}, c, m, leafMax, internalMax, {})
  {
    var c := t[root].slots[0].value;
    CollapseRootKeepsShape(t, g, root, c);
    var t' := CollapseRoot(t, root, c);
    RepresentsSame(t, t', m);
    forall p | p in t' ensures PageSizeOk(t', c, leafMax, internalMax, p) {
      assert PageSizeOk(t, root, leafMax, internalMax, p);
    }
  }

  lemma StoredSomewhere(t: Nodes, m: map<int32, Rid>, k: int32)
    requires Represents(t, m) && k in m
    ensures Stores(t, k, m[k])
  {
  }

  /** When the root is a leaf it is the only page. */
  lemma RootLeafAlone(t: Nodes, g: Infos, root: PageId, m: map<int32, Rid>)
    requires Shape(t, g, root) && Represents(t, m) && t[root].Leaf?
    ensures t.Keys == {root}
    ensures t[root].records == [] ==> m == map[]
  {
    assert PageOk(t, g, g, root, INVALID_PAGE_ID, root);
    forall p | p in t ensures p == root {
      if p != root {
        var i := RangeInParent(t, g, root, p);
      }
    }
    if t[root].records == [] {
      if m != map[] {
        var k :| k in m;
        StoredSomewhere(t, m, k);
      }
    }
  }
}
