/** Moving a boundary between two internal pages, and merging them. */
module TreeInternalRemovalSteps {
  import opened Types
  import opened TreePages
  import opened TreeShape
  import opened TreeSteps
  import opened TreeRemovalSteps

  ghost predicate InternalNeighbours(t: Nodes, g: Infos, root: PageId, q: PageId, n: nat, l: PageId, r: PageId) {
    && Shape(t, g, root) && Neighbours(t, q, n, l, r)
    && t[l].Internal? && t[r].Internal? && |t[r].slots| > 0
  }

  /** The slots of both pages in order; the separator of the parent comes down between them. */
  function Joined(t: Nodes, q: PageId, n: nat, l: PageId, r: PageId): seq<Entry<PageId>>
    requires q in t && t[q].Internal? && n < |t[q].slots|
    requires l in t && t[l].Internal? && r in t && t[r].Internal? && |t[r].slots| > 0
  {
    t[l].slots + SetKey(t[r].slots, 0, t[q].slots[n].key)
  }

  function JoinedInfo(g: Infos, l: PageId, r: PageId): Info
    requires l in g && r in g
  {
    g[l].(hi := g[r].hi)
  }

  lemma JoinedOk(t: Nodes, g: Infos, root: PageId, q: PageId, n: nat, l: PageId, r: PageId)
    requires InternalNeighbours(t, g, root, q, n, l, r)
    ensures SlotsOk(JoinedInfo(g, l, r), Joined(t, q, n, l, r))
  {
    NeighbourFacts(t, g, root, q, n, l, r);
    var a, b := t[l].slots, SetKey(t[r].slots, 0, t[q].slots[n].key);
    var c := Joined(t, q, n, l, r);
    assert forall i :: 0 <= i < |c| ==> c[i] == if i < |a| then a[i] else b[i - |a|];
    assert forall i :: 0 <= i < |b| ==> g[r].lo <= b[i].key < g[r].hi;
    forall i, j | 1 <= i < j < |c| ensures c[i].key < c[j].key {
    }
  }

  /** Each child of either page keeps its range in the joined slots. */
  lemma JoinedChild(t: Nodes, g: Infos, root: PageId, q: PageId, n: nat, l: PageId, r: PageId, i: nat)
    requires InternalNeighbours(t, g, root, q, n, l, r) && i < |Joined(t, q, n, l, r)|
    ensures var c, own := Joined(t, q, n, l, r), JoinedInfo(g, l, r);
            var x := c[i].value;
            && x in t && x !in {l, r, q, root}
            && t[x].parent == (if i < |t[l].slots| then l else r)
            && g[x] == Info(g[x].level, SlotLo(c, own, i), SlotHi(c, own, i)) && g[x].level + 1 == own.level
  {
    NeighbourFacts(t, g, root, q, n, l, r);
    var m := |t[l].slots|;
    if i < m {
      ChildFacts(t, g, root, l, i);
    } else {
      ChildFacts(t, g, root, r, i - m);
    }
  }

  lemma JoinedDistinct(t: Nodes, g: Infos, root: PageId, q: PageId, n: nat, l: PageId, r: PageId, i: nat, j: nat)
    requires InternalNeighbours(t, g, root, q, n, l, r) && i < j < |Joined(t, q, n, l, r)|
    ensures Joined(t, q, n, l, r)[i].value != Joined(t, q, n, l, r)[j].value
  {
    JoinedOk(t, g, root, q, n, l, r);
    JoinedChild(t, g, root, q, n, l, r, i);
    JoinedChild(t, g, root, q, n, l, r, j);
  }

  // ---------- Merging ----------

  function MergeInternals(t: Nodes, q: PageId, n: nat, l: PageId, r: PageId): Nodes
    requires q in t && t[q].Internal? && n < |t[q].slots|
    requires l in t && t[l].Internal? && r in t && t[r].Internal? && |t[r].slots| > 0
  {
    var c := Joined(t, q, n, l, r);
    Reparent((t - {r})[l := t[l].(slots := c)][q := t[q].(slots := RemoveSlot(t[q].slots, n))], Children(c), l)
  }

  /** The pages whose parent pointer a merge rewrites are the children of the two pages. */
  lemma JoinedChildren(t: Nodes, g: Infos, root: PageId, q: PageId, n: nat, l: PageId, r: PageId, x: PageId)
    requires InternalNeighbours(t, g, root, q, n, l, r) && x in t
    ensures var c := Joined(t, q, n, l, r);
            && (x in Children(c) ==> x !in {l, r, q, root} && t[x].parent in {l, r})
            && (x != root && t[x].parent in {l, r} ==> x in Children(c) && IsChild(c, x))
  {
    NeighbourFacts(t, g, root, q, n, l, r);
    var c := Joined(t, q, n, l, r);
    if x in Children(c) {
      var i :| 0 <= i < |c| && c[i].value == x;
      JoinedChild(t, g, root, q, n, l, r, i);
    }
    if x != root && t[x].parent in {l, r} {
      var i := RangeInParent(t, g, root, x);
      assert c[if t[x].parent == l then i else |t[l].slots| + i].value == x;
    }
  }

  lemma MergeInternalsLeft(t: Nodes, g: Infos, root: PageId, q: PageId, n: nat, l: PageId, r: PageId)
    requires InternalNeighbours(t, g, root, q, n, l, r)
    ensures l != r && l != q
    ensures var t', g' := MergeInternals(t, q, n, l, r), MergeInfos(g, l, r);
            ContentOk(t', g', g', l)
  {
    NeighbourFacts(t, g, root, q, n, l, r);
    JoinedOk(t, g, root, q, n, l, r);
    var t', g' := MergeInternals(t, q, n, l, r), MergeInfos(g, l, r);
    var c := Joined(t, q, n, l, r);
    JoinedChildren(t, g, root, q, n, l, r, l);
    assert t'[l].slots == c;
    forall i | 0 <= i < |c| ensures ChildOk(t', g', g'[l], l, c, i) {
      JoinedChild(t, g, root, q, n, l, r, i);
      assert c[i].value in Children(c);
    }
  }

  lemma MergeInternalsParent(t: Nodes, g: Infos, root: PageId, q: PageId, n: nat, l: PageId, r: PageId)
    requires InternalNeighbours(t, g, root, q, n, l, r)
    ensures l != r && r != q
    ensures var t', g' := MergeInternals(t, q, n, l, r), MergeInfos(g, l, r);
            ContentOk(t', g', g', q)
  {
    NeighbourFacts(t, g, root, q, n, l, r);
    var t', g' := MergeInternals(t, q, n, l, r), MergeInfos(g, l, r);
    var s, s' := t[q].slots, RemoveSlot(t[q].slots, n);
    JoinedChildren(t, g, root, q, n, l, r, q);
    assert t'[q].slots == s';
    RemoveSlotOk(g[q], s, n);
    forall i | 0 <= i < |s'| ensures ChildOk(t', g', g'[q], q, s', i) {
      RemoveSlotRange(g[q], s, n, i);
      var j := if i < n then i else i + 1;
      OtherChild(t, g, root, q, n, l, r, q, j);
      JoinedChildren(t, g, root, q, n, l, r, s[j].value);
    }
  }

  lemma MergeInternalsLinks(t: Nodes, g: Infos, root: PageId, q: PageId, n: nat, l: PageId, r: PageId, p: PageId)
    requires InternalNeighbours(t, g, root, q, n, l, r) && p in t && p != r && p != root
    ensures var t' := MergeInternals(t, q, n, l, r); p in t' && Linked(t', p)
  {
    NeighbourFacts(t, g, root, q, n, l, r);
    var i := RangeInParent(t, g, root, p);
    JoinedChildren(t, g, root, q, n, l, r, p);
    JoinedChildren(t, g, root, q, n, l, r, l);
    JoinedChildren(t, g, root, q, n, l, r, q);
    JoinedChildren(t, g, root, q, n, l, r, t[p].parent);
    if t[p].parent == q {
      RemoveSlotKeepsChildren(t[q].slots, n, p);
    }
  }

  lemma MergeInternalsPage(t: Nodes, g: Infos, root: PageId, q: PageId, n: nat, l: PageId, r: PageId, p: PageId)
    requires InternalNeighbours(t, g, root, q, n, l, r)
    requires p in t && l != r && p !in {l, r, q} && root != r
    ensures var t', g' := MergeInternals(t, q, n, l, r), MergeInfos(g, l, r);
            p in t' && p in g' && ContentOk(t', g', g', p)
  {
    NeighbourFacts(t, g, root, q, n, l, r);
    var t', g' := MergeInternals(t, q, n, l, r), MergeInfos(g, l, r);
    assert PageOk(t, g, g, root, INVALID_PAGE_ID, p);
    if t[p].Internal? {
      forall i | 0 <= i < |t[p].slots| ensures ChildOk(t', g', g'[p], p, t'[p].slots, i) {
        OtherChild(t, g, root, q, n, l, r, p, i);
        JoinedChildren(t, g, root, q, n, l, r, t[p].slots[i].value);
      }
    }
  }

  lemma MergeInternalsKeepsShape(t: Nodes, g: Infos, root: PageId, q: PageId, n: nat, l: PageId, r: PageId)
    requires InternalNeighbours(t, g, root, q, n, l, r)
    ensures l != r && Shape(MergeInternals(t, q, n, l, r), MergeInfos(g, l, r), root)
    ensures SameRecords(t, MergeInternals(t, q, n, l, r))
  {
    hide PageOk;
    NeighbourFacts(t, g, root, q, n, l, r);
    var t', g' := MergeInternals(t, q, n, l, r), MergeInfos(g, l, r);
    JoinedChildren(t, g, root, q, n, l, r, root);
    forall p | p in t' ensures PageOk(t', g', g', root, INVALID_PAGE_ID, p) {
      MergedPageOk(t, g, root, q, n, l, r, p);
    }
    SameLeavesSameRecords(t, t');
  }

  lemma MergedPageOk(t: Nodes, g: Infos, root: PageId, q: PageId, n: nat, l: PageId, r: PageId, p: PageId)
    requires InternalNeighbours(t, g, root, q, n, l, r) && p in t && p != r
    ensures l != r && l in g && r in g && root != r
    ensures var t', g' := MergeInternals(t, q, n, l, r), MergeInfos(g, l, r);
            p in t' && p in g' && root in g' && PageOk(t', g', g', root, INVALID_PAGE_ID, p)
  {
    NeighbourFacts(t, g, root, q, n, l, r);
    assert PageOk(t, g, g, root, INVALID_PAGE_ID, p);
    MergeInternalsLeft(t, g, root, q, n, l, r);
    MergeInternalsParent(t, g, root, q, n, l, r);
    if p !in {l, q} {
      MergeInternalsPage(t, g, root, q, n, l, r, p);
    }
    if p != root {
      MergeInternalsLinks(t, g, root, q, n, l, r, p);
    }
  }

  // ---------- Moving the boundary ----------

  /** `a` and `b` divide the joined slots; the key of `b[0]` is not used, `key` takes its place in the parent. */
  ghost predicate CanShareInternals(t: Nodes, g: Infos, root: PageId, q: PageId, n: nat, l: PageId, r: PageId,
                                    a: seq<Entry<PageId>>, b: seq<Entry<PageId>>, key: int32) {
    && InternalNeighbours(t, g, root, q, n, l, r)
    && |a| > 0 && |b| > 0 && a + SetKey(b, 0, key) == Joined(t, q, n, l, r)
  }

  function ShareInternals(t: Nodes, q: PageId, n: nat, l: PageId, r: PageId,
                          a: seq<Entry<PageId>>, b: seq<Entry<PageId>>, key: int32): Nodes
    requires q in t && t[q].Internal? && n < |t[q].slots|
    requires l in t && t[l].Internal? && r in t && t[r].Internal?
  {
    var t0 := t[l := t[l].(slots := a)][r := t[r].(slots := b)][q := t[q].(slots := SetKey(t[q].slots, n, key))];
    Reparent(Reparent(t0, Children(a), l), Children(b), r)
  }

  /** Where each entry of the joined slots ends up. */
  lemma SharedChild(t: Nodes, g: Infos, root: PageId, q: PageId, n: nat, l: PageId, r: PageId,
                    a: seq<Entry<PageId>>, b: seq<Entry<PageId>>, key: int32, i: nat)
    requires CanShareInternals(t, g, root, q, n, l, r, a, b, key) && i < |a| + |b|
    ensures Joined(t, q, n, l, r)[i].value == if i < |a| then a[i].value else b[i - |a|].value
    ensures Joined(t, q, n, l, r)[i].value in Children(b) <==> |a| <= i
    ensures Joined(t, q, n, l, r)[i].value in Children(a) <==> i < |a|
  {
    var c := Joined(t, q, n, l, r);
    assert forall j :: 0 <= j < |c| ==> c[j].value == if j < |a| then a[j].value else b[j - |a|].value;
    var x := c[i].value;
    if i < |a| && x in Children(b) {
      var j :| 0 <= j < |b| && b[j].value == x;
      JoinedDistinct(t, g, root, q, n, l, r, i, |a| + j);
    }
    if |a| <= i && x in Children(a) {
      var j :| 0 <= j < |a| && a[j].value == x;
      JoinedDistinct(t, g, root, q, n, l, r, j, i);
    }
  }

  /** The parent pointer of every page afterwards. */
  lemma SharedParent(t: Nodes, g: Infos, root: PageId, q: PageId, n: nat, l: PageId, r: PageId,
                     a: seq<Entry<PageId>>, b: seq<Entry<PageId>>, key: int32, x: PageId)
    requires CanShareInternals(t, g, root, q, n, l, r, a, b, key) && x in t
    ensures x in Children(a) || x in Children(b) ==> x !in {l, r, q, root} && t[x].parent in {l, r}
    ensures x != root && t[x].parent in {l, r} ==> x in Children(a) || x in Children(b)
    ensures x in Children(a) ==> x !in Children(b) && IsChild(a, x)
    ensures x in Children(b) ==> IsChild(b, x)
  {
    var c := Joined(t, q, n, l, r);
    JoinedChildren(t, g, root, q, n, l, r, x);
    assert forall j :: 0 <= j < |c| ==> c[j].value == if j < |a| then a[j].value else b[j - |a|].value;
    if x in Children(a) {
      var j :| 0 <= j < |a| && a[j].value == x;
      SharedChild(t, g, root, q, n, l, r, a, b, key, j);
      assert c[j].value == x;
    }
    if x in Children(b) {
      var j :| 0 <= j < |b| && b[j].value == x;
      assert c[|a| + j].value == x;
    }
    if x in Children(c) {
      var j :| 0 <= j < |c| && c[j].value == x;
      SharedChild(t, g, root, q, n, l, r, a, b, key, j);
    }
  }

  lemma SharedHalves(t: Nodes, g: Infos, root: PageId, q: PageId, n: nat, l: PageId, r: PageId,
                     a: seq<Entry<PageId>>, b: seq<Entry<PageId>>, key: int32)
    requires CanShareInternals(t, g, root, q, n, l, r, a, b, key)
    ensures g[l].lo < key < g[r].hi
    ensures SlotsOk(g[l].(hi := key), a) && SlotsOk(g[r].(lo := key), b)
  {
    JoinedOk(t, g, root, q, n, l, r);
    NeighbourFacts(t, g, root, q, n, l, r);
    var c := Joined(t, q, n, l, r);
    assert forall i :: 0 <= i < |a| ==> a[i] == c[i];
    assert forall i :: 1 <= i < |b| ==> b[i] == c[|a| + i];
    assert c[|a|].key == key;
  }

  lemma ShareInternalsLeft(t: Nodes, g: Infos, root: PageId, q: PageId, n: nat, l: PageId, r: PageId,
                           a: seq<Entry<PageId>>, b: seq<Entry<PageId>>, key: int32)
    requires CanShareInternals(t, g, root, q, n, l, r, a, b, key)
    ensures var t', g' := ShareInternals(t, q, n, l, r, a, b, key), MoveInfos(g, l, r, key);
            ContentOk(t', g', g', l)
  {
    var t', g' := ShareInternals(t, q, n, l, r, a, b, key), MoveInfos(g, l, r, key);
    var c := Joined(t, q, n, l, r);
    NeighbourFacts(t, g, root, q, n, l, r);
    SharedHalves(t, g, root, q, n, l, r, a, b, key);
    SharedParent(t, g, root, q, n, l, r, a, b, key, l);
    assert c[|a|].key == key;
    forall i | 0 <= i < |a| ensures ChildOk(t', g', g'[l], l, a, i) {
      JoinedChild(t, g, root, q, n, l, r, i);
      SharedChild(t, g, root, q, n, l, r, a, b, key, i);
      assert c[i] == a[i];
    }
  }

  lemma ShareInternalsRight(t: Nodes, g: Infos, root: PageId, q: PageId, n: nat, l: PageId, r: PageId,
                            a: seq<Entry<PageId>>, b: seq<Entry<PageId>>, key: int32)
    requires CanShareInternals(t, g, root, q, n, l, r, a, b, key)
    ensures var t', g' := ShareInternals(t, q, n, l, r, a, b, key), MoveInfos(g, l, r, key);
            ContentOk(t', g', g', r)
  {
    var t', g' := ShareInternals(t, q, n, l, r, a, b, key), MoveInfos(g, l, r, key);
    var c := Joined(t, q, n, l, r);
    NeighbourFacts(t, g, root, q, n, l, r);
    SharedHalves(t, g, root, q, n, l, r, a, b, key);
    SharedParent(t, g, root, q, n, l, r, a, b, key, r);
    assert c[|a|].key == key;
    forall i | 0 <= i < |b| ensures ChildOk(t', g', g'[r], r, b, i) {
      JoinedChild(t, g, root, q, n, l, r, |a| + i);
      SharedChild(t, g, root, q, n, l, r, a, b, key, |a| + i);
      assert 0 < i ==> c[|a| + i] == b[i];
      assert i + 1 < |b| ==> c[|a| + (i + 1)] == b[i + 1];
    }
  }

  lemma ShareInternalsParent(t: Nodes, g: Infos, root: PageId, q: PageId, n: nat, l: PageId, r: PageId,
                             a: seq<Entry<PageId>>, b: seq<Entry<PageId>>, key: int32)
    requires CanShareInternals(t, g, root, q, n, l, r, a, b, key)
    ensures var t', g' := ShareInternals(t, q, n, l, r, a, b, key), MoveInfos(g, l, r, key);
            ContentOk(t', g', g', q)
  {
    var t', g' := ShareInternals(t, q, n, l, r, a, b, key), MoveInfos(g, l, r, key);
    var s, s' := t[q].slots, SetKey(t[q].slots, n, key);
    NeighbourFacts(t, g, root, q, n, l, r);
    SharedHalves(t, g, root, q, n, l, r, a, b, key);
    SharedParent(t, g, root, q, n, l, r, a, b, key, q);
    assert t'[q].slots == s';
    SetKeyOk(g[q], s, n, key);
    forall i | 0 <= i < |s| ensures ChildOk(t', g', g'[q], q, s', i) {
      OtherChild(t, g, root, q, n, l, r, q, i);
      SetKeyRange(g[q], s, n, key, i);
      SharedParent(t, g, root, q, n, l, r, a, b, key, s[i].value);
    }
  }

  lemma ShareInternalsOther(t: Nodes, g: Infos, root: PageId, q: PageId, n: nat, l: PageId, r: PageId,
                            a: seq<Entry<PageId>>, b: seq<Entry<PageId>>, key: int32, p: PageId)
    requires CanShareInternals(t, g, root, q, n, l, r, a, b, key) && p in t && p !in {l, r, q}
    ensures var t', g' := ShareInternals(t, q, n, l, r, a, b, key), MoveInfos(g, l, r, key);
            ContentOk(t', g', g', p)
  {
    var t', g' := ShareInternals(t, q, n, l, r, a, b, key), MoveInfos(g, l, r, key);
    NeighbourFacts(t, g, root, q, n, l, r);
    assert PageOk(t, g, g, root, INVALID_PAGE_ID, p);
    if t[p].Internal? {
      forall i | 0 <= i < |t[p].slots| ensures ChildOk(t', g', g'[p], p, t'[p].slots, i) {
        OtherChild(t, g, root, q, n, l, r, p, i);
        SharedParent(t, g, root, q, n, l, r, a, b, key, t[p].slots[i].value);
      }
    }
  }

  lemma ShareInternalsContent(t: Nodes, g: Infos, root: PageId, q: PageId, n: nat, l: PageId, r: PageId,
                              a: seq<Entry<PageId>>, b: seq<Entry<PageId>>, key: int32, p: PageId)
    requires CanShareInternals(t, g, root, q, n, l, r, a, b, key) && p in t
    ensures var t', g' := ShareInternals(t, q, n, l, r, a, b, key), MoveInfos(g, l, r, key);
            ContentOk(t', g', g', p)
  {
    if p == l {
      ShareInternalsLeft(t, g, root, q, n, l, r, a, b, key);
    } else if p == r {
      ShareInternalsRight(t, g, root, q, n, l, r, a, b, key);
    } else if p == q {
      ShareInternalsParent(t, g, root, q, n, l, r, a, b, key);
    } else {
      ShareInternalsOther(t, g, root, q, n, l, r, a, b, key, p);
    }
  }

  lemma ShareInternalsLinks(t: Nodes, g: Infos, root: PageId, q: PageId, n: nat, l: PageId, r: PageId,
                            a: seq<Entry<PageId>>, b: seq<Entry<PageId>>, key: int32, p: PageId)
    requires CanShareInternals(t, g, root, q, n, l, r, a, b, key) && p in t && p != root
    ensures Linked(ShareInternals(t, q, n, l, r, a, b, key), p)
  {
    NeighbourFacts(t, g, root, q, n, l, r);
    var i := RangeInParent(t, g, root, p);
    SharedParent(t, g, root, q, n, l, r, a, b, key, p);
    SharedParent(t, g, root, q, n, l, r, a, b, key, l);
    SharedParent(t, g, root, q, n, l, r, a, b, key, r);
    SharedParent(t, g, root, q, n, l, r, a, b, key, t[p].parent);
    if t[p].parent == q {
      SetKeyKeepsChildren(t[q].slots, n, key, p);
    }
  }

  lemma ShareInternalsPage(t: Nodes, g: Infos, root: PageId, q: PageId, n: nat, l: PageId, r: PageId,
                           a: seq<Entry<PageId>>, b: seq<Entry<PageId>>, key: int32, p: PageId)
    requires CanShareInternals(t, g, root, q, n, l, r, a, b, key) && p in t
    ensures var t', g' := ShareInternals(t, q, n, l, r, a, b, key), MoveInfos(g, l, r, key);
            PageOk(t', g', g', root, INVALID_PAGE_ID, p)
  {
    NeighbourFacts(t, g, root, q, n, l, r);
    SharedHalves(t, g, root, q, n, l, r, a, b, key);
    assert PageOk(t, g, g, root, INVALID_PAGE_ID, p);
    ShareInternalsContent(t, g, root, q, n, l, r, a, b, key, p);
    if p != root {
      ShareInternalsLinks(t, g, root, q, n, l, r, a, b, key, p);
    }
  }

  lemma ShareInternalsRecords(t: Nodes, g: Infos, root: PageId, q: PageId, n: nat, l: PageId, r: PageId,
                              a: seq<Entry<PageId>>, b: seq<Entry<PageId>>, key: int32)
    requires CanShareInternals(t, g, root, q, n, l, r, a, b, key)
    ensures SameRecords(t, ShareInternals(t, q, n, l, r, a, b, key))
  {
    SameLeavesSameRecords(t, ShareInternals(t, q, n, l, r, a, b, key));
  }

  lemma ShareInternalsKeepsShape(t: Nodes, g: Infos, root: PageId, q: PageId, n: nat, l: PageId, r: PageId,
                                 a: seq<Entry<PageId>>, b: seq<Entry<PageId>>, key: int32)
    requires CanShareInternals(t, g, root, q, n, l, r, a, b, key)
    ensures Shape(ShareInternals(t, q, n, l, r, a, b, key), MoveInfos(g, l, r, key), root)
    ensures SameRecords(t, ShareInternals(t, q, n, l, r, a, b, key))
  {
    hide PageOk;
    var t', g' := ShareInternals(t, q, n, l, r, a, b, key), MoveInfos(g, l, r, key);
    NeighbourFacts(t, g, root, q, n, l, r);
    SharedParent(t, g, root, q, n, l, r, a, b, key, root);
    forall p | p in t' ensures PageOk(t', g', g', root, INVALID_PAGE_ID, p) {
      ShareInternalsPage(t, g, root, q, n, l, r, a, b, key, p);
    }
    ShareInternalsRecords(t, g, root, q, n, l, r, a, b, key);
  }

  // ---------- The same steps for trees over a map ----------

  /** Moving children between two internal pages so that both have legal sizes. */
  lemma ShareInternalsTree(t: Nodes, g: Infos, root: PageId, m: map<int32, Rid>, leafMax: nat, internalMax: nat,
                           q: PageId, n: nat, l: PageId, r: PageId,
                           a: seq<Entry<PageId>>, b: seq<Entry<PageId>>, key: int32)
    requires TreeOver(t, g, root, m, leafMax, internalMax, {l, r})
    requires CanShareInternals(t, g, root, q, n, l, r, a, b, key)
    requires MinSize(false, internalMax) <= |a| <= internalMax && MinSize(false, internalMax) <= |b| <= internalMax
    ensures l in g && r in g
    ensures var t' := ShareInternals(t, q, n, l, r, a, b, key);
            TreeOver(t', MoveInfos(g, l, r, key), root, m, leafMax, internalMax, {})
  {
    NeighbourFacts(t, g, root, q, n, l, r);
    ShareInternalsKeepsShape(t, g, root, q, n, l, r, a, b, key);
    var t' := ShareInternals(t, q, n, l, r, a, b, key);
    RepresentsSame(t, t', m);
    forall p | p in t' ensures PageSizeOk(t', root, leafMax, internalMax, p) {
      assert p !in {l, r} ==> PageSizeOk(t, root, leafMax, internalMax, p);
    }
  }

  /** Merging two internal pages that fit into one; the parent loses a slot and may now be short. */
  lemma MergeInternalsTree(t: Nodes, g: Infos, root: PageId, m: map<int32, Rid>, leafMax: nat, internalMax: nat,
                           q: PageId, n: nat, l: PageId, r: PageId)
    requires TreeOver(t, g, root, m, leafMax, internalMax, {l, r}) && InternalNeighbours(t, g, root, q, n, l, r)
    requires MinSize(false, internalMax) <= |t[l].slots| + |t[r].slots| <= internalMax
    ensures l in g && r in g && q != l && q != r && l != r && root != r
    ensures SizeOk(t[q], q == root, leafMax, internalMax)
    ensures var t' := MergeInternals(t, q, n, l, r);
            q in t' && t'[q].Size() == t[q].Size() - 1
            && TreeOver(t', MergeInfos(g, l, r), root, m, leafMax, internalMax, {q})
    ensures var c := Joined(t, q, n, l, r);
            forall j :: 0 <= j < |c| ==> c[j].value in t && c[j].value !in {l, r, q}
  {
    NeighbourFacts(t, g, root, q, n, l, r);
    MergeInternalsKeepsShape(t, g, root, q, n, l, r);
    var t' := MergeInternals(t, q, n, l, r);
    RepresentsSame(t, t', m);
    assert PageSizeOk(t, root, leafMax, internalMax, q);
    forall p | p in t' && p != q ensures PageSizeOk(t', root, leafMax, internalMax, p) {
      assert p != l ==> PageSizeOk(t, root, leafMax, internalMax, p);
    }
    var c := Joined(t, q, n, l, r);
    forall j | 0 <= j < |c| ensures c[j].value in t && c[j].value !in {l, r, q} {
      JoinedChild(t, g, root, q, n, l, r, j);
    }
  }

  // ---------- What the page edits amount to ----------

  /** Merging by moving all slots, re-parenting, dropping the parent's slot and deleting the empty page. */
  lemma MergeInternalsInOrder(t: Nodes, q: PageId, n: nat, l: PageId, r: PageId)
    requires q in t && t[q].Internal? && n < |t[q].slots|
    requires l in t && t[l].Internal? && r in t && t[r].Internal? && |t[r].slots| > 0
    requires l != r && l != q && r != q
    requires var c := Joined(t, q, n, l, r); forall j :: 0 <= j < |c| ==> c[j].value !in {l, r, q}
    ensures var c := Joined(t, q, n, l, r);
            var t1 := Reparent(t[l := t[l].(slots := c)][r := t[r].(slots := [])], Children(c), l);
            && q in t1 && t1[q] == t[q] && r in t1
            && t1[q := t[q].(slots := RemoveSlot(t[q].slots, n))] - {r} == MergeInternals(t, q, n, l, r)
  {
  }

  /** `x` is the only child that `a` and `b` give to another page than before, namely to `p`. */
  ghost predicate OnlyMoves(t: Nodes, l: PageId, r: PageId, a: seq<Entry<PageId>>, b: seq<Entry<PageId>>,
                            x: PageId, p: PageId)
    requires l in t && t[l].Internal?
  {
    && x in t && p in {l, r} && (p == l <==> x in Children(a)) && (p == r <==> x in Children(b))
    && (forall i :: 0 <= i < |a| && a[i].value != x ==> i < |t[l].slots|)
    && (forall i :: 0 <= i < |b| && b[i].value != x ==> |t[l].slots| <= |a| + i)
  }

  lemma UnmovedParent(t: Nodes, g: Infos, root: PageId, q: PageId, n: nat, l: PageId, r: PageId,
                      a: seq<Entry<PageId>>, b: seq<Entry<PageId>>, key: int32, x: PageId, p: PageId, c: PageId)
    requires CanShareInternals(t, g, root, q, n, l, r, a, b, key) && OnlyMoves(t, l, r, a, b, x, p) && c in t && c != x
    ensures c in Children(a) ==> t[c].parent == l
    ensures c in Children(b) ==> t[c].parent == r
  {
    if c in Children(a) {
      var i :| 0 <= i < |a| && a[i].value == c;
      SharedChild(t, g, root, q, n, l, r, a, b, key, i);
      JoinedChild(t, g, root, q, n, l, r, i);
    }
    if c in Children(b) {
      var i :| 0 <= i < |b| && b[i].value == c;
      SharedChild(t, g, root, q, n, l, r, a, b, key, |a| + i);
      JoinedChild(t, g, root, q, n, l, r, |a| + i);
    }
  }

  /** After moving one child across a boundary, setting its parent pointer is all the re-parenting there is to do. */
  lemma ShareInternalsInOrder(t: Nodes, g: Infos, root: PageId, q: PageId, n: nat, l: PageId, r: PageId,
                              a: seq<Entry<PageId>>, b: seq<Entry<PageId>>, key: int32, x: PageId, p: PageId)
    requires CanShareInternals(t, g, root, q, n, l, r, a, b, key) && OnlyMoves(t, l, r, a, b, x, p)
    ensures x !in {l, r, q}
    ensures var t0 := t[l := t[l].(slots := a)][r := t[r].(slots := b)][q := t[q].(slots := SetKey(t[q].slots, n, key))];
            t0[x := t0[x].(parent := p)] == ShareInternals(t, q, n, l, r, a, b, key)
  {
    var t0 := t[l := t[l].(slots := a)][r := t[r].(slots := b)][q := t[q].(slots := SetKey(t[q].slots, n, key))];
    var t1, t2 := t0[x := t0[x].(parent := p)], ShareInternals(t, q, n, l, r, a, b, key);
    SharedParent(t, g, root, q, n, l, r, a, b, key, x);
    forall c | c in t1 ensures t1[c] == t2[c] {
      SharedParent(t, g, root, q, n, l, r, a, b, key, c);
      if c != x {
        UnmovedParent(t, g, root, q, n, l, r, a, b, key, x, p, c);
      }
    }
  }

  lemma InternalPairSizes(t: Nodes, g: Infos, root: PageId, m: map<int32, Rid>, leafMax: nat, internalMax: nat,
                          q: PageId, n: nat, l: PageId, r: PageId, x: PageId)
    requires TreeOver(t, g, root, m, leafMax, internalMax, {x}) && Neighbours(t, q, n, l, r) && x in {l, r}
    requires t[x].Internal? && t[x].Size() + 1 == MinSize(false, internalMax) && 3 <= internalMax
    ensures TreeOver(t, g, root, m, leafMax, internalMax, {l, r}) && InternalNeighbours(t, g, root, q, n, l, r)
    ensures l != r && l != q && r != q && l != root && r != root
    ensures var y := if x == l then r else l; MinSize(false, internalMax) <= t[y].Size() <= internalMax
  {
    NeighbourFacts(t, g, root, q, n, l, r);
    var y := if x == l then r else l;
    assert PageSizeOk(t, root, leafMax, internalMax, y);
    ExceptMore(t, g, root, m, leafMax, internalMax, {x}, {l, r});
  }
}
