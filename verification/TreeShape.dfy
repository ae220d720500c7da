/**
 The structure of a B+ tree laid out over pages, as an invariant of a map from page ids to
 page values.  Each page carries a ghost `Info`: its height above the leaves and the half-open
 key range it is responsible for.  Separators bound the ranges below them; they need not equal
 any stored key.
 */
module TreeShape {
  import opened Types
  import opened TreePages

  type Nodes = map<PageId, Node>

  datatype Info = Info(level: nat, lo: int, hi: int)

  type Infos = map<PageId, Info>

  // ---------- The invariant, page by page ----------

  function SlotLo(s: seq<Entry<PageId>>, own: Info, i: nat): int
    requires i < |s|
  {
    if i == 0 then own.lo else s[i].key
  }

  function SlotHi(s: seq<Entry<PageId>>, own: Info, i: nat): int
    requires i < |s|
  {
    if i + 1 < |s| then s[i + 1].key else own.hi
  }

  ghost predicate Covers(own: Info, key: int) {
    own.lo <= key < own.hi
  }

  ghost predicate RecordsOk(own: Info, rs: seq<Entry<Rid>>) {
    && own.level == 0
    && Ascending(rs)
    && forall i :: 0 <= i < |rs| ==> Covers(own, rs[i].key)
  }

  ghost predicate SlotsOk(own: Info, s: seq<Entry<PageId>>) {
    && own.level > 0
    && |s| > 0
    && Separated(s)
    && forall i :: 1 <= i < |s| ==> own.lo < s[i].key < own.hi
  }

  /** Child `i` of page `p` points back at `p`, is one level down and has the range between its separators. */
  ghost predicate ChildOk(t: Nodes, seen: Infos, own: Info, p: PageId, s: seq<Entry<PageId>>, i: nat)
    requires i < |s|
  {
    var c := s[i].value;
    && c in t && c in seen
    && t[c].parent == p
    && seen[c].level + 1 == own.level
    && seen[c].lo == SlotLo(s, own, i)
    && seen[c].hi == SlotHi(s, own, i)
  }

  /** The leaf chain: the next leaf starts where this one ends, and the last one ends at the key limit. */
  ghost predicate ChainOk(t: Nodes, g: Infos, own: Info, next: PageId) {
    if next == INVALID_PAGE_ID then own.hi == INT32_LIMIT
    else next in t && next in g && t[next].Leaf? && g[next].lo == own.hi
  }

  ghost predicate Linked(t: Nodes, p: PageId)
    requires p in t
  {
    var q := t[p].parent;
    q in t && t[q].Internal? && IsChild(t[q].slots, p)
  }

  ghost predicate ContentOk(t: Nodes, g: Infos, seen: Infos, p: PageId)
    requires p in t && p in g
  {
    match t[p]
    case Leaf(_, next, rs) =>
      RecordsOk(g[p], rs) && ChainOk(t, g, g[p], next)
    case Internal(_, s) =>
      SlotsOk(g[p], s) && forall i :: 0 <= i < |s| ==> ChildOk(t, seen, g[p], p, s, i)
  }

  ghost predicate PageOk(t: Nodes, g: Infos, seen: Infos, root: PageId, loose: PageId, p: PageId)
    requires p in t && p in g && root in g
  {
    && g[p].level <= g[root].level
    && INT32_MIN <= g[p].lo < g[p].hi <= INT32_LIMIT
    && (p != root && p != loose ==> Linked(t, p))
    && ContentOk(t, g, seen, p)
  }

  /**
   The pages form one tree, except that page `r`, if there is one, is not linked yet: it
   holds the upper part of the range that the rest of the tree still assigns to its left
   neighbour `l`.
   */
  ghost predicate Forest(t: Nodes, g: Infos, root: PageId, l: PageId, r: PageId) {
    && t.Keys == g.Keys
    && root in t && INVALID_PAGE_ID !in t
    && t[root].parent == INVALID_PAGE_ID
    && (r != INVALID_PAGE_ID ==>
          && l in t && r in t && l != r && r != root
          && g[l].level == g[r].level
          && g[l].hi == g[r].lo
          && forall p :: p in t && t[p].Internal? ==> !IsChild(t[p].slots, r))
    && Seen(g, l, r)[root] == Info(g[root].level, INT32_MIN, INT32_LIMIT)
    && forall p {:trigger PageOk(t, g, Seen(g, l, r), root, r, p)} ::
         p in t ==> PageOk(t, g, Seen(g, l, r), root, r, p)
  }

  /** The ranges as the parents see them. */
  ghost function Seen(g: Infos, l: PageId, r: PageId): Infos {
    if r != INVALID_PAGE_ID && l in g && r in g then g[l := g[l].(hi := g[r].hi)] else g
  }

  ghost predicate Shape(t: Nodes, g: Infos, root: PageId) {
    Forest(t, g, root, INVALID_PAGE_ID, INVALID_PAGE_ID)
  }

  // ---------- Sizes ----------

  ghost predicate SizeOk(n: Node, isRoot: bool, leafMax: nat, internalMax: nat) {
    var max := if n.Leaf? then leafMax else internalMax;
    var min := if isRoot then (if n.Leaf? then 1 else 2) else MinSize(n.Leaf?, max);
    min <= n.Size() <= max
  }

  ghost predicate PageSizeOk(t: Nodes, root: PageId, leafMax: nat, internalMax: nat, p: PageId)
    requires p in t
  {
    SizeOk(t[p], p == root, leafMax, internalMax)
  }

  /** Every page but `except` has a legal size. */
  ghost predicate SizesExcept(t: Nodes, root: PageId, leafMax: nat, internalMax: nat, except: set<PageId>) {
    forall p {:trigger PageSizeOk(t, root, leafMax, internalMax, p)} ::
      p in t && p !in except ==> PageSizeOk(t, root, leafMax, internalMax, p)
  }

  /** Every page but the root is at least half full, a leaf up to one record, and no page is over its limit. */
  lemma HalfFull(t: Nodes, root: PageId, leafMax: nat, internalMax: nat, p: PageId)
    requires SizesExcept(t, root, leafMax, internalMax, {}) && p in t
    ensures t[p].Leaf? ==> |t[p].records| <= leafMax && (p != root ==> leafMax <= 2 * |t[p].records| + 1)
    ensures t[p].Internal? ==> |t[p].slots| <= internalMax && (p != root ==> internalMax <= 2 * |t[p].slots|)
  {
    assert PageSizeOk(t, root, leafMax, internalMax, p);
  }

  // ---------- Contents ----------

  ghost predicate Holds(n: Node, key: int32, value: Rid) {
    n.Leaf? && Entry(key, value) in n.records
  }

  ghost predicate Stores(t: Nodes, key: int32, value: Rid) {
    exists p :: p in t && Holds(t[p], key, value)
  }

  ghost predicate SameRecords(t: Nodes, t': Nodes) {
    forall key, value {:trigger Stores(t, key, value)} {:trigger Stores(t', key, value)} ::
      Stores(t, key, value) <==> Stores(t', key, value)
  }

  ghost predicate Represents(t: Nodes, m: map<int32, Rid>) {
    forall key, value {:trigger Stores(t, key, value)} :: Stores(t, key, value) <==> key in m && m[key] == value
  }

  /** The pages are a tree over the map `m` with node sizes between the limits, but for the pages `except`. */
  ghost predicate TreeOver(t: Nodes, g: Infos, root: PageId, m: map<int32, Rid>, leafMax: nat, internalMax: nat,
                           except: set<PageId>) {
    && Shape(t, g, root)
    && SizesExcept(t, root, leafMax, internalMax, except)
    && Represents(t, m)
  }

  /** As `TreeOver`, with the right half `r` of the split page `l` not yet linked. */
  ghost predicate PendingOver(t: Nodes, g: Infos, root: PageId, m: map<int32, Rid>, leafMax: nat, internalMax: nat,
                              l: PageId, middle: int32, r: PageId) {
    && r != INVALID_PAGE_ID && Forest(t, g, root, l, r) && g[r].lo == middle
    && SizesExcept(t, root, leafMax, internalMax, {l, r})
    && SizeOk(t[l], false, leafMax, internalMax) && SizeOk(t[r], false, leafMax, internalMax)
    && Represents(t, m)
  }

  // ---------- Every key has one page on every level ----------

  /** What the invariant says of child `i` of page `p`. */
  lemma ChildFacts(t: Nodes, g: Infos, root: PageId, p: PageId, i: nat)
    requires Shape(t, g, root) && p in t && t[p].Internal? && i < |t[p].slots|
    ensures PageOk(t, g, g, root, INVALID_PAGE_ID, p) && ChildOk(t, g, g[p], p, t[p].slots, i)
    ensures t[p].slots[i].value != root
    ensures forall j :: 0 <= j < |t[p].slots| && j != i ==> t[p].slots[j].value != t[p].slots[i].value
  {
    assert PageOk(t, g, g, root, INVALID_PAGE_ID, p);
    var s := t[p].slots;
    assert ChildOk(t, g, g[p], p, s, i);
    forall j | 0 <= j < |s| && j != i ensures s[j].value != s[i].value {
      assert ChildOk(t, g, g[p], p, s, j);
    }
  }

  lemma ChildOfPage(t: Nodes, g: Infos, root: PageId, p: PageId, c: PageId)
    requires Shape(t, g, root) && p in t && t[p].Internal? && IsChild(t[p].slots, c)
    ensures c in t && t[c].parent == p && c != root && g[c].level + 1 == g[p].level
  {
    var i := ChildIndex(t[p].slots, c);
    ChildFacts(t, g, root, p, i);
  }

  /** A page below the root has a parent, one level up, whose range contains its own. */
  lemma RangeInParent(t: Nodes, g: Infos, root: PageId, p: PageId) returns (i: nat)
    requires Shape(t, g, root) && p in t && p != root
    ensures Linked(t, p)
    ensures var q := t[p].parent; i < |t[q].slots| && t[q].slots[i].value == p
    ensures var q := t[p].parent; ChildOk(t, g, g[q], q, t[q].slots, i)
    ensures var q := t[p].parent; g[q].lo <= g[p].lo && g[p].hi <= g[q].hi
    ensures g[p].level + 1 == g[t[p].parent].level <= g[root].level
  {
    assert PageOk(t, g, g, root, INVALID_PAGE_ID, p);
    var q := t[p].parent;
    assert PageOk(t, g, g, root, INVALID_PAGE_ID, q);
    i := ChildIndex(t[q].slots, p);
    assert ChildOk(t, g, g[q], q, t[q].slots, i);
  }

  /** Two pages on one level that are both responsible for a key are the same page. */
  lemma {:induction false} UniqueCover(t: Nodes, g: Infos, root: PageId, p: PageId, q: PageId, key: int)
    requires Shape(t, g, root) && p in t && q in t
    requires g[p].level == g[q].level && Covers(g[p], key) && Covers(g[q], key)
    ensures p == q
    decreases g[root].level - g[p].level
  {
    if p != root {
      var i := RangeInParent(t, g, root, p);
      if q != root {
        var j := RangeInParent(t, g, root, q);
        assert PageOk(t, g, g, root, INVALID_PAGE_ID, t[p].parent);
        UniqueCover(t, g, root, t[p].parent, t[q].parent, key);
      }
    } else if q != root {
      var j := RangeInParent(t, g, root, q);
    }
  }

  /** A stored record is on the one leaf that is responsible for its key. */
  lemma StoredWhereCovered(t: Nodes, g: Infos, root: PageId, p: PageId, key: int32, value: Rid)
    requires Shape(t, g, root) && p in t && t[p].Leaf? && Covers(g[p], key)
    ensures Stores(t, key, value) <==> Holds(t[p], key, value)
  {
    if Stores(t, key, value) {
      var q :| q in t && Holds(t[q], key, value);
      assert PageOk(t, g, g, root, INVALID_PAGE_ID, q);
      assert PageOk(t, g, g, root, INVALID_PAGE_ID, p);
      UniqueCover(t, g, root, p, q, key);
    }
  }

  /** The next pointer of a leaf names the leaf that takes over at the end of its range. */
  lemma NextIsNeighbour(t: Nodes, g: Infos, root: PageId, l: PageId, r: PageId)
    requires Shape(t, g, root) && l in t && r in t && t[l].Leaf? && t[r].Leaf?
    ensures t[l].next == r <==> g[l].hi == g[r].lo
  {
    assert PageOk(t, g, g, root, INVALID_PAGE_ID, l);
    assert PageOk(t, g, g, root, INVALID_PAGE_ID, r);
    if g[l].hi == g[r].lo {
      var x := t[l].next;
      assert PageOk(t, g, g, root, INVALID_PAGE_ID, x);
      UniqueCover(t, g, root, r, x, g[r].lo);
    }
  }

  /** No two leaves have the same next leaf. */
  lemma NextInjective(t: Nodes, g: Infos, root: PageId, l: PageId, q: PageId)
    requires Shape(t, g, root) && l in t && q in t && t[l].Leaf? && t[q].Leaf?
    requires t[l].next == t[q].next
    ensures l == q
  {
    assert PageOk(t, g, g, root, INVALID_PAGE_ID, l);
    assert PageOk(t, g, g, root, INVALID_PAGE_ID, q);
    UniqueCover(t, g, root, l, q, g[l].hi - 1);
  }
}
