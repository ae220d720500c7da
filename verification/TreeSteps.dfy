/**
 The structural steps of insertion and deletion as transitions of the page map, each
 proved to keep the invariant of `TreeShape` and the set of stored records.
 */
module TreeSteps {
  import opened Types
  import opened TreePages
  import opened TreeShape

  /** The pages of `t`, with `p` made the parent of every page in `cs`. */
  function Reparent(t: Nodes, cs: set<PageId>, p: PageId): Nodes {
    map c | c in t :: if c in cs then t[c].(parent := p) else t[c]
  }

  function Children(s: seq<Entry<PageId>>): set<PageId> {
    set i | 0 <= i < |s| :: s[i].value
  }

  lemma RepresentsSame(t: Nodes, t': Nodes, m: map<int32, Rid>)
    requires Represents(t, m) && SameRecords(t, t')
    ensures Represents(t', m)
  {
    forall key, value ensures Stores(t', key, value) <==> key in m && m[key] == value {
      assert Stores(t, key, value) <==> Stores(t', key, value);
    }
  }

  // ---------- A tree of one leaf ----------

  function SingletonInfos(id: PageId): Infos {
    map[id := Info(0, INT32_MIN, INT32_LIMIT)]
  }

  lemma SingletonTree(t: Nodes, id: PageId, e: Entry<Rid>, leafMax: nat, internalMax: nat)
    requires id != INVALID_PAGE_ID && 0 < leafMax
    requires t.Keys == {id} && t[id] == Leaf(INVALID_PAGE_ID, INVALID_PAGE_ID, [e])
    ensures TreeOver(t, SingletonInfos(id), id, map[e.key := e.value], leafMax, internalMax, {})
  {
    var g := SingletonInfos(id);
    forall p | p in t ensures PageOk(t, g, g, id, INVALID_PAGE_ID, p) {
    }
    forall key, value ensures Stores(t, key, value) <==> key == e.key && value == e.value {
      assert Stores(t, key, value) <==> Holds(t[id], key, value);
    }
  }

  // ---------- Replacing the records of a leaf ----------

  function SetRecords(t: Nodes, p: PageId, rs: seq<Entry<Rid>>): Nodes
    requires p in t && t[p].Leaf?
  {
    t[p := t[p].(records := rs)]
  }

  lemma SetRecordsKeepsShape(t: Nodes, g: Infos, root: PageId, p: PageId, rs: seq<Entry<Rid>>)
    requires Shape(t, g, root) && p in t && t[p].Leaf? && RecordsOk(g[p], rs)
    ensures Shape(SetRecords(t, p, rs), g, root)
  {
    var t' := SetRecords(t, p, rs);
    forall q | q in t' ensures PageOk(t', g, g, root, INVALID_PAGE_ID, q) {
      assert PageOk(t, g, g, root, INVALID_PAGE_ID, q);
      if t[q].Internal? {
        forall i | 0 <= i < |t[q].slots| ensures ChildOk(t', g, g[q], q, t[q].slots, i) {
          assert ChildOk(t, g, g[q], q, t[q].slots, i);
        }
      }
    }
  }

  lemma InsertRecordOk(own: Info, rs: seq<Entry<Rid>>, e: Entry<Rid>)
    requires RecordsOk(own, rs) && Covers(own, e.key)
    ensures RecordsOk(own, InsertRecord(rs, e))
    ensures HasKeyAt(rs, LowerBound(rs, e.key), e.key) <==> exists i :: 0 <= i < |rs| && rs[i].key == e.key
    ensures |InsertRecord(rs, e)| == |rs| <==> exists i :: 0 <= i < |rs| && rs[i].key == e.key
  {
    var n := LowerBound(rs, e.key);
    if HasKeyAt(rs, n, e.key) {
      assert rs[n].key == e.key;
    } else {
      AbsentUnlessAtLowerBound(rs, e.key);
      InsertAtOk(own, rs, n, e);
    }
  }

  lemma InsertAtOk(own: Info, rs: seq<Entry<Rid>>, n: nat, e: Entry<Rid>)
    requires RecordsOk(own, rs) && Covers(own, e.key) && n <= |rs|
    requires forall i :: 0 <= i < n ==> rs[i].key < e.key
    requires forall i :: n <= i < |rs| ==> e.key < rs[i].key
    ensures RecordsOk(own, rs[..n] + [e] + rs[n..])
  {
    var rs' := rs[..n] + [e] + rs[n..];
    assert forall i :: 0 <= i < |rs'| ==> rs'[i] == if i < n then rs[i] else if i == n then e else rs[i - 1];
  }

  lemma InsertRecordMembers(rs: seq<Entry<Rid>>, e: Entry<Rid>, x: Entry<Rid>)
    requires !HasKeyAt(rs, LowerBound(rs, e.key), e.key)
    ensures x in InsertRecord(rs, e) <==> x == e || x in rs
  {
    var n := LowerBound(rs, e.key);
    assert rs == rs[..n] + rs[n..];
  }

  /** Inserting into the leaf that covers the key inserts into the stored map, unless the key is there. */
  lemma InsertionEffect(t: Nodes, g: Infos, root: PageId, p: PageId, key: int32, value: Rid, m: map<int32, Rid>)
    requires Shape(t, g, root) && p in t && t[p].Leaf? && Covers(g[p], key) && Represents(t, m)
    ensures var rs := InsertRecord(t[p].records, Entry(key, value));
            var t' := SetRecords(t, p, rs);
            && Shape(t', g, root)
            && (key in m ==> rs == t[p].records && t' == t)
            && (key !in m ==> |rs| == |t[p].records| + 1 && Represents(t', m[key := value]))
  {
    var old_rs, e := t[p].records, Entry(key, value);
    var rs := InsertRecord(old_rs, e);
    var t' := SetRecords(t, p, rs);
    assert PageOk(t, g, g, root, INVALID_PAGE_ID, p);
    InsertRecordOk(g[p], old_rs, e);
    SetRecordsKeepsShape(t, g, root, p, rs);
    if key in m {
      StoredWhereCovered(t, g, root, p, key, m[key]);
    } else {
      InsertionRepresents(t, p, e, m);
    }
  }

  lemma InsertionRepresents(t: Nodes, p: PageId, e: Entry<Rid>, m: map<int32, Rid>)
    requires p in t && t[p].Leaf? && Represents(t, m) && e.key !in m && Ascending(t[p].records)
    ensures var rs := InsertRecord(t[p].records, e);
            |rs| == |t[p].records| + 1 && Represents(SetRecords(t, p, rs), m[e.key := e.value])
  {
    var old_rs := t[p].records;
    var t' := SetRecords(t, p, InsertRecord(old_rs, e));
    forall i | 0 <= i < |old_rs| ensures old_rs[i].key != e.key {
      assert Holds(t[p], old_rs[i].key, old_rs[i].value);
      assert Stores(t, old_rs[i].key, old_rs[i].value);
    }
    InsertRecordMembers(old_rs, e, e);
    forall k, v ensures Stores(t', k, v) <==> k in m[e.key := e.value] && m[e.key := e.value][k] == v {
      InsertRecordMembers(old_rs, e, Entry(k, v));
      if Stores(t, k, v) {
        var q :| q in t && Holds(t[q], k, v);
        assert Holds(t'[q], k, v);
      }
      if Stores(t', k, v) {
        var q :| q in t' && Holds(t'[q], k, v);
        assert k != e.key || v != e.value ==> Holds(t[q], k, v) && Stores(t, k, v);
      }
      assert Holds(t'[p], e.key, e.value);
    }
  }

  lemma RemoveRecordOk(own: Info, rs: seq<Entry<Rid>>, key: int32)
    requires RecordsOk(own, rs)
    ensures RecordsOk(own, RemoveRecord(rs, key))
    ensures HasKeyAt(rs, LowerBound(rs, key), key) <==> |RemoveRecord(rs, key)| == |rs| - 1
    ensures !HasKeyAt(rs, LowerBound(rs, key), key) ==> RemoveRecord(rs, key) == rs
  {
  }

  lemma RemoveRecordMembers(rs: seq<Entry<Rid>>, key: int32, x: Entry<Rid>)
    requires Ascending(rs)
    ensures x in RemoveRecord(rs, key) <==> x in rs && x.key != key
  {
    var n := LowerBound(rs, key);
    if HasKeyAt(rs, n, key) {
      assert rs == rs[..n] + [rs[n]] + rs[n + 1..];
      assert forall i :: 0 <= i < |rs| && i != n ==> rs[i].key != key;
    } else {
      AbsentUnlessAtLowerBound(rs, key);
    }
  }

  /** Removing from the leaf that covers the key removes from the stored map. */
  lemma RemovalEffect(t: Nodes, g: Infos, root: PageId, p: PageId, key: int32, m: map<int32, Rid>,
                      leafMax: nat, internalMax: nat)
    requires TreeOver(t, g, root, m, leafMax, internalMax, {})
    requires p in t && t[p].Leaf? && Covers(g[p], key)
    ensures Ascending(t[p].records) && SizeOk(t[p], p == root, leafMax, internalMax)
    ensures var rs := RemoveRecord(t[p].records, key);
            var t' := SetRecords(t, p, rs);
            && TreeOver(t', g, root, m - {key}, leafMax, internalMax, {p})
            && (key in m ==> |rs| == |t[p].records| - 1)
            && (key !in m ==> t' == t && rs == t[p].records && m - {key} == m)
  {
    var rs := RemoveRecord(t[p].records, key);
    var t' := SetRecords(t, p, rs);
    assert PageOk(t, g, g, root, INVALID_PAGE_ID, p);
    assert PageSizeOk(t, root, leafMax, internalMax, p);
    RemoveRecordOk(g[p], t[p].records, key);
    SetRecordsKeepsShape(t, g, root, p, rs);
    forall q | q in t' && q != p ensures PageSizeOk(t', root, leafMax, internalMax, q) {
      assert PageSizeOk(t, root, leafMax, internalMax, q);
    }
    forall k, v ensures Stores(t', k, v) <==> k in m - {key} && m[k] == v {
      RemovalMembers(t, g, root, p, key, k, v);
    }
    if key in m {
      StoredWhereCovered(t, g, root, p, key, m[key]);
      RemoveRecordMembers(t[p].records, key, Entry(key, m[key]));
    } else if HasKeyAt(t[p].records, LowerBound(t[p].records, key), key) {
      var e := t[p].records[LowerBound(t[p].records, key)];
      assert Holds(t[p], e.key, e.value);
      assert Stores(t, e.key, e.value);
    }
  }

  lemma RemovalMembers(t: Nodes, g: Infos, root: PageId, p: PageId, key: int32, k: int32, v: Rid)
    requires Shape(t, g, root) && p in t && t[p].Leaf? && Covers(g[p], key)
    ensures Stores(SetRecords(t, p, RemoveRecord(t[p].records, key)), k, v) <==> Stores(t, k, v) && k != key
  {
    var t' := SetRecords(t, p, RemoveRecord(t[p].records, key));
    assert PageOk(t, g, g, root, INVALID_PAGE_ID, p);
    RemoveRecordMembers(t[p].records, key, Entry(k, v));
    if Stores(t', k, v) {
      var q :| q in t' && Holds(t'[q], k, v);
      assert Holds(t[q], k, v);
      if k == key {
        StoredWhereCovered(t, g, root, p, k, v);
        assert Holds(t[p], k, v);
        assert PageOk(t, g, g, root, INVALID_PAGE_ID, q);
        UniqueCover(t, g, root, p, q, key);
      }
    }
    if Stores(t, k, v) && k != key {
      var q :| q in t && Holds(t[q], k, v);
      assert Holds(t'[q], k, v);
    }
  }

  /** A leaf that gains a record is legal again or is one record over the limit. */
  lemma InsertionSize(t: Nodes, g: Infos, root: PageId, p: PageId, key: int32, value: Rid, m: map<int32, Rid>,
                      leafMax: nat, internalMax: nat)
    requires TreeOver(t, g, root, m, leafMax, internalMax, {})
    requires p in t && t[p].Leaf? && Covers(g[p], key)
    ensures Ascending(t[p].records) && |t[p].records| <= leafMax
    ensures var rs := InsertRecord(t[p].records, Entry(key, value));
            var t' := SetRecords(t, p, rs);
            && (key in m ==> t' == t && |rs| == |t[p].records|)
            && (key !in m ==> |rs| == |t[p].records| + 1 <= leafMax + 1)
            && (key !in m && |rs| <= leafMax ==> TreeOver(t', g, root, m[key := value], leafMax, internalMax, {}))
            && (key !in m ==> TreeOver(t', g, root, m[key := value], leafMax, internalMax, {p}))
  {
    var t' := SetRecords(t, p, InsertRecord(t[p].records, Entry(key, value)));
    assert PageOk(t, g, g, root, INVALID_PAGE_ID, p);
    assert PageSizeOk(t, root, leafMax, internalMax, p);
    InsertionEffect(t, g, root, p, key, value, m);
    forall q | q in t' && q != p ensures PageSizeOk(t', root, leafMax, internalMax, q) {
      assert PageSizeOk(t, root, leafMax, internalMax, q);
    }
  }

  // ---------- Splits ----------

  function SplitInfos(g: Infos, l: PageId, r: PageId, mid: int32): Infos
    requires l in g
  {
    g[l := g[l].(hi := mid)][r := Info(g[l].level, mid, g[l].hi)]
  }

  function SplitLeaf(t: Nodes, l: PageId, r: PageId, n: nat): Nodes
    requires l in t && t[l].Leaf? && n <= |t[l].records|
  {
    t[l := t[l].(next := r, records := t[l].records[..n])]
     [r := t[l].(records := t[l].records[n..])]
  }

  lemma SplitLeafKeepsShape(t: Nodes, g: Infos, root: PageId, l: PageId, r: PageId, n: nat)
    requires Shape(t, g, root) && l in t && t[l].Leaf? && r !in t && r != INVALID_PAGE_ID
    requires 0 < n < |t[l].records|
    ensures Forest(SplitLeaf(t, l, r, n), SplitInfos(g, l, r, t[l].records[n].key), root, l, r)
  {
    hide PageOk;
    var rs := t[l].records;
    var t', g' := SplitLeaf(t, l, r, n), SplitInfos(g, l, r, rs[n].key);
    forall p | p in t' ensures PageOk(t', g', Seen(g', l, r), root, r, p) {
      SplitLeafPageOk(t, g, root, l, r, n, p);
    }
    forall p | p in t' && t'[p].Internal? ensures !IsChild(t'[p].slots, r) {
      if IsChild(t[if p == r then l else p].slots, r) {
        ChildOfPage(t, g, root, if p == r then l else p, r);
      }
    }
  }

  lemma SplitLeafPageOk(t: Nodes, g: Infos, root: PageId, l: PageId, r: PageId, n: nat, p: PageId)
    requires Shape(t, g, root) && l in t && t[l].Leaf? && r !in t && r != INVALID_PAGE_ID
    requires 0 < n < |t[l].records| && (p in t || p == r)
    ensures var t', g' := SplitLeaf(t, l, r, n), SplitInfos(g, l, r, t[l].records[n].key);
            p in t' && p in g' && root in g' && PageOk(t', g', Seen(g', l, r), root, r, p)
  {
    hide ChildOk;
    assert PageOk(t, g, g, root, INVALID_PAGE_ID, l);
    assert t[l].records[0].key < t[l].records[n].key;
    if p != r {
      assert PageOk(t, g, g, root, INVALID_PAGE_ID, p);
      SplitLeafChildrenOk(t, g, root, l, r, n, p);
    }
  }

  lemma SplitLeafChildrenOk(t: Nodes, g: Infos, root: PageId, l: PageId, r: PageId, n: nat, p: PageId)
    requires Shape(t, g, root) && l in t && t[l].Leaf? && r !in t && r != INVALID_PAGE_ID
    requires 0 < n < |t[l].records| && p in t
    ensures var t', g' := SplitLeaf(t, l, r, n), SplitInfos(g, l, r, t[l].records[n].key);
            t[p].Internal? ==> t'[p] == t[p] && p in g' && forall i | 0 <= i < |t[p].slots| :: ChildOk(t', Seen(g', l, r), g'[p], p, t[p].slots, i)
  {
    var t', g' := SplitLeaf(t, l, r, n), SplitInfos(g, l, r, t[l].records[n].key);
    assert PageOk(t, g, g, root, INVALID_PAGE_ID, p) && PageOk(t, g, g, root, INVALID_PAGE_ID, l);
    if t[p].Internal? {
      forall i | 0 <= i < |t[p].slots| ensures ChildOk(t', Seen(g', l, r), g'[p], p, t[p].slots, i) {
        assert ChildOk(t, g, g[p], p, t[p].slots, i);
      }
    }
  }

  lemma SplitLeafKeepsRecords(t: Nodes, l: PageId, r: PageId, n: nat)
    requires l in t && t[l].Leaf? && r !in t && n <= |t[l].records|
    ensures SameRecords(t, SplitLeaf(t, l, r, n))
  {
    var t' := SplitLeaf(t, l, r, n);
    var rs := t[l].records;
    assert rs == rs[..n] + rs[n..];
    forall key, value ensures Stores(t, key, value) <==> Stores(t', key, value) {
      if Stores(t, key, value) {
        var p :| p in t && Holds(t[p], key, value);
        assert Holds(t'[p], key, value) || Holds(t'[r], key, value);
      }
      if Stores(t', key, value) {
        var p :| p in t' && Holds(t'[p], key, value);
        assert Holds(t[if p == r then l else p], key, value);
      }
    }
  }

  /** Splitting a leaf that is one record over the limit; what page `r` held before does not matter. */
  lemma SplitLeafPending(t: Nodes, g: Infos, root: PageId, m: map<int32, Rid>, leafMax: nat, internalMax: nat,
                         l: PageId, r: PageId, x: Node)
    requires TreeOver(t, g, root, m, leafMax, internalMax, {l}) && 2 <= leafMax
    requires l in t && t[l].Leaf? && |t[l].records| == leafMax + 1 && r !in t && r != INVALID_PAGE_ID
    ensures var n := |t[l].records| / 2;
            var t', mid := SplitLeaf(t, l, r, n), t[l].records[n].key;
            && PendingOver(t', SplitInfos(g, l, r, mid), root, m, leafMax, internalMax, l, mid, r)
            && t'[r].records[0].key == mid && |t'[r].records| > 0
            && SplitLeaf(t[r := x], l, r, n) == t'
  {
    var n := |t[l].records| / 2;
    var t', mid := SplitLeaf(t, l, r, n), t[l].records[n].key;
    SplitLeafKeepsShape(t, g, root, l, r, n);
    SplitLeafKeepsRecords(t, l, r, n);
    forall p | p in t' && p !in {l, r} ensures PageSizeOk(t', root, leafMax, internalMax, p) {
      assert PageSizeOk(t, root, leafMax, internalMax, p);
    }
    RepresentsSame(t, t', m);
  }

  function SplitInternal(t: Nodes, l: PageId, r: PageId, n: nat): Nodes
    requires l in t && t[l].Internal? && n <= |t[l].slots|
  {
    var s := t[l].slots;
    Reparent(t[l := t[l].(slots := s[..n])][r := t[l].(slots := s[n..])], Children(s[n..]), r)
  }

  lemma MovedChildren(t: Nodes, g: Infos, root: PageId, l: PageId, n: nat)
    requires Shape(t, g, root) && l in t && t[l].Internal? && n <= |t[l].slots|
    ensures forall i :: 0 <= i < |t[l].slots| ==> ChildOk(t, g, g[l], l, t[l].slots, i)
    ensures forall i :: 0 <= i < |t[l].slots| ==> (t[l].slots[i].value in Children(t[l].slots[n..]) <==> n <= i)
    ensures forall c :: c in Children(t[l].slots[n..]) ==> c in t && c != root && c != l && t[c].parent == l
  {
    var s := t[l].slots;
    forall i | 0 <= i < |s| ensures ChildOk(t, g, g[l], l, s, i) && (s[i].value in Children(s[n..]) <==> n <= i) {
      ChildFacts(t, g, root, l, i);
      assert n <= i ==> s[n..][i - n] == s[i];
    }
    forall c | c in Children(s[n..]) ensures c in t && c != root && c != l && t[c].parent == l {
      ChildOfPage(t, g, root, l, c);
    }
  }

  /** The two halves of the split page. */
  lemma SplitInternalHalves(t: Nodes, g: Infos, root: PageId, l: PageId, r: PageId, n: nat)
    requires Shape(t, g, root) && l in t && t[l].Internal? && r !in t && r != INVALID_PAGE_ID
    requires 0 < n < |t[l].slots|
    ensures var t', g' := SplitInternal(t, l, r, n), SplitInfos(g, l, r, t[l].slots[n].key);
            ContentOk(t', g', Seen(g', l, r), l) && ContentOk(t', g', Seen(g', l, r), r)
  {
    var s := t[l].slots;
    var t', g' := SplitInternal(t, l, r, n), SplitInfos(g, l, r, s[n].key);
    var seen := Seen(g', l, r);
    MovedChildren(t, g, root, l, n);
    assert PageOk(t, g, g, root, INVALID_PAGE_ID, l);
    assert t'[r].slots == s[n..] && t'[l].slots == s[..n];
    forall i | 0 <= i < |s[n..]| ensures ChildOk(t', seen, g'[r], r, s[n..], i) {
      assert ChildOk(t, g, g[l], l, s, n + i) && s[n..][i] == s[n + i];
    }
    forall i | 0 <= i < n ensures ChildOk(t', seen, g'[l], l, s[..n], i) {
      assert ChildOk(t, g, g[l], l, s, i) && s[..n][i] == s[i];
    }
  }

  lemma SplitInternalPage(t: Nodes, g: Infos, root: PageId, l: PageId, r: PageId, n: nat, p: PageId)
    requires Shape(t, g, root) && l in t && t[l].Internal? && r !in t && r != INVALID_PAGE_ID
    requires 0 < n < |t[l].slots| && p in t && p != l
    ensures var t', g' := SplitInternal(t, l, r, n), SplitInfos(g, l, r, t[l].slots[n].key);
            PageOk(t', g', Seen(g', l, r), root, r, p)
  {
    var s := t[l].slots;
    var t', g' := SplitInternal(t, l, r, n), SplitInfos(g, l, r, s[n].key);
    var seen := Seen(g', l, r);
    assert PageOk(t, g, g, root, INVALID_PAGE_ID, p);
    if t[p].Internal? {
      forall i | 0 <= i < |t[p].slots| ensures ChildOk(t', seen, g'[p], p, t'[p].slots, i) {
        ChildFacts(t, g, root, p, i);
        MovedChildren(t, g, root, l, n);
      }
    }
    if p != root {
      SplitInternalLinks(t, g, root, l, r, n, p);
    }
  }

  lemma SplitInternalLinks(t: Nodes, g: Infos, root: PageId, l: PageId, r: PageId, n: nat, p: PageId)
    requires Shape(t, g, root) && l in t && t[l].Internal? && r !in t && r != INVALID_PAGE_ID
    requires 0 < n < |t[l].slots| && p in t && p != root
    ensures Linked(SplitInternal(t, l, r, n), p)
  {
    var s := t[l].slots;
    var i := RangeInParent(t, g, root, p);
    MovedChildren(t, g, root, l, n);
    if t[p].parent == l {
      assert if i < n then s[..n][i] == s[i] else s[n..][i - n] == s[i];
    }
  }

  lemma SplitInternalKeepsShape(t: Nodes, g: Infos, root: PageId, l: PageId, r: PageId, n: nat)
    requires Shape(t, g, root) && l in t && t[l].Internal? && r !in t && r != INVALID_PAGE_ID
    requires 0 < n < |t[l].slots|
    ensures Forest(SplitInternal(t, l, r, n), SplitInfos(g, l, r, t[l].slots[n].key), root, l, r)
  {
    var t', g' := SplitInternal(t, l, r, n), SplitInfos(g, l, r, t[l].slots[n].key);
    MovedChildren(t, g, root, l, n);
    forall p | p in t' ensures PageOk(t', g', Seen(g', l, r), root, r, p) {
      SplitInternalHalves(t, g, root, l, r, n);
      if p != l && p != r {
        SplitInternalPage(t, g, root, l, r, n, p);
      } else {
        assert PageOk(t, g, g, root, INVALID_PAGE_ID, l);
        if l != root {
          SplitInternalLinks(t, g, root, l, r, n, l);
        }
      }
    }
    forall p | p in t' && t'[p].Internal? ensures !IsChild(t'[p].slots, r) {
      var q := if p == r then l else p;
      if IsChild(t[q].slots, r) {
        ChildOfPage(t, g, root, q, r);
      }
    }
  }

  /** Steps that leave the records of every leaf in place keep the set of stored records. */
  ghost predicate SameLeaves(t: Nodes, t': Nodes) {
    && (forall p :: p in t && t[p].Leaf? ==> p in t' && t'[p].Leaf? && t'[p].records == t[p].records)
    && (forall p :: p in t' && t'[p].Leaf? ==> p in t && t[p].Leaf?)
  }

  lemma SameLeavesSameRecords(t: Nodes, t': Nodes)
    requires SameLeaves(t, t')
    ensures SameRecords(t, t')
  {
    forall key, value ensures Stores(t, key, value) <==> Stores(t', key, value) {
      if Stores(t, key, value) {
        var p :| p in t && Holds(t[p], key, value);
        assert Holds(t'[p], key, value);
      }
      if Stores(t', key, value) {
        var p :| p in t' && Holds(t'[p], key, value);
        assert Holds(t[p], key, value);
      }
    }
  }

  // ---------- Linking the right half of a split page ----------

  function AttachRoot(t: Nodes, l: PageId, mid: int32, r: PageId, top: PageId, junk: int32): Nodes
    requires l in t && r in t
  {
    t[top := Internal(INVALID_PAGE_ID, [Entry(junk, l), Entry(mid, r)])]
     [l := t[l].(parent := top)]
     [r := t[r].(parent := top)]
  }

  function AttachRootInfos(g: Infos, l: PageId, top: PageId): Infos
    requires l in g
  {
    g[top := Info(g[l].level + 1, INT32_MIN, INT32_LIMIT)]
  }

  lemma AttachRootKeepsShape(t: Nodes, g: Infos, l: PageId, mid: int32, r: PageId, top: PageId, junk: int32)
    requires Forest(t, g, l, l, r) && r != INVALID_PAGE_ID && mid == g[r].lo
    requires top !in t && top != INVALID_PAGE_ID
    ensures Shape(AttachRoot(t, l, mid, r, top, junk), AttachRootInfos(g, l, top), top)
  {
    hide PageOk;
    var t', g' := AttachRoot(t, l, mid, r, top, junk), AttachRootInfos(g, l, top);
    forall p | p in t' ensures PageOk(t', g', g', top, INVALID_PAGE_ID, p) {
      AttachRootPageOk(t, g, l, mid, r, top, junk, p);
    }
  }

  lemma AttachRootPageOk(t: Nodes, g: Infos, l: PageId, mid: int32, r: PageId, top: PageId, junk: int32, p: PageId)
    requires Forest(t, g, l, l, r) && r != INVALID_PAGE_ID && mid == g[r].lo
    requires top !in t && top != INVALID_PAGE_ID && (p in t || p == top)
    ensures l in g && l in t && r in t
    ensures var t', g' := AttachRoot(t, l, mid, r, top, junk), AttachRootInfos(g, l, top);
            p in t' && p in g' && PageOk(t', g', g', top, INVALID_PAGE_ID, p)
  {
    var t', g' := AttachRoot(t, l, mid, r, top, junk), AttachRootInfos(g, l, top);
    assert PageOk(t, g, Seen(g, l, r), l, r, l);
    assert PageOk(t, g, Seen(g, l, r), l, r, r);
    var s := t'[top].slots;
    assert s[0].value == l && s[1].value == r;
    if p == top {
      assert ChildOk(t', g', g'[top], top, s, 0) && ChildOk(t', g', g'[top], top, s, 1);
    } else {
      assert PageOk(t, g, Seen(g, l, r), l, r, p);
      if t[p].Internal? {
        forall i | 0 <= i < |t[p].slots| ensures ChildOk(t', g', g'[p], p, t'[p].slots, i) {
          assert ChildOk(t, Seen(g, l, r), g[p], p, t[p].slots, i);
        }
      }
    }
  }

  function AttachParent(t: Nodes, l: PageId, mid: int32, r: PageId): Nodes
    requires l in t && r in t && Linked(t, l)
  {
    var q := t[l].parent;
    var s := t[q].slots;
    t[q := t[q].(slots := InsertSlot(s, ChildIndex(s, l) + 1, Entry(mid, r)))][r := t[r].(parent := q)]
  }

  lemma InsertSlotKeepsChildren(s: seq<Entry<PageId>>, i: nat, e: Entry<PageId>, c: PageId)
    requires i <= |s| && IsChild(s, c)
    ensures IsChild(InsertSlot(s, i, e), c)
  {
    var j := ChildIndex(s, c);
    assert InsertSlot(s, i, e)[if j < i then j else j + 1] == s[j];
  }

  lemma AttachParentKeepsShape(t: Nodes, g: Infos, root: PageId, l: PageId, mid: int32, r: PageId)
    requires Forest(t, g, root, l, r) && r != INVALID_PAGE_ID && mid == g[r].lo
    requires l != root
    ensures Linked(t, l) && Shape(AttachParent(t, l, mid, r), g, root)
  {
    var seen := Seen(g, l, r);
    assert PageOk(t, g, seen, root, r, l);
    var t' := AttachParent(t, l, mid, r);
    forall p | p in t' ensures PageOk(t', g, g, root, INVALID_PAGE_ID, p) {
      AttachParentPage(t, g, root, l, mid, r, p);
    }
  }

  /** A new separator inside the range of slot `n` divides that range and no other. */
  lemma InsertSlotRange(own: Info, s: seq<Entry<PageId>>, n: nat, e: Entry<PageId>, i: nat)
    requires n < |s| && i <= |s|
    ensures var s' := InsertSlot(s, n + 1, e);
            && s'[i].value == (if i <= n then s[i].value else if i == n + 1 then e.value else s[i - 1].value)
            && SlotLo(s', own, i) == (if i <= n then SlotLo(s, own, i) else if i == n + 1 then e.key else SlotLo(s, own, i - 1))
            && SlotHi(s', own, i) == (if i < n then SlotHi(s, own, i) else if i == n then e.key else SlotHi(s, own, i - 1))
  {
  }

  lemma InsertSlotOk(own: Info, s: seq<Entry<PageId>>, n: nat, e: Entry<PageId>)
    requires SlotsOk(own, s) && n < |s| && SlotLo(s, own, n) < e.key < SlotHi(s, own, n)
    ensures SlotsOk(own, InsertSlot(s, n + 1, e))
  {
  }

  lemma ParentApart(t: Nodes, g: Infos, root: PageId, l: PageId, r: PageId) returns (n: nat)
    requires Forest(t, g, root, l, r) && r != INVALID_PAGE_ID && l != root
    ensures Linked(t, l)
    ensures var q := t[l].parent; q != l && q != r && n == ChildIndex(t[q].slots, l)
    ensures var q := t[l].parent; PageOk(t, g, Seen(g, l, r), root, r, q)
    ensures r in t && l != r && PageOk(t, g, Seen(g, l, r), root, r, l) && PageOk(t, g, Seen(g, l, r), root, r, r)
    ensures var q := t[l].parent; ChildOk(t, Seen(g, l, r), g[q], q, t[q].slots, n)
  {
    assert PageOk(t, g, Seen(g, l, r), root, r, l);
    var q := t[l].parent;
    assert PageOk(t, g, Seen(g, l, r), root, r, q) && PageOk(t, g, Seen(g, l, r), root, r, r);
    n := ChildIndex(t[q].slots, l);
    assert ChildOk(t, Seen(g, l, r), g[q], q, t[q].slots, n);
  }

  /** The page that gains a slot. */
  lemma AttachParentSlots(t: Nodes, g: Infos, root: PageId, l: PageId, mid: int32, r: PageId)
    requires Forest(t, g, root, l, r) && r != INVALID_PAGE_ID && mid == g[r].lo
    requires l != root && Linked(t, l)
    ensures ContentOk(AttachParent(t, l, mid, r), g, g, t[l].parent)
  {
    var t' := AttachParent(t, l, mid, r);
    var q := t[l].parent;
    var n := ParentApart(t, g, root, l, r);
    var s, s' := t[q].slots, t'[q].slots;
    assert PageOk(t, g, Seen(g, l, r), root, r, l);
    assert PageOk(t, g, Seen(g, l, r), root, r, r);
    InsertSlotOk(g[q], s, n, Entry(mid, r));
    forall i | 0 <= i < |s'| ensures ChildOk(t', g, g[q], q, s', i) {
      AttachedChild(t, g, root, l, mid, r, i);
    }
  }

  /** Ranges tell the children of a page apart. */
  lemma OtherSlot(t: Nodes, seen: Infos, own: Info, q: PageId, s: seq<Entry<PageId>>, n: nat, j: nat)
    requires SlotsOk(own, s) && n < |s| && j < |s| && ChildOk(t, seen, own, q, s, n) && ChildOk(t, seen, own, q, s, j)
    ensures s[j].value == s[n].value ==> j == n
  {
  }

  lemma AttachedChild(t: Nodes, g: Infos, root: PageId, l: PageId, mid: int32, r: PageId, i: nat)
    requires Forest(t, g, root, l, r) && r != INVALID_PAGE_ID && mid == g[r].lo
    requires l != root && Linked(t, l) && i <= |t[t[l].parent].slots|
    ensures var t', q := AttachParent(t, l, mid, r), t[l].parent;
            q in t' && q in g && t'[q].Internal? && |t'[q].slots| == |t[q].slots| + 1
            && ChildOk(t', g, g[q], q, t'[q].slots, i)
  {
    hide SlotLo, SlotHi, SlotsOk, IsChild;
    var seen := Seen(g, l, r);
    var q := t[l].parent;
    var n := ParentApart(t, g, root, l, r);
    var s := t[q].slots;
    InsertSlotRange(g[q], s, n, Entry(mid, r), i);
    var j := if i <= n then i else i - 1;
    assert ChildOk(t, seen, g[q], q, s, j);
    OtherSlot(t, seen, g[q], q, s, n, j);
  }

  lemma AttachParentLinks(t: Nodes, g: Infos, root: PageId, l: PageId, mid: int32, r: PageId, p: PageId)
    requires Forest(t, g, root, l, r) && r != INVALID_PAGE_ID
    requires l != root && p in t && p != root && Linked(t, l)
    ensures Linked(AttachParent(t, l, mid, r), p)
  {
    var t' := AttachParent(t, l, mid, r);
    var q := t[l].parent;
    var n := ParentApart(t, g, root, l, r);
    assert t'[q].slots[n + 1] == Entry(mid, r);
    assert PageOk(t, g, Seen(g, l, r), root, r, p);
    if p != r && t[p].parent == q {
      InsertSlotKeepsChildren(t[q].slots, n + 1, Entry(mid, r), p);
    }
  }

  lemma AttachParentPage(t: Nodes, g: Infos, root: PageId, l: PageId, mid: int32, r: PageId, p: PageId)
    requires Forest(t, g, root, l, r) && r != INVALID_PAGE_ID && mid == g[r].lo
    requires l != root && p in t && Linked(t, l)
    ensures PageOk(AttachParent(t, l, mid, r), g, g, root, INVALID_PAGE_ID, p)
  {
    var seen := Seen(g, l, r);
    var t' := AttachParent(t, l, mid, r);
    assert PageOk(t, g, seen, root, r, p);
    if p != root {
      AttachParentLinks(t, g, root, l, mid, r, p);
    }
    if p == t[l].parent {
      AttachParentSlots(t, g, root, l, mid, r);
    } else if t[p].Internal? {
      forall i | 0 <= i < |t[p].slots| ensures ChildOk(t', g, g[p], p, t'[p].slots, i) {
        assert ChildOk(t, seen, g[p], p, t[p].slots, i);
      }
    }
  }

  // ---------- The same steps for trees over a map ----------

  /** A new root over the two halves of the old one. */
  lemma AttachRootTree(t: Nodes, g: Infos, m: map<int32, Rid>, leafMax: nat, internalMax: nat,
                       l: PageId, mid: int32, r: PageId, top: PageId, junk: int32)
    requires PendingOver(t, g, l, m, leafMax, internalMax, l, mid, r) && 2 <= internalMax
    requires top !in t && top != INVALID_PAGE_ID
    ensures var t' := AttachRoot(t, l, mid, r, top, junk);
            TreeOver(t', AttachRootInfos(g, l, top), top, m, leafMax, internalMax, {})
  {
    var t' := AttachRoot(t, l, mid, r, top, junk);
    AttachRootKeepsShape(t, g, l, mid, r, top, junk);
    SameLeavesSameRecords(t, t');
    RepresentsSame(t, t', m);
    forall p | p in t' ensures PageSizeOk(t', top, leafMax, internalMax, p) {
      assert p !in {l, r, top} ==> PageSizeOk(t, l, leafMax, internalMax, p);
    }
  }

  /** The parent of the split page gains a slot and may now be one slot over the limit. */
  lemma AttachParentTree(t: Nodes, g: Infos, root: PageId, m: map<int32, Rid>, leafMax: nat, internalMax: nat,
                         l: PageId, mid: int32, r: PageId)
    requires PendingOver(t, g, root, m, leafMax, internalMax, l, mid, r) && l != root
    ensures Linked(t, l) && t[l].parent !in {l, r} && g[t[l].parent].level == g[l].level + 1 <= g[root].level
    ensures var q := t[l].parent;
            var t' := AttachParent(t, l, mid, r);
            && t[q].Size() <= internalMax && t'[q].Size() == t[q].Size() + 1
            && TreeOver(t', g, root, m, leafMax, internalMax, {q})
            && (t'[q].Size() <= internalMax ==> TreeOver(t', g, root, m, leafMax, internalMax, {}))
  {
    AttachParentKeepsShape(t, g, root, l, mid, r);
    var n := ParentApart(t, g, root, l, r);
    var q := t[l].parent;
    var t' := AttachParent(t, l, mid, r);
    assert PageSizeOk(t, root, leafMax, internalMax, q);
    SameLeavesSameRecords(t, t');
    RepresentsSame(t, t', m);
    forall p | p in t' && p != q ensures PageSizeOk(t', root, leafMax, internalMax, p) {
      assert p !in {l, r} ==> PageSizeOk(t, root, leafMax, internalMax, p);
    }
  }

  /** Splitting an internal page that is one slot over the limit. */
  lemma SplitInternalPending(t: Nodes, g: Infos, root: PageId, m: map<int32, Rid>, leafMax: nat, internalMax: nat,
                             l: PageId, r: PageId)
    requires TreeOver(t, g, root, m, leafMax, internalMax, {l}) && 3 <= internalMax
    requires l in t && t[l].Internal? && |t[l].slots| == internalMax + 1 && r !in t && r != INVALID_PAGE_ID
    ensures var n := |t[l].slots| / 2;
            var t', mid := SplitInternal(t, l, r, n), t[l].slots[n].key;
            && PendingOver(t', SplitInfos(g, l, r, mid), root, m, leafMax, internalMax, l, mid, r)
            && forall j :: 0 <= j < |t[l].slots| ==> t[l].slots[j].value in t && t[l].slots[j].value !in {l, r}
  {
    hide Represents, SameRecords, PageOk, SizesExcept, SizeOk, SplitInternal;
    var n := |t[l].slots| / 2;
    var t' := SplitInternal(t, l, r, n);
    SplitInternalKeepsShape(t, g, root, l, r, n);
    SplitInternalSizes(t, root, leafMax, internalMax, l, r);
    AllChildrenApart(t, g, root, l, r);
    SplitInternalRecords(t, l, r, n);
    RepresentsSame(t, t', m);
  }

  lemma SplitInternalRecords(t: Nodes, l: PageId, r: PageId, n: nat)
    requires l in t && t[l].Internal? && n <= |t[l].slots| && r !in t
    ensures SameRecords(t, SplitInternal(t, l, r, n))
  {
    SameLeavesSameRecords(t, SplitInternal(t, l, r, n));
  }

  lemma AllChildrenApart(t: Nodes, g: Infos, root: PageId, l: PageId, r: PageId)
    requires Shape(t, g, root) && l in t && t[l].Internal? && r !in t
    ensures forall j :: 0 <= j < |t[l].slots| ==> t[l].slots[j].value in t && t[l].slots[j].value !in {l, r}
  {
    MovedChildren(t, g, root, l, 0);
    forall j | 0 <= j < |t[l].slots| ensures t[l].slots[j].value in t && t[l].slots[j].value !in {l, r} {
      assert ChildOk(t, g, g[l], l, t[l].slots, j);
    }
  }

  lemma SplitInternalSizes(t: Nodes, root: PageId, leafMax: nat, internalMax: nat, l: PageId, r: PageId)
    requires SizesExcept(t, root, leafMax, internalMax, {l}) && 3 <= internalMax
    requires l in t && t[l].Internal? && |t[l].slots| == internalMax + 1 && r !in t
    ensures var t' := SplitInternal(t, l, r, |t[l].slots| / 2);
            && SizesExcept(t', root, leafMax, internalMax, {l, r})
            && l in t' && r in t' && SizeOk(t'[l], false, leafMax, internalMax) && SizeOk(t'[r], false, leafMax, internalMax)
  {
    var t' := SplitInternal(t, l, r, |t[l].slots| / 2);
    forall p | p in t' && p !in {l, r} ensures PageSizeOk(t', root, leafMax, internalMax, p) {
      assert PageSizeOk(t, root, leafMax, internalMax, p);
    }
    assert t'[l].Internal? && t'[l].slots == t[l].slots[..|t[l].slots| / 2];
    assert t'[r].Internal? && t'[r].slots == t[l].slots[|t[l].slots| / 2..];
  }
}
