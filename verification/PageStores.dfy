/**
 The buffer pool as an index sees it: pages by id, pinned while in use.  A page that is no
 longer pinned may be evicted at any moment and read back, so its saved copy must agree
 with its contents by then; that is the duty of whoever unpins it.
 */
module PageStores {
  import opened Types
  import opened TreePages

  /** Pins that an index operation may hold at once. */
  const PIN_LIMIT: nat := 4

  /** The typed view of a page that the source obtains with a cast. */
  datatype PageRef = LeafRef(leaf: LeafPage) | InternalRef(internal: InternalPage)
  {
    ghost function Objects(): set<object> {
      match this
      case LeafRef(p) => {p, p.data}
      case InternalRef(p) => {p, p.data}
    }

    /** The two pages share no storage. */
    ghost predicate Apart(other: PageRef) {
      match (this, other)
      case (LeafRef(p), LeafRef(q)) => p != q && p.data != q.data
      case (InternalRef(p), InternalRef(q)) => p != q && p.data != q.data
      case (_, _) => true
    }

    ghost predicate Valid()
      reads Objects()
    {
      match this
      case LeafRef(p) => p.Valid()
      case InternalRef(p) => p.Valid()
    }

    ghost function View(): Node
      reads Objects()
      requires Valid()
    {
      match this
      case LeafRef(p) => p.View()
      case InternalRef(p) => p.View()
    }

    ghost predicate Denotes(node: Node)
      reads Objects()
    {
      Valid() && View() == node
    }

    function MaxSize(): nat {
      match this
      case LeafRef(p) => p.maxSize
      case InternalRef(p) => p.maxSize
    }

    function Parent(): PageId
      reads match this case LeafRef(p) => {p as object} case InternalRef(p) => {p as object}
    {
      match this
      case LeafRef(p) => p.parentPageId
      case InternalRef(p) => p.parentPageId
    }

    method SetParent(parent: PageId)
      requires Valid()
      modifies Objects()
      ensures Valid() && View() == old(View()).(parent := parent)
    {
      match this
      case LeafRef(p) => p.parentPageId := parent;
      case InternalRef(p) => p.parentPageId := parent;
    }
  }

  /** The value of every page, and the pages made or changed since a write to them was last reported. */
  datatype Image = Image(nodes: map<PageId, Node>, unsaved: set<PageId>)

  /** What the index asked of the pool, and the answers that it worked with. */
  datatype Event =
    | Made(id: PageId)
    | Read(id: PageId, node: Node)
    | Wrote(id: PageId, node: Node)
    | GaveBack(id: PageId, isDirty: bool)
    | Dropped(id: PageId)

  /** The pages of the index and its pins; a blank page has not been written since it was created. */
  datatype Store = Store(image: Image, pins: multiset<PageId>, blank: set<PageId>)

  /**
   The store after one event; `None` when the event breaks the rules or its answer is not that of the
   store.  Every unpin is of a pinned page, and every deletion of a page that is not pinned.
   */
  function Next(t: Store, e: Event): Option<Store> {
    match e
    case Made(id) =>
      if id in t.image.nodes || |t.pins| >= PIN_LIMIT then None
      else Some(Store(Image(t.image.nodes[id := BLANK], t.image.unsaved + {id}), t.pins + multiset{id}, t.blank + {id}))
    case Read(id, node) =>
      if id !in t.image.nodes || id in t.blank || t.image.nodes[id] != node || |t.pins| >= PIN_LIMIT then None
      else Some(t.(pins := t.pins + multiset{id}))
    case Wrote(id, node) =>
      if id !in t.image.nodes || id !in t.pins then None
      else Some(t.(image := Image(t.image.nodes[id := node], t.image.unsaved + {id}), blank := t.blank - {id}))
    case GaveBack(id, isDirty) =>
      if id !in t.image.nodes || id !in t.pins || (t.pins[id] == 1 && !isDirty && id in t.image.unsaved) then None
      else Some(t.(image := t.image.(unsaved := if isDirty then t.image.unsaved - {id} else t.image.unsaved),
                   pins := t.pins - multiset{id}))
    case Dropped(id) =>
      if id !in t.image.nodes || id in t.pins then None
      else Some(t.(image := t.image.(nodes := t.image.nodes - {id})))
  }

  const BLANK: Node := Leaf(INVALID_PAGE_ID, INVALID_PAGE_ID, [])

  const NO_PAGES: Store := Store(Image(map[], {}), multiset{}, {})

  /** The store after all events of a trace. */
  function Replay(trace: seq<Event>): Option<Store> {
    if trace == [] then Some(NO_PAGES) else
      var before := Replay(trace[..|trace| - 1]);
      if before.None? then None else Next(before.value, trace[|trace| - 1])
  }

  lemma ReplayNext(trace: seq<Event>, e: Event)
    ensures Replay(trace + [e]) == if Replay(trace).None? then None else Next(Replay(trace).value, e)
  {
    assert (trace + [e])[..|trace|] == trace;
  }

  /** The store that a trace leads to, when no page is left blank. */
  ghost predicate Leads(trace: seq<Event>, image: Image, pins: multiset<PageId>) {
    Replay(trace) == Some(Store(image, pins, {}))
  }

  lemma CreateLeads(trace: seq<Event>, image: Image, pins: multiset<PageId>, id: PageId, node: Node)
    requires Leads(trace, image, pins) && id !in image.nodes && |pins| < PIN_LIMIT
    ensures Leads(trace + [Made(id), Wrote(id, node)],
                  Image(image.nodes[id := node], image.unsaved + {id}), pins + multiset{id})
  {
    ReplayNext(trace, Made(id));
    ReplayNext(trace + [Made(id)], Wrote(id, node));
    assert trace + [Made(id)] + [Wrote(id, node)] == trace + [Made(id), Wrote(id, node)];
    assert image.nodes[id := BLANK][id := node] == image.nodes[id := node];
    var blank: set<PageId> := {};
    assert blank + {id} - {id} == {} && image.unsaved + {id} + {id} == image.unsaved + {id};
  }

  lemma FetchLeads(trace: seq<Event>, image: Image, pins: multiset<PageId>, id: PageId)
    requires Leads(trace, image, pins) && id in image.nodes && |pins| < PIN_LIMIT
    ensures Leads(trace + [Read(id, image.nodes[id])], image, pins + multiset{id})
  {
    ReplayNext(trace, Read(id, image.nodes[id]));
  }

  lemma WriteLeads(trace: seq<Event>, image: Image, pins: multiset<PageId>, id: PageId, node: Node)
    requires Leads(trace, image, pins) && id in image.nodes && id in pins
    ensures Leads(trace + [Wrote(id, node)], Image(image.nodes[id := node], image.unsaved + {id}), pins)
  {
    ReplayNext(trace, Wrote(id, node));
    var blank: set<PageId> := {};
    assert blank - {id} == {};
  }

  /** Every changed page is still pinned after an unpin that keeps the rules. */
  lemma UnpinKeepsPins(image: Image, pins: multiset<PageId>, id: PageId, isDirty: bool)
    requires (forall i :: i in image.unsaved ==> i in pins) && (pins[id] == 1 && !isDirty ==> id !in image.unsaved)
    ensures forall i :: i in image.unsaved && !(i == id && isDirty) ==> i in pins - multiset{id}
    ensures forall i :: i in pins - multiset{id} ==> i in pins
  {
  }

  lemma UnpinLeads(trace: seq<Event>, image: Image, pins: multiset<PageId>, id: PageId, isDirty: bool)
    requires Leads(trace, image, pins) && id in image.nodes && id in pins
    requires pins[id] == 1 && !isDirty ==> id !in image.unsaved
    ensures Leads(trace + [GaveBack(id, isDirty)],
                  image.(unsaved := if isDirty then image.unsaved - {id} else image.unsaved), pins - multiset{id})
  {
    ReplayNext(trace, GaveBack(id, isDirty));
  }

  lemma DeleteLeads(trace: seq<Event>, image: Image, pins: multiset<PageId>, id: PageId)
    requires Leads(trace, image, pins) && id in image.nodes && id !in pins
    ensures Leads(trace + [Dropped(id)], image.(nodes := image.nodes - {id}), pins)
  {
    ReplayNext(trace, Dropped(id));
  }

  ghost function Changed(t: map<PageId, Node>, t': map<PageId, Node>): set<PageId> {
    set i | i in t && i in t' && t'[i] != t[i]
  }

  ghost predicate AllApart(table: map<PageId, PageRef>) {
    forall i, j {:trigger table[i].Apart(table[j])} :: i in table && j in table && i != j ==> table[i].Apart(table[j])
  }

  lemma EnterApart(table: map<PageId, PageRef>, id: PageId, page: PageRef, repr: set<object>)
    requires AllApart(table) && id !in table && page.Objects() !! repr
    requires forall i :: i in table ==> table[i].Objects() <= repr
    ensures AllApart(table[id := page])
  {
    var table' := table[id := page];
    forall i, j | i in table' && j in table' && i != j ensures table'[i].Apart(table'[j]) {
      if i != id && j != id {
        assert table[i].Apart(table[j]);
      } else {
        var o := table[if i == id then j else i];
        assert o.Objects() <= repr;
      }
    }
  }

  class PageStore {
    var table: map<PageId, PageRef>
    var pins: multiset<PageId>
    var nextPageId: PageId
    ghost var image: Image                      // the values of the pages
    ghost var Repr: set<object>                 // the pages' storage
    ghost var trace: seq<Event>

    /** Page `id` has the value recorded for it. */
    ghost predicate Agrees(id: PageId)
      reads this`table, this`image, this`Repr, Repr
      requires id in table
    {
      && id in image.nodes
      && table[id].Objects() <= Repr
      && table[id].Denotes(image.nodes[id])
    }

    /** The pages are in order, but for the values of the pages `ids`. */
    ghost predicate PagesValid(ids: set<PageId>)
      reads this`table, this`image, this`Repr, Repr
    {
      && this !in Repr
      && image.nodes.Keys == table.Keys
      && (forall id {:trigger Agrees(id)} :: id in table && id !in ids ==> Agrees(id))
      && AllApart(table)
    }

    /** Ids, pins and saved copies are in order. */
    ghost predicate BooksValid()
      reads this
    {
      && 0 <= nextPageId
      && (forall id :: id in table ==> 0 <= id < nextPageId)
      && (forall id :: id in pins ==> id in table)
      && table.Keys == image.nodes.Keys
      && (forall id :: id in image.unsaved ==> id in pins)
      && Leads(trace, image, pins)
    }

    ghost predicate Valid()
      reads this, Repr
    {
      PagesValid({}) && BooksValid()
    }

    constructor ()
      ensures Valid() && table == map[] && pins == multiset{} && Repr == {} && trace == []
    {
      table, pins, nextPageId := map[], multiset{}, 0;
      image, Repr, trace := Image(map[], {}), {}, [];
    }

    method FetchPage(id: PageId) returns (page: PageRef)
      requires Valid() && id in table && |pins| < PIN_LIMIT
      modifies this`trace, this`pins
      ensures Valid() && pins == old(pins) + multiset{id} && page == table[id]
      ensures trace == old(trace) + [Read(id, image.nodes[id])] && page.Denotes(image.nodes[id])
    {
      hide Leads;
      FetchLeads(trace, image, pins, id);
      trace := trace + [Read(id, image.nodes[id])];
      assert Agrees(id);
      pins := pins + multiset{id};
      page := table[id];
    }

    method UnpinPage(id: PageId, isDirty: bool) returns (ok: bool)
      requires Valid() && id in pins
      requires pins[id] == 1 && !isDirty ==> id !in image.unsaved
      modifies this`trace, this`pins, this`image
      ensures Valid() && ok && pins == old(pins) - multiset{id} && image.nodes == old(image.nodes)
      ensures image.unsaved == if isDirty then old(image.unsaved) - {id} else old(image.unsaved)
      ensures trace == old(trace) + [GaveBack(id, isDirty)]
    {
      hide Leads, AllApart, PageRef.Denotes;
      UnpinLeads(trace, image, pins, id, isDirty);
      UnpinKeepsPins(image, pins, id, isDirty);
      ok := id in pins;
      pins := pins - multiset{id};
      Note(GaveBack(id, isDirty), if isDirty then image.unsaved - {id} else image.unsaved);
    }

    ghost method Note(e: Event, unsaved: set<PageId>)
      requires PagesValid({})
      modifies this`trace, this`image
      ensures PagesValid({}) && image == old(image).(unsaved := unsaved) && trace == old(trace) + [e]
    {
      hide AllApart, PageRef.Denotes;
      image, trace := image.(unsaved := unsaved), trace + [e];
      forall i | i in table ensures Agrees(i) {
        assert old(Agrees(i));
      }
    }

    /** A new zeroed page, used as a leaf. */
    method NewLeafPage(maxSize: nat) returns (id: PageId, leaf: LeafPage)
      requires Valid() && |pins| < PIN_LIMIT
      modifies this
      ensures Valid() && fresh(leaf) && fresh(leaf.data) && leaf.maxSize == maxSize
      ensures Repr == old(Repr) + {leaf, leaf.data} && pins == old(pins) + multiset{id}
      ensures id != INVALID_PAGE_ID && id !in old(table) && table == old(table)[id := LeafRef(leaf)]
      ensures image.nodes == old(image.nodes)[id := Leaf(INVALID_PAGE_ID, INVALID_PAGE_ID, [])]
      ensures image.unsaved == old(image.unsaved) + {id}
      ensures trace == old(trace) + [Made(id), Wrote(id, image.nodes[id])]
    {
      leaf := new LeafPage(maxSize);
      id := TakeId();
      Enter(id, LeafRef(leaf));
    }

    /** A new zeroed page, used as an internal page. */
    method NewInternalPage(maxSize: nat) returns (id: PageId, internal: InternalPage)
      requires Valid() && |pins| < PIN_LIMIT
      modifies this
      ensures Valid() && fresh(internal) && fresh(internal.data) && internal.maxSize == maxSize
      ensures Repr == old(Repr) + {internal, internal.data} && pins == old(pins) + multiset{id}
      ensures id != INVALID_PAGE_ID && id !in old(table) && table == old(table)[id := InternalRef(internal)]
      ensures image.nodes == old(image.nodes)[id := Internal(INVALID_PAGE_ID, [])]
      ensures image.unsaved == old(image.unsaved) + {id}
      ensures trace == old(trace) + [Made(id), Wrote(id, image.nodes[id])]
    {
      internal := new InternalPage(maxSize);
      id := TakeId();
      Enter(id, InternalRef(internal));
    }

    /** The pool counts page ids up; other clients may have taken some since. */
    method TakeId() returns (id: PageId)
      requires Valid()
      modifies this`nextPageId
      ensures Valid() && old(nextPageId) <= id == nextPageId
    {
      hide Leads;
      id :| nextPageId <= id;
      nextPageId := id;
      forall i | i in table ensures Agrees(i) {
        assert old(Agrees(i));
      }
    }

    method Enter(id: PageId, page: PageRef)
      requires Valid() && id == nextPageId && |pins| < PIN_LIMIT
      requires page.Valid() && this !in page.Objects() && page.Objects() !! Repr
      modifies this
      ensures Valid()
      ensures table == old(table)[id := page] && image.nodes == old(image.nodes)[id := page.View()]
      ensures Repr == old(Repr) + page.Objects() && pins == old(pins) + multiset{id}
      ensures image.unsaved == old(image.unsaved) + {id}
      ensures trace == old(trace) + [Made(id), Wrote(id, page.View())]
    {
      hide Leads, AllApart, PageRef.Denotes;
      assert id !in table && id !in pins;
      CreateLeads(trace, image, pins, id, page.View());
      trace := trace + [Made(id), Wrote(id, page.View())];
      pins, nextPageId := pins + multiset{id}, nextPageId + 1;
      table := table[id := page];
      assert table - {id} == old(table);
      forall i | i in table && i != id ensures Agrees(i) {
        assert old(Agrees(i));
      }
      Register(id);
    }

    ghost method Register(id: PageId)
      requires id in table && image.nodes.Keys == table.Keys - {id} && this !in Repr && AllApart(table - {id})
      requires forall i {:trigger Agrees(i)} :: i in table && i != id ==> Agrees(i)
      requires table[id].Valid() && this !in table[id].Objects() && table[id].Objects() !! Repr
      modifies this`image, this`Repr
      ensures PagesValid({})
      ensures image == Image(old(image).nodes[id := table[id].View()], old(image).unsaved + {id}) && Repr == old(Repr) + table[id].Objects()
    {
      forall i | i in table && i != id ensures table[i].Objects() <= Repr {
        assert Agrees(i);
      }
      EnterApart(table - {id}, id, table[id], Repr);
      assert (table - {id})[id := table[id]] == table;
      image, Repr := Image(image.nodes[id := table[id].View()], image.unsaved + {id}), Repr + table[id].Objects();
      forall i | i in table ensures Agrees(i) {
        assert i != id ==> old(Agrees(i));
      }
    }

    /** Deletes a page that is not pinned. */
    method DeletePage(id: PageId) returns (ok: bool)
      requires Valid() && id in table && id !in pins
      modifies this`trace, this`table, this`image
      ensures Valid() && ok && table == old(table) - {id}
      ensures image.nodes == old(image.nodes) - {id} && image.unsaved == old(image.unsaved)
      ensures trace == old(trace) + [Dropped(id)]
    {
      hide Leads;
      DeleteLeads(trace, image, pins, id);
      ok := id !in pins;
      trace := trace + [Dropped(id)];
      table, image := table - {id}, image.(nodes := image.nodes - {id});
      forall i | i in table ensures Agrees(i) {
        assert old(Agrees(i));
      }
      forall i, j | i in table && j in table && i != j ensures table[i].Apart(table[j]) {
        assert old(table)[i].Apart(old(table)[j]);
      }
    }

    /** Page `id` is pinned and in order, with value `node`. */
    ghost predicate Written(id: PageId, node: Node)
      reads this, Repr
    {
      id in pins && id in table && table[id].Objects() <= Repr && table[id].Denotes(node)
    }

    /** Records the value of page `id`, which has just been written in place. */
    ghost method CommitOne(id: PageId, node: Node)
      requires PagesValid({id}) && BooksValid() && id in image.nodes && Written(id, node)
      modifies this`trace, this`image
      ensures Valid() && image.nodes == old(image).nodes[id := node]
      ensures image.unsaved == old(image).unsaved + Changed(old(image).nodes, image.nodes)
      ensures trace == old(trace) + Writes(old(image.nodes), id, node)
    {
      hide Leads;
      ghost var t := image;
      RecordWrite(id, node);
      assert Changed(t.nodes, image.nodes) == if t.nodes[id] == node then {} else {id};
      forall i | i in table ensures Agrees(i) {
        assert i != id ==> old(Agrees(i));
      }
    }

    ghost method CommitTwo(l: PageId, left: Node, r: PageId, right: Node)
      requires PagesValid({l, r}) && BooksValid() && l in image.nodes && r in image.nodes && l != r
      requires Written(l, left) && Written(r, right)
      modifies this`trace, this`image
      ensures Valid() && image.nodes == old(image).nodes[l := left][r := right]
      ensures image.unsaved == old(image).unsaved + Changed(old(image).nodes, image.nodes)
      ensures trace == old(trace) + Writes(old(image.nodes), l, left) + Writes(old(image.nodes), r, right)
    {
      hide Leads;
      ghost var t := image;
      RecordWrite(l, left);
      RecordWrite(r, right);
      assert Changed(t.nodes, image.nodes) == (if t.nodes[l] == left then {} else {l}) + (if t.nodes[r] == right then {} else {r});
      forall i | i in table ensures Agrees(i) {
        assert i != l && i != r ==> old(Agrees(i));
      }
    }

    /** A write that changes nothing needs no report. */
    ghost method RecordWrite(id: PageId, node: Node)
      requires BooksValid() && id in image.nodes && id in pins
      modifies this`trace, this`image
      ensures BooksValid() && image.nodes == old(image.nodes)[id := node]
      ensures image.unsaved == old(image.unsaved) + (if old(image.nodes)[id] == node then {} else {id})
      ensures trace == old(trace) + Writes(old(image.nodes), id, node)
    {
      hide Leads;
      if image.nodes[id] != node {
        WriteLeads(trace, image, pins, id, node);
        trace := trace + [Wrote(id, node)];
        image := Image(image.nodes[id := node], image.unsaved + {id});
      } else {
        assert image.nodes == image.nodes[id := node];
      }
    }
  }

  /** A write is recorded when it changes the page. */
  function Writes(t: map<PageId, Node>, id: PageId, node: Node): seq<Event>
    requires id in t
  {
    if t[id] == node then [] else [Wrote(id, node)]
  }
}
