/**
 Page guards: each owns one pin of a page, can be moved but not copied, and gives the pin back
 once when dropped.  Whatever is done with them, a pool used through guards is a plain map from
 pages to bytes, and no client has to remember to unpin a page or to report a write.
 */
module PageGuards {
  import opened Types
  import opened DiskManagers
  import opened LruKReplacers
  import opened PoolStates
  import opened BufferPools

  /** The three guard classes; they differ in what they tell the pool when dropped. */
  datatype Kind = Basic | Read | Write

  class PageGuard {
    const kind: Kind
    const pool: BufferPool
    var page: Option<Handle>
    var isDirty: bool

    constructor (kind: Kind, pool: BufferPool, page: Option<Handle>)
      ensures this.kind == kind && this.pool == pool && this.page == page && !isDirty
    {
      this.kind, this.pool, this.page, this.isDirty := kind, pool, page, false;
    }

    /** Takes over the page of `that`, whose dirty mark stays behind. */
    constructor Moved(that: PageGuard)
      modifies that
      ensures kind == that.kind && pool == that.pool && page == old(that.page) && isDirty == old(that.isDirty)
      ensures that.page == None && that.isDirty == old(that.isDirty)
    {
      kind, pool, page, isDirty := that.kind, that.pool, that.page, that.isDirty;
      new;
      that.page := None;
    }

    /** What the guard says about its page when it gives the pin back. */
    predicate Reports()
      reads this
    {
      match kind
      case Basic => isDirty
      case Read => false
      case Write => true
    }

    predicate Covers(id: PageId)
      reads this
    {
      page.Some? && page.value.id == id && Reports()
    }

    /** A pin that this guard may give back. */
    ghost predicate Owns()
      reads this, pool, pool.disk, pool.pages
    {
      page.Some? ==> page.value.id in pool.View() && pool.View()[page.value.id].pins > 0
    }

    method Drop()
      requires pool.Valid() && Owns()
      modifies this, pool`unreported, pool.replacer, pool.pages
      ensures pool.Valid() && page == None && pool.replacer.log == old(pool.replacer.log)
      ensures pool.View() == old(Released(pool.View(), page, Reports()))
    {
      hide BufferPool.Valid, BufferPool.View;
      if page.None? {
        return;
      }
      var unpinned := pool.UnpinPage(page.value.id, Reports());
      assert unpinned;
      page, isDirty := None, false;
    }

    /** Move assignment: gives back the page held so far, unless the guard is moved to itself. */
    method Assign(that: PageGuard)
      requires kind == that.kind && pool == that.pool && pool.Valid() && Owns()
      modifies this, that, pool`unreported, pool.replacer, pool.pages
      ensures pool.Valid() && pool.replacer.log == old(pool.replacer.log)
      ensures page == old(that.page) && Reports() == old(that.Reports())
      ensures that != this ==> that.page == None
      ensures pool.View() == if this == that then old(pool.View()) else old(Released(pool.View(), page, Reports()))
    {
      hide BufferPool.Valid, BufferPool.View;
      if this != that {
        Drop();
        page, isDirty := that.page, that.isDirty;
        that.page, that.isDirty := None, false;
      }
    }

    /** Writes through `GetDataMut`, which marks the guard before it hands out the bytes. */
    method Overwrite(data: PageData)
      requires pool.Valid() && page.Some? && pool.Holds(page.value) && kind != Read
      modifies this`isDirty, pool`unreported, pool.pages
      ensures pool.Valid() && Reports() && page.value.id in old(pool.View())
      ensures pool.View() == old(pool.View())[page.value.id :=
                old(pool.View())[page.value.id].(data := data, unreported := true)]
    {
      isDirty := true;
      pool.WriteData(page.value, data);
    }
  }

  function Released(s: Pool, page: Option<Handle>, reports: bool): Pool
    requires page.Some? ==> page.value.id in s && s[page.value.id].pins > 0
  {
    if page.None? then s else
      var p := s[page.value.id];
      s[page.value.id := PageState(p.data, p.pins - 1, p.unreported && !reports)]
  }

  // ---------- A plain map of pages, and who holds them ----------

  /** A guard variable: its class, and the page it holds. */
  datatype Slot = Slot(kind: Kind, page: Option<PageId>)

  /** The bytes of every page, the guards, and the pins that clients took without a guard. */
  datatype Session = Session(contents: map<PageId, PageData>, slots: seq<Slot>, raw: multiset<PageId>)

  datatype Op =
    | New(kind: Kind)                   // a guard for a new page
    | Fetch(kind: Kind, id: PageId)     // a guard for a page fetched
    | Look(slot: nat)
    | Overwrite(slot: nat, data: PageData)
    | Move(target: nat, source: nat)    // move assignment
    | MoveOut(source: nat)              // move construction of one more guard
    | Drop(slot: nat)
    | Pin(id: PageId)
    | Unpin(id: PageId, isDirty: bool)

  function One(slot: Slot, id: PageId): nat {
    if slot.page == Some(id) then 1 else 0
  }

  /** How many guards hold page `id`. */
  function Held(slots: seq<Slot>, id: PageId): nat {
    if slots == [] then 0 else Held(slots[..|slots| - 1], id) + One(slots[|slots| - 1], id)
  }

  function Pins(e: Session, id: PageId): nat {
    Held(e.slots, id) + e.raw[id]
  }

  function Busy(e: Session): set<PageId> {
    set id | id in e.contents && Pins(e, id) > 0
  }

  /** Whether page `id` can be put into one of `n` frames. */
  predicate Room(n: nat, e: Session, id: PageId) {
    Pins(e, id) > 0 || |Busy(e)| < n
  }

  function Next(n: nat, e: Session, op: Op): Session {
    match op
    case New(kind) =>
      if |Busy(e)| < n then
        e.(contents := e.contents[|e.contents| := ZEROS], slots := e.slots + [Slot(kind, Some(|e.contents|))])
      else e.(slots := e.slots + [Slot(kind, None)])
    case Fetch(kind, id) =>
      if id !in e.contents then e
      else e.(slots := e.slots + [Slot(kind, if Room(n, e, id) then Some(id) else None)])
    case Look(_) => e
    case Overwrite(k, data) =>
      if k < |e.slots| && e.slots[k].page.Some? && e.slots[k].kind != Read then
        e.(contents := e.contents[e.slots[k].page.value := data])
      else e
    case Move(k, j) =>
      if k < |e.slots| && j < |e.slots| && k != j && e.slots[k].kind == e.slots[j].kind then
        e.(slots := e.slots[k := e.slots[j]][j := Slot(e.slots[j].kind, None)])
      else e
    case MoveOut(j) =>
      if j < |e.slots| then e.(slots := e.slots[j := Slot(e.slots[j].kind, None)] + [e.slots[j]]) else e
    case Drop(k) =>
      if k < |e.slots| then e.(slots := e.slots[k := Slot(e.slots[k].kind, None)]) else e
    case Pin(id) =>
      if id in e.contents && Room(n, e, id) then e.(raw := e.raw + multiset{id}) else e
    case Unpin(id, _) =>
      e.(raw := e.raw - multiset{id})
  }

  /** The bytes that `Look` sees. */
  function Seen(e: Session, op: Op): Option<PageData> {
    if op.Look? && op.slot < |e.slots| && e.slots[op.slot].page.Some? && e.slots[op.slot].page.value in e.contents
    then Some(e.contents[e.slots[op.slot].page.value]) else None
  }

  lemma {:induction false} HeldReplace(slots: seq<Slot>, k: nat, slot: Slot, id: PageId)
    requires k < |slots|
    ensures Held(slots[k := slot], id) == Held(slots, id) - One(slots[k], id) + One(slot, id)
    ensures One(slots[k], id) <= Held(slots, id)
    decreases |slots|
  {
    var n := |slots| - 1;
    if k < n {
      HeldReplace(slots[..n], k, slot, id);
      assert slots[k := slot][..n] == slots[..n][k := slot];
    } else {
      assert slots[k := slot][..n] == slots[..n];
    }
  }

  lemma HeldAppend(slots: seq<Slot>, slot: Slot, id: PageId)
    ensures Held(slots + [slot], id) == Held(slots, id) + One(slot, id)
  {
    assert (slots + [slot])[..|slots|] == slots;
  }

  // ---------- The pool and the guards behind it ----------

  /** Every page has the bytes it should, and as many pins as it has holders. */
  ghost predicate Balanced(s: Pool, e: Session) {
    && s.Keys == e.contents.Keys
    && (forall id :: id in s ==> s[id].data == e.contents[id] && s[id].pins == Pins(e, id))
    && (forall id :: Pins(e, id) > 0 ==> id in s)
  }

  ghost predicate Stands(g: PageGuard, slot: Slot)
    reads g, g.pool`pageTable
  {
    && g.kind == slot.kind
    && (g.page.Some? <==> slot.page.Some?)
    && (g.page.Some? ==> g.page.value.id == slot.page.value && g.pool.Holds(g.page.value))
  }

  /** A write that was not reported yet will be, by a guard that still holds the page. */
  ghost predicate Covered(s: Pool, guards: seq<PageGuard>)
    reads guards
  {
    forall id :: id in s && s[id].unreported ==> exists k :: 0 <= k < |guards| && guards[k].Covers(id)
  }

  ghost predicate Ok(pool: BufferPool, guards: seq<PageGuard>, e: Session)
    reads guards, pool, pool.disk, pool.replacer, pool.pages
  {
    && pool.Valid() && Balanced(pool.View(), e) && Covered(pool.View(), guards)
    && (forall j, k :: 0 <= j < k < |guards| ==> guards[j] != guards[k])
    && |guards| == |e.slots|
    && (forall k :: 0 <= k < |guards| ==> guards[k].pool == pool && Stands(guards[k], e.slots[k]))
  }

  lemma HeldBy(s: Pool, e: Session, k: nat, id: PageId)
    requires Balanced(s, e) && k < |e.slots| && e.slots[k].page == Some(id)
    ensures Pins(e, id) > 0 && id in s && s[id].pins > 0
  {
    HeldReplace(e.slots, k, e.slots[k], id);
  }

  /** Guards report in time, and the pool shows what the session says. */
  lemma OkShows(pool: BufferPool, guards: seq<PageGuard>, e: Session)
    requires Ok(pool, guards, e)
    ensures Disciplined(pool.View()) && Busy(e) == Pinned(pool.View())
    ensures pool.View().Keys == e.contents.Keys && |e.contents| == pool.disk.nextPageId
    ensures forall id :: id in pool.View() ==> pool.View()[id].pins == Pins(e, id)
    ensures forall id :: 0 <= id < pool.disk.nextPageId <==> id in e.contents
  {
    var s := pool.View();
    forall id | id in s && s[id].unreported ensures s[id].pins > 0 {
      var k :| 0 <= k < |guards| && guards[k].Covers(id);
      assert Stands(guards[k], e.slots[k]);
      HeldBy(s, e, k, id);
    }
    AllFrames(s.Keys, pool.disk.nextPageId);
    assert |e.contents| == |e.contents.Keys|;
  }

  /** One holder of `page` less. */
  lemma ReleasedBalanced(s: Pool, e: Session, e': Session, page: Option<Handle>, reports: bool)
    requires Balanced(s, e) && e'.contents == e.contents
    requires page.Some? ==> page.value.id in s && s[page.value.id].pins > 0
    requires forall id :: Pins(e', id) == Pins(e, id) - if page.Some? && page.value.id == id then 1 else 0
    ensures Balanced(Released(s, page, reports), e')
  {
    forall id | Pins(e', id) > 0 ensures id in s {
      assert Pins(e, id) > 0;
    }
  }

  /** One holder of page `id` more. */
  lemma TakenBalanced(s: Pool, e: Session, e': Session, id: PageId)
    requires Balanced(s, e) && e'.contents == e.contents && id in s
    requires forall i :: Pins(e', i) == Pins(e, i) + if i == id then 1 else 0
    ensures Balanced(s[id := s[id].(pins := s[id].pins + 1)], e')
  {
    forall i | Pins(e', i) > 0 && i != id ensures i in s {
      assert Pins(e, i) > 0;
    }
  }

  method PerformDrop(pool: BufferPool, guards: seq<PageGuard>, ghost e: Session, k: nat)
    requires Ok(pool, guards, e) && k < |guards|
    modifies guards, pool`unreported, pool.replacer, pool.pages
    ensures Ok(pool, guards, Next(pool.poolSize, e, Drop(k))) && pool.replacer.log == old(pool.replacer.log)
  {
    hide BufferPool.Valid, BufferPool.View, Balanced, Held;
    ghost var e' := Next(pool.poolSize, e, Drop(k));
    var g := guards[k];
    assert Stands(g, e.slots[k]);
    if g.page.Some? {
      HeldBy(pool.View(), e, k, g.page.value.id);
    }
    forall id ensures Pins(e', id) == Pins(e, id) - One(e.slots[k], id) {
      HeldReplace(e.slots, k, e'.slots[k], id);
    }
    ReleasedBalanced(pool.View(), e, e', g.page, g.Reports());
    g.Drop();
    forall j | 0 <= j < |guards| ensures Stands(guards[j], e'.slots[j]) {
      assert old(Stands(guards[j], e.slots[j]));
    }
    forall id | id in pool.View() && pool.View()[id].unreported
      ensures exists j :: 0 <= j < |guards| && guards[j].Covers(id)
    {
      assert id in old(pool.View()) && old(pool.View())[id].unreported;
      var j :| 0 <= j < |guards| && old(guards[j].Covers(id));
      assert guards[j].Covers(id);
    }
  }

  lemma MovedPins(e: Session, e': Session, k: nat, j: nat)
    requires k < |e.slots| && j < |e.slots| && k != j && e'.raw == e.raw
    requires e'.slots == e.slots[k := e.slots[j]][j := Slot(e.slots[j].kind, None)]
    ensures forall id :: Pins(e', id) == Pins(e, id) - One(e.slots[k], id)
  {
    forall id ensures Pins(e', id) == Pins(e, id) - One(e.slots[k], id) {
      HeldReplace(e.slots, k, e.slots[j], id);
      HeldReplace(e.slots[k := e.slots[j]], j, e'.slots[j], id);
    }
  }

  method PerformMove(pool: BufferPool, guards: seq<PageGuard>, ghost e: Session, k: nat, j: nat)
    requires Ok(pool, guards, e) && k < |guards| && j < |guards| && guards[k].kind == guards[j].kind
    modifies guards, pool`unreported, pool.replacer, pool.pages
    ensures Ok(pool, guards, Next(pool.poolSize, e, Move(k, j))) && pool.replacer.log == old(pool.replacer.log)
  {
    hide BufferPool.Valid, BufferPool.View, Balanced, Held;
    ghost var e' := Next(pool.poolSize, e, Move(k, j));
    var g := guards[k];
    assert Stands(g, e.slots[k]) && Stands(guards[j], e.slots[j]);
    if g.page.Some? {
      HeldBy(pool.View(), e, k, g.page.value.id);
    }
    if k != j {
      MovedPins(e, e', k, j);
      ReleasedBalanced(pool.View(), e, e', g.page, g.Reports());
    }
    g.Assign(guards[j]);
    forall i | 0 <= i < |guards| ensures Stands(guards[i], e'.slots[i]) {
      assert old(Stands(guards[i], e.slots[i]));
    }
    forall id | id in pool.View() && pool.View()[id].unreported
      ensures exists i :: 0 <= i < |guards| && guards[i].Covers(id)
    {
      assert id in old(pool.View()) && old(pool.View())[id].unreported;
      var i :| 0 <= i < |guards| && old(guards[i].Covers(id));
      assert guards[if i == j then k else i].Covers(id);
    }
  }

  method PerformMoveOut(pool: BufferPool, guards: seq<PageGuard>, ghost e: Session, j: nat) returns (guards': seq<PageGuard>)
    requires Ok(pool, guards, e) && j < |guards|
    modifies guards
    ensures Ok(pool, guards', Next(pool.poolSize, e, MoveOut(j)))
    ensures |guards'| == |guards| + 1 && guards'[..|guards|] == guards && fresh(guards'[|guards|])
  {
    hide BufferPool.Valid, BufferPool.View, Balanced, Held;
    ghost var e' := Next(pool.poolSize, e, MoveOut(j));
    assert Stands(guards[j], e.slots[j]);
    var g := new PageGuard.Moved(guards[j]);
    guards' := guards + [g];
    forall id ensures Pins(e', id) == Pins(e, id) {
      HeldReplace(e.slots, j, e'.slots[j], id);
      HeldAppend(e.slots[j := e'.slots[j]], e.slots[j], id);
    }
    SameBalanced(pool.View(), e, e');
    forall i | 0 <= i < |guards'| ensures Stands(guards'[i], e'.slots[i]) {
      assert i < |guards| ==> old(Stands(guards[i], e.slots[i]));
    }
    forall id | id in pool.View() && pool.View()[id].unreported
      ensures exists i :: 0 <= i < |guards'| && guards'[i].Covers(id)
    {
      var i :| 0 <= i < |guards| && old(guards[i].Covers(id));
      assert guards'[if i == j then |guards| else i].Covers(id);
    }
  }

  lemma SameBalanced(s: Pool, e: Session, e': Session)
    requires Balanced(s, e) && e'.contents == e.contents && forall id :: Pins(e', id) == Pins(e, id)
    ensures Balanced(s, e')
  {
    forall id | Pins(e', id) > 0 ensures id in s {
      assert Pins(e, id) > 0;
    }
  }

  // ---------- Taking pins ----------

  /** The guards' pages stay where they are while a frame is found for another page. */
  ghost predicate Standing(guards: seq<PageGuard>, slots: seq<Slot>)
    reads guards, set g | g in guards :: g.pool
  {
    |guards| == |slots| && forall k :: 0 <= k < |guards| ==> Stands(guards[k], slots[k])
  }

  /** In a disciplined pool only the page asked for changes. */
  lemma ChangedOnly(s: Pool, s': Pool, id: PageId)
    requires Disciplined(s) && Elsewhere(s, s', id) && id in s'
    ensures s' == s[id := s'[id]]
  {
    DisciplinedElsewhere(s, s', id);
    assert s'.Keys == s'.Keys - {id} + {id} && s.Keys + {id} == s.Keys - {id} + {id};
    assert s'.Keys == s[id := s'[id]].Keys;
  }

  /** Pins page `id` once more; evictions do not show. */
  method TakePage(pool: BufferPool, guards: seq<PageGuard>, ghost e: Session, id: PageId) returns (page: Option<Handle>)
    requires Ok(pool, guards, e) && pool.replacer.currentTimestamp < SIZE_MAX && 0 <= id < pool.disk.nextPageId
    modifies pool, pool.disk`blocks, pool.disk`ops, pool.replacer, pool.pages
    ensures pool.Valid() && |pool.replacer.log| <= |old(pool.replacer.log)| + 1
    ensures page.Some? <==> Room(pool.poolSize, e, id)
    ensures page.Some? ==> page.value.id == id && pool.Holds(page.value)
    ensures var s := old(pool.View());
            id in s && pool.View() == if page.None? then s else s[id := s[id].(pins := s[id].pins + 1)]
    ensures Standing(guards, e.slots)
  {
    hide BufferPool.Valid, BufferPool.View, BufferPool.AllPinned, Balanced, Held, Covered, Elsewhere, Disciplined;
    OkShows(pool, guards, e);
    pool.FullMeansAllPinned();
    ghost var s, table := pool.View(), pool.pageTable;
    page := pool.FetchPage(id);
    if page.Some? {
      ChangedOnly(s, pool.View(), id);
    }
    forall k | 0 <= k < |guards| ensures Stands(guards[k], e.slots[k]) {
      assert old(Stands(guards[k], e.slots[k]));
      if guards[k].page.Some? {
        HeldBy(s, e, k, guards[k].page.value.id);
      }
    }
  }

  method TakeNewPage(pool: BufferPool, guards: seq<PageGuard>, ghost e: Session) returns (page: Option<Handle>)
    requires Ok(pool, guards, e) && pool.replacer.currentTimestamp < SIZE_MAX
    modifies pool, pool.disk, pool.replacer, pool.pages
    ensures pool.Valid() && |pool.replacer.log| <= |old(pool.replacer.log)| + 1
    ensures page.Some? <==> |Busy(e)| < pool.poolSize
    ensures page.Some? ==> page.value.id == |e.contents| && page.value.id !in e.contents && pool.Holds(page.value)
    ensures var s := old(pool.View());
            pool.View() == if page.None? then s else s[|e.contents| := PageState(ZEROS, 1, false)]
    ensures Standing(guards, e.slots)
  {
    hide BufferPool.Valid, BufferPool.View, BufferPool.AllPinned, Balanced, Held, Covered, Elsewhere, Disciplined;
    OkShows(pool, guards, e);
    pool.FullMeansAllPinned();
    ghost var s, table := pool.View(), pool.pageTable;
    page := pool.NewPage();
    if page.Some? {
      ChangedOnly(s, pool.View(), page.value.id);
    }
    forall k | 0 <= k < |guards| ensures Stands(guards[k], e.slots[k]) {
      assert old(Stands(guards[k], e.slots[k]));
      if guards[k].page.Some? {
        HeldBy(s, e, k, guards[k].page.value.id);
      }
    }
  }

  /** A guard for the page just taken. */
  lemma AppendedPins(e: Session, slot: Slot, id: PageId)
    ensures Pins(e.(slots := e.slots + [slot]), id) == Pins(e, id) + One(slot, id)
  {
    HeldAppend(e.slots, slot, id);
  }

  method PerformFetch(pool: BufferPool, guards: seq<PageGuard>, ghost e: Session, kind: Kind, id: PageId)
    returns (guards': seq<PageGuard>)
    requires Ok(pool, guards, e) && pool.replacer.currentTimestamp < SIZE_MAX && 0 <= id < pool.disk.nextPageId
    modifies pool, pool.disk`blocks, pool.disk`ops, pool.replacer, pool.pages
    ensures Ok(pool, guards', Next(pool.poolSize, e, Fetch(kind, id)))
    ensures |pool.replacer.log| <= |old(pool.replacer.log)| + 1
    ensures |guards'| == |guards| + 1 && guards'[..|guards|] == guards && fresh(guards'[|guards|])
  {
    hide BufferPool.Valid, BufferPool.View, Balanced, Held, Pins, Covered, Room;
    ghost var s, e' := pool.View(), Next(pool.poolSize, e, Fetch(kind, id));
    OkShows(pool, guards, e);
    var page := TakePage(pool, guards, e, id);
    var g := new PageGuard(kind, pool, page);
    guards' := guards + [g];
    forall i ensures Pins(e', i) == Pins(e, i) + if page.Some? && i == id then 1 else 0 {
      AppendedPins(e, e'.slots[|guards|], i);
    }
    if page.Some? {
      TakenBalanced(s, e, e', id);
    } else {
      SameBalanced(s, e, e');
    }
    StillCovered(s, pool.View(), guards, g);
  }

  lemma StillCovered(s: Pool, s': Pool, guards: seq<PageGuard>, g: PageGuard)
    requires Covered(s, guards)
    requires forall id :: id in s' && s'[id].unreported ==> id in s && s[id].unreported
    ensures Covered(s', guards + [g])
  {
    forall id | id in s' && s'[id].unreported ensures exists k :: 0 <= k < |guards + [g]| && (guards + [g])[k].Covers(id) {
      var k :| 0 <= k < |guards| && guards[k].Covers(id);
      assert (guards + [g])[k].Covers(id);
    }
  }

  method PerformNew(pool: BufferPool, guards: seq<PageGuard>, ghost e: Session, kind: Kind)
    returns (guards': seq<PageGuard>)
    requires Ok(pool, guards, e) && pool.replacer.currentTimestamp < SIZE_MAX
    modifies pool, pool.disk, pool.replacer, pool.pages
    ensures Ok(pool, guards', Next(pool.poolSize, e, New(kind)))
    ensures |pool.replacer.log| <= |old(pool.replacer.log)| + 1
    ensures |guards'| == |guards| + 1 && guards'[..|guards|] == guards && fresh(guards'[|guards|])
  {
    hide BufferPool.Valid, BufferPool.View, Balanced, Held, Pins, Covered;
    ghost var s, e' := pool.View(), Next(pool.poolSize, e, New(kind));
    OkShows(pool, guards, e);
    var page := TakeNewPage(pool, guards, e);
    var g := new PageGuard(kind, pool, page);
    guards' := guards + [g];
    forall i ensures Pins(e', i) == Pins(e, i) + if page.Some? && i == |e.contents| then 1 else 0 {
      AppendedPins(e, e'.slots[|guards|], i);
      SameCounts(e.(slots := e'.slots), e');
    }
    if page.Some? {
      NewBalanced(s, e, e');
    } else {
      SameBalanced(s, e, e');
    }
    StillCovered(s, pool.View(), guards, g);
  }

  lemma NewBalanced(s: Pool, e: Session, e': Session)
    requires Balanced(s, e) && |e.contents| !in s && e'.contents == e.contents[|e.contents| := ZEROS]
    requires forall i :: Pins(e', i) == Pins(e, i) + if i == |e.contents| then 1 else 0
    ensures Balanced(s[|e.contents| := PageState(ZEROS, 1, false)], e')
  {
    var id := |e.contents|;
    assert Pins(e, id) == 0;
    forall i | Pins(e', i) > 0 && i != id ensures i in s {
      assert Pins(e, i) > 0;
    }
  }

  method PerformOverwrite(pool: BufferPool, guards: seq<PageGuard>, ghost e: Session, k: nat, data: PageData)
    requires Ok(pool, guards, e) && k < |guards| && guards[k].page.Some? && guards[k].kind != Read
    modifies guards, pool`unreported, pool.pages
    ensures Ok(pool, guards, Next(pool.poolSize, e, Overwrite(k, data)))
  {
    hide BufferPool.Valid, BufferPool.View, Balanced, Held;
    ghost var e' := Next(pool.poolSize, e, Overwrite(k, data));
    var g := guards[k];
    assert Stands(g, e.slots[k]);
    ghost var id := g.page.value.id;
    g.Overwrite(data);
    WrittenBalanced(old(pool.View()), e, e', id, data);
    forall j | 0 <= j < |guards| ensures Stands(guards[j], e'.slots[j]) {
      assert old(Stands(guards[j], e.slots[j]));
    }
    forall i | i in pool.View() && pool.View()[i].unreported
      ensures exists j :: 0 <= j < |guards| && guards[j].Covers(i)
    {
      if i == id {
        assert guards[k].Covers(id);
      } else {
        assert i in old(pool.View()) && old(pool.View())[i].unreported;
        var j :| 0 <= j < |guards| && old(guards[j].Covers(i));
        assert guards[j].Covers(i);
      }
    }
  }

  lemma WrittenBalanced(s: Pool, e: Session, e': Session, id: PageId, data: PageData)
    requires Balanced(s, e) && id in s && e' == e.(contents := e.contents[id := data])
    ensures Balanced(s[id := s[id].(data := data, unreported := true)], e')
  {
    SameCounts(e, e');
  }

  lemma SameCounts(e: Session, e': Session)
    requires e'.slots == e.slots && e'.raw == e.raw
    ensures forall id :: Pins(e', id) == Pins(e, id)
  {
  }

  /** Reads through `GetData`. */
  method PerformLook(pool: BufferPool, guards: seq<PageGuard>, ghost e: Session, k: nat) returns (seen: Option<PageData>)
    requires Ok(pool, guards, e)
    ensures seen == Seen(e, Look(k))
  {
    if k < |guards| {
      assert Stands(guards[k], e.slots[k]);
      if guards[k].page.Some? {
        HeldBy(pool.View(), e, k, guards[k].page.value.id);
        assert pool.EntryOk(guards[k].page.value.id);
        return Some(pool.pages[guards[k].page.value.frame].data);
      }
    }
    return None;
  }

  /** Fetches a page and keeps its page pointer bare. */
  method PerformPin(pool: BufferPool, guards: seq<PageGuard>, raw: multiset<PageId>, ghost e: Session, id: PageId)
    returns (raw': multiset<PageId>)
    requires Ok(pool, guards, e) && e.raw == raw
    requires pool.replacer.currentTimestamp < SIZE_MAX && 0 <= id < pool.disk.nextPageId
    modifies pool, pool.disk`blocks, pool.disk`ops, pool.replacer, pool.pages
    ensures Ok(pool, guards, Next(pool.poolSize, e, Pin(id))) && raw' == Next(pool.poolSize, e, Pin(id)).raw
    ensures |pool.replacer.log| <= |old(pool.replacer.log)| + 1
  {
    hide BufferPool.Valid, BufferPool.View, Balanced, Covered, Room;
    ghost var s, e' := pool.View(), Next(pool.poolSize, e, Pin(id));
    OkShows(pool, guards, e);
    var page := TakePage(pool, guards, e, id);
    raw' := if page.Some? then raw + multiset{id} else raw;
    if page.Some? {
      TakenBalanced(s, e, e', id);
    } else {
      SameBalanced(s, e, e');
    }
    CoveredStays(s, pool.View(), guards);
  }

  lemma CoveredStays(s: Pool, s': Pool, guards: seq<PageGuard>)
    requires Covered(s, guards)
    requires forall id :: id in s' && s'[id].unreported ==> id in s && s[id].unreported
    ensures Covered(s', guards)
  {
  }

  /** Gives back a pin taken without a guard. */
  method PerformUnpin(pool: BufferPool, guards: seq<PageGuard>, raw: multiset<PageId>, ghost e: Session, id: PageId, isDirty: bool)
    returns (raw': multiset<PageId>)
    requires Ok(pool, guards, e) && e.raw == raw
    modifies pool`unreported, pool.replacer, pool.pages
    ensures Ok(pool, guards, Next(pool.poolSize, e, Unpin(id, isDirty))) && raw' == Next(pool.poolSize, e, Unpin(id, isDirty)).raw
    ensures pool.replacer.log == old(pool.replacer.log)
  {
    hide BufferPool.OthersOk, BufferPool.View, BufferPool.Cached, BufferPool.DirtyAt, BufferPool.Stored, Covered, Held, Stands;
    ghost var s, e' := pool.View(), Next(pool.poolSize, e, Unpin(id, isDirty));
    raw' := raw - multiset{id};
    if id !in raw {
      assert raw' == raw;
      return;
    }
    assert Pins(e, id) > 0;
    var ok := pool.UnpinPage(id, isDirty);
    ReleasedBalanced(s, e, e', Some(Handle(id, 0)), isDirty);
    CoveredStays(s, pool.View(), guards);
    forall k | 0 <= k < |guards| ensures Stands(guards[k], e'.slots[k]) {
      assert old(Stands(guards[k], e.slots[k]));
    }
  }

  // ---------- Runs ----------

  /** One operation; a guard operation that names no guard, or two of different classes, is not made. */
  method Perform(pool: BufferPool, guards: seq<PageGuard>, raw: multiset<PageId>, ghost e: Session, op: Op)
    returns (seen: Option<PageData>, guards': seq<PageGuard>, raw': multiset<PageId>)
    requires Ok(pool, guards, e) && e.raw == raw && pool.replacer.currentTimestamp < SIZE_MAX
    modifies guards, pool, pool.disk, pool.replacer, pool.pages
    ensures Ok(pool, guards', Next(pool.poolSize, e, op)) && raw' == Next(pool.poolSize, e, op).raw
    ensures seen == Seen(e, op)
    ensures |pool.replacer.log| <= |old(pool.replacer.log)| + 1
    ensures forall k :: 0 <= k < |guards'| ==> guards'[k] in guards || fresh(guards'[k])
  {
    hide BufferPool.Valid, BufferPool.View, Balanced, Covered, Held, Pins, Room;
    OkShows(pool, guards, e);
    seen, guards', raw' := None, guards, raw;
    match op
    case New(kind) =>
      guards' := PerformNew(pool, guards, e, kind);
      Appended(guards, guards');
    case Fetch(kind, id) =>
      if 0 <= id < pool.disk.nextPageId {
        guards' := PerformFetch(pool, guards, e, kind, id);
        Appended(guards, guards');
      }
    case Look(k) =>
      seen := PerformLook(pool, guards, e, k);
    case Overwrite(k, data) =>
      if k < |guards| {
        assert Stands(guards[k], e.slots[k]);
        if guards[k].page.Some? && guards[k].kind != Read {
          PerformOverwrite(pool, guards, e, k, data);
        }
      }
    case Move(k, j) =>
      if k < |guards| && j < |guards| {
        assert Stands(guards[k], e.slots[k]) && Stands(guards[j], e.slots[j]);
        if guards[k].kind == guards[j].kind {
          PerformMove(pool, guards, e, k, j);
        }
      }
    case MoveOut(j) =>
      if j < |guards| {
        guards' := PerformMoveOut(pool, guards, e, j);
        Appended(guards, guards');
      }
    case Drop(k) =>
      if k < |guards| {
        PerformDrop(pool, guards, e, k);
      }
    case Pin(id) =>
      if 0 <= id < pool.disk.nextPageId {
        raw' := PerformPin(pool, guards, raw, e, id);
      }
    case Unpin(id, isDirty) =>
      raw' := PerformUnpin(pool, guards, raw, e, id, isDirty);
  }

  lemma Appended(guards: seq<PageGuard>, guards': seq<PageGuard>)
    requires |guards'| == |guards| + 1 && guards'[..|guards|] == guards
    ensures guards' == guards + [guards'[|guards|]]
  {
  }

  /** The pool shows session `e`: the same bytes, and a pin for every holder; nothing can be lost. */
  ghost predicate Shows(s: Pool, e: Session) {
    Balanced(s, e) && Disciplined(s)
  }

  /** The session after a run from nothing. */
  function After(n: nat, ops: seq<Op>): Session {
    if ops == [] then Session(map[], [], multiset{}) else Next(n, After(n, ops[..|ops| - 1]), ops[|ops| - 1])
  }

  lemma AfterNext(n: nat, ops: seq<Op>, op: Op)
    ensures After(n, ops + [op]) == Next(n, After(n, ops), op)
  {
    assert (ops + [op])[..|ops|] == ops;
  }

  /** Any run of guards is a run over a plain map of pages, with exactly one pin for each holder. */
  method Run(poolSize: nat, replacerK: nat, ops: seq<Op>) returns (seen: seq<Option<PageData>>, ghost views: seq<Pool>)
    requires 0 < replacerK && |ops| < SIZE_MAX
    ensures |seen| == |ops| && forall i :: 0 <= i < |ops| ==> seen[i] == Seen(After(poolSize, ops[..i]), ops[i])
    ensures |views| == |ops| + 1 && forall i :: 0 <= i <= |ops| ==> Shows(views[i], After(poolSize, ops[..i]))
  {
    hide BufferPool.Valid, BufferPool.View, Ok, Next, Seen, Shows, After;
    var disk := new DiskManager();
    var pool := new BufferPool(poolSize, disk, replacerK);
    var guards: seq<PageGuard>, raw: multiset<PageId> := [], multiset{};
    seen, views := [], [map[]];
    StartsOk(pool);
    assert ops[..0] == [];
    for n := 0 to |ops|
      invariant fresh(pool) && fresh(pool.disk) && fresh(pool.replacer) && fresh(pool.pages) && pool.poolSize == poolSize
      invariant forall k :: 0 <= k < |guards| ==> fresh(guards[k])
      invariant |seen| == n && |views| == n + 1 && |pool.replacer.log| <= n
      invariant Ok(pool, guards, After(poolSize, ops[..n])) && After(poolSize, ops[..n]).raw == raw
      invariant forall i :: 0 <= i < n ==> seen[i] == Seen(After(poolSize, ops[..i]), ops[i])
      invariant forall i :: 0 <= i <= n ==> Shows(views[i], After(poolSize, ops[..i]))
    {
      ghost var e := After(poolSize, ops[..n]);
      OkMeans(pool, guards, e);
      AfterNext(poolSize, ops[..n], ops[n]);
      assert ops[..n] + [ops[n]] == ops[..n + 1];
      var bytes;
      bytes, guards, raw := Perform(pool, guards, raw, e, ops[n]);
      OkMeans(pool, guards, After(poolSize, ops[..n + 1]));
      seen, views := seen + [bytes], views + [pool.View()];
    }
  }

  lemma StartsOk(pool: BufferPool)
    requires pool.Valid() && pool.disk.nextPageId == 0 && pool.unreported == {}
    ensures Ok(pool, [], After(pool.poolSize, [])) && Shows(map[], After(pool.poolSize, []))
    ensures After(pool.poolSize, []).raw == multiset{}
  {
    assert pool.View() == map[];
  }

  lemma OkMeans(pool: BufferPool, guards: seq<PageGuard>, e: Session)
    requires Ok(pool, guards, e)
    ensures Shows(pool.View(), e) && pool.replacer.currentTimestamp == |pool.replacer.log|
  {
    OkShows(pool, guards, e);
  }

  /** Once every guard is dropped, and the bare pins are given back, no page is pinned. */
  lemma {:induction false} NothingHeld(slots: seq<Slot>, id: PageId)
    requires forall k :: 0 <= k < |slots| ==> slots[k].page.None?
    ensures Held(slots, id) == 0
    decreases |slots|
  {
    if slots != [] {
      NothingHeld(slots[..|slots| - 1], id);
    }
  }

  /** With all guards dropped every write has been reported, and any pool with a frame has room. */
  lemma AllDropped(s: Pool, e: Session)
    requires Shows(s, e) && e.raw == multiset{} && forall k :: 0 <= k < |e.slots| ==> e.slots[k].page.None?
    ensures forall id :: id in s ==> s[id] == PageState(e.contents[id], 0, false)
  {
    forall id | id in s ensures s[id] == PageState(e.contents[id], 0, false) {
      NothingHeld(e.slots, id);
    }
  }
}
