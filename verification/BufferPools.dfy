/**
 The buffer pool: a fixed array of frames that caches pages of the disk, writes a dirty page
 back before its frame is reused, and never reuses the frame of a pinned page.
 */
module BufferPools {
  import opened Types
  import opened DiskManagers
  import opened LruKReplacers
  import opened PoolStates
  import opened PoolPolicies

  datatype Frame = Frame(data: PageData, pageId: PageId, pinCount: nat, isDirty: bool)

  /** What the source returns as a page pointer: the page's id and the frame that holds it. */
  datatype Handle = Handle(id: PageId, frame: FrameId)

  class BufferPool {
    const poolSize: nat
    const disk: DiskManager
    const replacer: LruKReplacer
    const pages: array<Frame>
    var pageTable: map<PageId, FrameId>
    var freeList: seq<FrameId>
    ghost var unreported: set<PageId>     // pages written since the last report of a write

    /** Frame `f` is free, or it holds the page that the page table says it does. */
    ghost predicate FrameOk(f: FrameId)
      reads this, disk`blocks, replacer, pages
      requires 0 <= f < pages.Length
    {
      var p := pages[f];
      if p.pageId == INVALID_PAGE_ID then
        f in freeList && f !in replacer.traces && p.pinCount == 0
      else
        && f !in freeList
        && p.pageId in pageTable && pageTable[p.pageId] == f
        && f in replacer.traces && (f in replacer.Evictable() <==> p.pinCount == 0)
        && (p.isDirty || p.pageId in unreported || disk.Block(p.pageId) == p.data)
    }

    ghost predicate EntryOk(id: PageId)
      reads this, disk`nextPageId, pages
      requires id in pageTable
    {
      && 0 <= id < disk.nextPageId
      && 0 <= pageTable[id] < pages.Length
      && pages[pageTable[id]].pageId == id
    }

    /** All frames but those in `loose` are in order. */
    ghost predicate OthersOk(loose: set<FrameId>)
      reads this, disk, replacer, pages
    {
      && pages.Length == poolSize == replacer.maxFrames
      && disk.Valid() && replacer.Valid()
      && (forall f {:trigger FrameOk(f)} :: 0 <= f < pages.Length && f !in loose ==> FrameOk(f))
      && (forall id {:trigger EntryOk(id)} :: id in pageTable ==> EntryOk(id))
      && (forall i :: 0 <= i < |freeList| ==> 0 <= freeList[i] < pages.Length)
      && (forall i, j :: 0 <= i < j < |freeList| ==> freeList[i] != freeList[j])
      && unreported <= pageTable.Keys
    }

    /** As `OthersOk`, with the frames `taken` neither free nor replaceable. */
    ghost predicate FramesOk(taken: set<FrameId>)
      reads this, disk, replacer, pages
    {
      OthersOk(taken) && forall f :: f in taken ==> 0 <= f < pages.Length && f !in freeList && f !in replacer.traces
    }

    /** As `FramesOk`, with no page in the frames `taken`. */
    ghost predicate ValidBut(taken: set<FrameId>)
      reads this, disk, replacer, pages
    {
      FramesOk(taken) && forall id :: id in pageTable ==> pageTable[id] !in taken
    }

    ghost predicate Valid()
      reads this, disk, replacer, pages
    {
      ValidBut({})
    }

    /** A frame holds page `id` and is marked dirty: an eviction will write it back. */
    ghost predicate DirtyAt(id: PageId)
      reads this, pages
    {
      id in pageTable && 0 <= pageTable[id] < pages.Length && pages[pageTable[id]].isDirty
    }

    /** What page `id` reads as after an eviction. */
    ghost function Kept(id: PageId): PageData
      reads this, disk`blocks, pages
    {
      if DirtyAt(id) then pages[pageTable[id]].data else disk.Block(id)
    }

    /** The pages that the disk has, or will have when they are evicted. */
    ghost function Stored(): set<PageId>
      reads this, disk`blocks, pages
    {
      disk.blocks.Keys + set id | id in pageTable && DirtyAt(id)
    }

    // ---------- What clients see ----------

    ghost function StateOf(id: PageId): PageState
      reads this, disk`blocks, pages
    {
      if id in pageTable && 0 <= pageTable[id] < pages.Length then
        PageState(pages[pageTable[id]].data, pages[pageTable[id]].pinCount, id in unreported)
      else
        PageState(disk.Block(id), 0, false)
    }

    ghost function View(): Pool
      reads this, disk`blocks, disk`nextPageId, pages
    {
      map id | 0 <= id < disk.nextPageId :: StateOf(id)
    }

    // ---------- What the policy looks at ----------

    ghost function Occupants(): (r: seq<Occupant>)
      reads pages
      ensures |r| == pages.Length && forall f :: 0 <= f < pages.Length ==> r[f] == Occupant(pages[f].pageId, pages[f].pinCount, pages[f].isDirty)
    {
      seq(pages.Length, f requires 0 <= f < pages.Length reads pages => Occupant(pages[f].pageId, pages[f].pinCount, pages[f].isDirty))
    }

    ghost function Cached(): Cache
      reads this`freeList, replacer`log, replacer`traces, pages
    {
      Cache(|replacer.log|, freeList, Residents(replacer.traces, Occupants()))
    }

    /** The policy knows the page table. */
    lemma CachedIsTable()
      requires Valid()
      ensures CacheOk(Cached()) && Follows(Cached(), pageTable)
    {
      TracesNotEmpty(replacer.traces, replacer.log);
      forall f | f in Cached().residents
        ensures var id := Cached().residents[f].id; id in pageTable && pageTable[id] == f && 0 < |Cached().residents[f].times|
      {
        assert FrameOk(f);
      }
      forall id | id in pageTable ensures At(Cached(), id, pageTable[id]) {
        assert EntryOk(id) && FrameOk(pageTable[id]);
      }
      forall i | 0 <= i < |freeList| ensures freeList[i] !in replacer.traces {
        assert FrameOk(freeList[i]);
      }
    }

    /** Changes that the policy does not look at. */
    twostate lemma NothingShown()
      requires freeList == old(freeList) && replacer.log == old(replacer.log) && replacer.traces == old(replacer.traces)
      requires forall f :: 0 <= f < pages.Length ==> pages[f].(data := old(pages[f]).data) == old(pages[f])
      ensures Cached() == old(Cached())
    {
      assert Occupants() == old(Occupants());
    }

    /** A frame with another pin count or dirty mark. */
    twostate lemma MarksShown(f: FrameId)
      requires 0 <= f < pages.Length && f in replacer.traces
      requires freeList == old(freeList) && replacer.log == old(replacer.log) && replacer.traces == old(replacer.traces)
      requires pages[f].pageId == old(pages[f]).pageId
      requires forall g :: 0 <= g < pages.Length && g != f ==> pages[g] == old(pages[g])
      ensures f in old(Cached()).residents
      ensures var r := old(Cached()).residents[f];
              && r.id == pages[f].pageId && r.pins == old(pages[f]).pinCount && r.dirty == old(pages[f]).isDirty
              && Cached() == old(Cached()).(residents := old(Cached()).residents[f := r.(pins := pages[f].pinCount, dirty := pages[f].isDirty)])
    {
      ResidentChanged(replacer.traces, old(Occupants()), f, Occupants()[f]);
      assert Occupants() == old(Occupants())[f := Occupants()[f]];
    }

    /** An access of frame `f`. */
    twostate lemma AccessShown(f: FrameId)
      requires 0 <= f < pages.Length && freeList == old(freeList) && unchanged(pages)
      requires replacer.log == old(replacer.log) + [f] && replacer.traces == Accessed(old(replacer.traces), f, |old(replacer.log)|)
      ensures var c := old(Cached());
              var times := if f in c.residents then c.residents[f].times + [c.time] else [c.time];
              Cached() == Cache(c.time + 1, c.free, c.residents[f := Resident(pages[f].pageId, times, pages[f].pinCount, pages[f].isDirty)])
    {
      ResidentAccessed(old(replacer.traces), Occupants(), f, |old(replacer.log)|);
    }

    /** A frame that is not in use is filled or emptied. */
    twostate lemma UnusedShown(f: FrameId)
      requires 0 <= f < pages.Length && f !in replacer.traces
      requires replacer.log == old(replacer.log) && replacer.traces == old(replacer.traces)
      requires forall g :: 0 <= g < pages.Length && g != f ==> pages[g] == old(pages[g])
      ensures old(Cached()).free == old(freeList) && f !in Cached().residents
      ensures Cached() == Cache(old(Cached()).time, freeList, old(Cached()).residents)
    {
      ResidentsElsewhere(replacer.traces, old(Occupants()), f, Occupants()[f]);
      assert Occupants() == old(Occupants())[f := Occupants()[f]];
    }

    /** A frame is taken out of use. */
    twostate lemma RemovalShown(f: FrameId)
      requires freeList == old(freeList) && replacer.log == old(replacer.log) && replacer.traces == old(replacer.traces) - {f}
      requires unchanged(pages)
      ensures Cached() == old(Cached()).(residents := old(Cached()).residents - {f})
    {
      ResidentsWithout(old(replacer.traces), Occupants(), f);
    }

    constructor (poolSize: nat, disk: DiskManager, replacerK: nat)
      requires disk.Valid() && 0 < replacerK
      ensures Valid() && fresh(replacer) && fresh(pages) && this.disk == disk && this.poolSize == poolSize
      ensures replacer.log == [] && pageTable == map[] && unreported == {}
      ensures replacer.k == replacerK && Cached() == EmptyCache(poolSize)
    {
      this.poolSize, this.disk := poolSize, disk;
      replacer := new LruKReplacer(poolSize, replacerK);
      pages := new Frame[poolSize](_ => Frame(ZEROS, INVALID_PAGE_ID, 0, false));
      pageTable, freeList, unreported := map[], seq(poolSize, i => i), {};
      new;
      forall f | 0 <= f < pages.Length ensures FrameOk(f) {
        assert freeList[f] == f;
      }
    }

    // ---------- Finding a frame ----------

    /** Takes a frame off the free list, or evicts a page from one; `None` when all are pinned. */
    method TakeFrame() returns (frame: Option<FrameId>)
      requires Valid()
      modifies this, disk`blocks, disk`ops, replacer
      ensures disk.nextPageId == old(disk.nextPageId) && replacer.log == old(replacer.log)
      ensures frame.None? <==> AllPinned()
      ensures frame.None? ==> Valid() && View() == old(View())
      ensures frame.Some? ==> ValidBut({frame.value}) && Elsewhere(old(View()), View(), INVALID_PAGE_ID)
      ensures frame.Some? ==> MakesRoom(old(Cached()), replacer.k, frame.value)
      ensures Cached() == if frame.Some? then Vacated(old(Cached()), frame.value) else old(Cached())
      ensures unreported <= old(unreported) && pageTable.Keys <= old(pageTable).Keys
      ensures Anchored(old(View()), old(pageTable), pageTable)
      ensures forall i :: disk.Block(i) == if i in old(pageTable) && i !in pageTable then old(Kept(i)) else old(disk.Block(i))
      ensures old(Stored()) <= Stored() && (ShortRead(disk.ops) <==> old(ShortRead(disk.ops)))
    {
      if freeList != [] {
        var f := TakeFree();
        return Some(f);
      }
      frame := EvictFrame();
    }

    /** With no free frame left, the replacer may choose exactly the frames whose page is not pinned. */
    lemma EvictableUnpinned()
      requires Valid() && freeList == []
      ensures forall f :: 0 <= f < pages.Length ==> (f in replacer.Evictable() <==> pages[f].pinCount == 0)
      ensures forall f :: f in replacer.Evictable() ==> 0 <= f < pages.Length
    {
      forall f | 0 <= f < pages.Length ensures f in replacer.Evictable() <==> pages[f].pinCount == 0 {
        assert FrameOk(f);
      }
    }

    method EvictFrame() returns (frame: Option<FrameId>)
      requires Valid() && freeList == []
      modifies this`pageTable, this`unreported, disk`blocks, disk`ops, replacer
      ensures disk.nextPageId == old(disk.nextPageId) && replacer.log == old(replacer.log)
      ensures frame.None? <==> AllPinned()
      ensures frame.None? ==> Valid() && View() == old(View())
      ensures frame.Some? ==> ValidBut({frame.value}) && Elsewhere(old(View()), View(), INVALID_PAGE_ID)
      ensures frame.Some? ==> MakesRoom(old(Cached()), replacer.k, frame.value)
      ensures Cached() == if frame.Some? then Vacated(old(Cached()), frame.value) else old(Cached())
      ensures unreported <= old(unreported) && pageTable.Keys <= old(pageTable).Keys
      ensures Anchored(old(View()), old(pageTable), pageTable)
      ensures forall i :: disk.Block(i) == if i in old(pageTable) && i !in pageTable then old(Kept(i)) else old(disk.Block(i))
      ensures old(Stored()) <= Stored() && (ShortRead(disk.ops) <==> old(ShortRead(disk.ops)))
      ensures forall i :: i in old(pageTable) && i !in pageTable ==>
                && i in View() && i in old(View())
                && (View()[i].data == old(View())[i].data <==> old(DirtyAt(i)) || old(View()[i].data == disk.Block(i)))
    {
      hide OthersOk, LruKReplacer.Valid, LruKReplacer.Evictable, View, StateOf;
      Uncached();
      KeptExactly();
      frame := ChooseFrame();
      if frame.Some? {
        WriteBack(frame.value);
        Uncached();
      }
    }

    /** An eviction keeps the bytes of a page exactly when it is marked dirty, or is as on disk. */
    lemma KeptExactly()
      requires Valid()
      ensures forall i :: i in pageTable ==>
                && i in View()
                && (Kept(i) == View()[i].data <==> DirtyAt(i) || View()[i].data == disk.Block(i))
    {
      hide LruKReplacer.Valid, LruKReplacer.Evictable, Cached;
      assert forall i :: i in pageTable ==> EntryOk(i);
    }

    /** Takes the frame of the victim off the replacer. */
    method ChooseFrame() returns (frame: Option<FrameId>)
      requires Valid() && freeList == []
      modifies replacer
      ensures replacer.log == old(replacer.log) && (frame.None? <==> AllPinned())
      ensures frame.None? ==> Valid()
      ensures frame.Some? ==> FramesOk({frame.value}) && IsNext(old(Cached()), replacer.k, frame.value)
      ensures Cached() == if frame.Some? then Vacated(old(Cached()), frame.value) else old(Cached())
      ensures frame.Some? ==> var p := pages[frame.value];
                              && HoldsPage(frame.value) && p.pinCount == 0
                              && (p.isDirty || p.pageId in unreported || disk.Block(p.pageId) == p.data)
    {
      EvictableUnpinned();
      VictimIsNext();
      ghost var candidates := replacer.Evictable();
      frame := replacer.Evict();
      if frame.Some? {
        RemovalShown(frame.value);
      }
      forall id | id in pageTable ensures EntryOk(id) {
        assert old(EntryOk(id));
      }
      if frame.None? {
        forall f | 0 <= f < pages.Length ensures pages[f].pinCount > 0 && FrameOk(f) {
          assert f !in candidates && old(FrameOk(f));
        }
        return;
      }
      var f := frame.value;
      assert f in candidates && old(FrameOk(f)) && old(EntryOk(pages[f].pageId));
      forall g | 0 <= g < pages.Length && g != f ensures FrameOk(g) {
        assert old(FrameOk(g));
      }
    }

    /** Gives up the page in the evicted frame `f`, first writing it back if it is marked dirty. */
    method WriteBack(f: FrameId)
      requires FramesOk({f}) && pages[f].pinCount == 0 && HoldsPage(f)
      requires pages[f].isDirty || pages[f].pageId in unreported || disk.Block(pages[f].pageId) == pages[f].data
      modifies this`pageTable, this`unreported, disk`blocks, disk`ops
      ensures ValidBut({f}) && Elsewhere(old(View()), View(), INVALID_PAGE_ID)
      ensures unreported <= old(unreported) && pageTable.Keys <= old(pageTable).Keys
      ensures Anchored(old(View()), old(pageTable), pageTable)
      ensures forall i :: disk.Block(i) == if i in old(pageTable) && i !in pageTable then old(Kept(i)) else old(disk.Block(i))
      ensures old(Stored()) <= Stored() && (ShortRead(disk.ops) <==> old(ShortRead(disk.ops)))
    {
      hide OthersOk;
      if pages[f].isDirty {
        WriteOut(f);
      }
      Vacate(f);
    }

    ghost predicate HoldsPage(f: FrameId)
      reads this, pages
      requires 0 <= f < pages.Length
    {
      pages[f].pageId in pageTable && pageTable[pages[f].pageId] == f
    }

    /** Writes the page in frame `f` to disk. */
    method WriteOut(f: FrameId)
      requires FramesOk({f}) && HoldsPage(f)
      modifies disk`blocks, disk`ops
      ensures FramesOk({f}) && View() == old(View()) && disk.Block(pages[f].pageId) == pages[f].data
      ensures forall i :: i != pages[f].pageId ==> disk.Block(i) == old(disk.Block(i))
      ensures disk.blocks.Keys == old(disk.blocks.Keys) + {pages[f].pageId} && (ShortRead(disk.ops) <==> old(ShortRead(disk.ops)))
    {
      hide LruKReplacer.Valid, LruKReplacer.Evictable, DiskManager.Block;
      assert EntryOk(pages[f].pageId);
      disk.WritePage(pages[f].pageId, pages[f].data);
      forall g | 0 <= g < pages.Length && g != f ensures FrameOk(g) {
        assert old(FrameOk(g));
      }
      forall id | id in pageTable ensures EntryOk(id) {
        assert old(EntryOk(id));
      }
    }

    /** Takes the page in frame `f` out of the page table; without an unreported write its bytes are on disk. */
    method Vacate(f: FrameId)
      requires FramesOk({f}) && pages[f].pinCount == 0 && HoldsPage(f)
      requires pages[f].pageId in unreported || disk.Block(pages[f].pageId) == pages[f].data
      modifies this`pageTable, this`unreported
      ensures ValidBut({f}) && Elsewhere(old(View()), View(), INVALID_PAGE_ID)
      ensures unreported <= old(unreported) && pageTable.Keys <= old(pageTable).Keys
      ensures Anchored(old(View()), old(pageTable), pageTable)
      ensures pageTable == old(pageTable) - {pages[f].pageId}
      ensures old(Stored()) <= Stored() + {pages[f].pageId}
    {
      hide LruKReplacer.Valid, LruKReplacer.Evictable, Cached;
      var victim := pages[f].pageId;
      assert EntryOk(victim);
      pageTable, unreported := pageTable - {victim}, unreported - {victim};
      forall g | 0 <= g < pages.Length && g != f ensures FrameOk(g) {
        assert old(FrameOk(g));
      }
      forall id | id in pageTable ensures EntryOk(id) && pageTable[id] != f {
        assert old(EntryOk(id));
      }
    }

    /** The victim of the replacer is the frame that the policy puts first. */
    lemma VictimIsNext()
      requires Valid() && freeList == []
      ensures replacer.Evictable() <= replacer.traces.Keys && forall f :: f in replacer.traces ==> 0 < |replacer.traces[f]|
      ensures forall f :: IsVictim(replacer.traces, replacer.Evictable(), replacer.k, f) ==> IsNext(Cached(), replacer.k, f)
    {
      EvictableUnpinned();
      TracesNotEmpty(replacer.traces, replacer.log);
      hide GoesBefore;
      forall f | IsVictim(replacer.traces, replacer.Evictable(), replacer.k, f) ensures IsNext(Cached(), replacer.k, f) {
        forall g | g in Cached().residents && Cached().residents[g].pins == 0 ensures g in replacer.Evictable() {
        }
      }
    }

    /** Every frame is pinned exactly when as many pages are pinned as there are frames. */
    lemma FullMeansAllPinned()
      requires Valid()
      ensures AllPinned() <==> Full(View(), poolSize)
      ensures |Pinned(View())| <= poolSize
    {
      var ids := Pinned(View());
      assert forall i :: i in pageTable ==> EntryOk(i);
      var frames := set i | i in ids :: pageTable[i];
      SameCount(ids, frames, pageTable);
      AllFrames(frames, poolSize);
      forall f | 0 <= f < poolSize ensures f in frames <==> pages[f].pinCount > 0 {
        assert FrameOk(f);
        var id := pages[f].pageId;
        if pages[f].pinCount > 0 {
          assert id in ids && pageTable[id] == f;
        }
      }
    }

    predicate AllPinned()
      reads pages
    {
      forall f :: 0 <= f < pages.Length ==> pages[f].pinCount > 0
    }

    method TakeFree() returns (f: FrameId)
      requires Valid() && freeList != []
      modifies this`freeList
      ensures f == old(freeList)[0]
      ensures ValidBut({f}) && View() == old(View()) && !AllPinned() && Cached() == Vacated(old(Cached()), f)
    {
      f := freeList[0];
      assert FrameOk(f);
      freeList := freeList[1..];
      assert old(freeList) == [f] + freeList;
      UnusedShown(f);
      forall g | 0 <= g < pages.Length && g != f ensures FrameOk(g) {
        assert old(FrameOk(g));
      }
      forall id | id in pageTable ensures EntryOk(id) && pageTable[id] != f {
        assert old(EntryOk(id));
      }
    }

    lemma ClockIsLog(loose: set<FrameId>)
      requires OthersOk(loose)
      ensures replacer.currentTimestamp == |replacer.log|
    {
    }

    // ---------- Operations ----------

    /** A new page of zeros, pinned once; `None` when every frame holds a pinned page. */
    method NewPage() returns (page: Option<Handle>)
      requires Valid() && replacer.currentTimestamp < SIZE_MAX
      modifies this, disk, replacer, pages
      ensures Valid() && replacer.log == old(replacer.log) + if page.Some? then [page.value.frame] else []
      ensures page.None? <==> old(AllPinned())
      ensures page.None? ==> View() == old(View())
      ensures Anchored(old(View()), old(pageTable), pageTable)
      ensures page.Some? ==> page.value.id == old(disk.nextPageId) && Holds(page.value)
      ensures page.Some? ==> MakesRoom(old(Cached()), replacer.k, page.value.frame)
      ensures Cached() == if page.Some? then Entered(old(Cached()), page.value.frame, page.value.id) else old(Cached())
      ensures page.Some? ==> page.value.id !in old(View()) && Elsewhere(old(View()), View(), page.value.id)
      ensures page.Some? ==> page.value.id in View() && View()[page.value.id] == PageState(ZEROS, 1, false)
      ensures page.Some? ==> !DirtyAt(page.value.id) && disk.Block(page.value.id) == ZEROS && disk.nextPageId == page.value.id + 1
      ensures forall i :: disk.Block(i) == if i in old(pageTable) && i !in pageTable then old(Kept(i)) else old(disk.Block(i))
      ensures old(Stored()) <= Stored() && (ShortRead(disk.ops) <==> old(ShortRead(disk.ops)))
    {
      hide OthersOk, LruKReplacer.Valid, AllPinned, MakesRoom, StateOf, View, Stored, Cached, Kept, ShortRead, Entered, Vacated, Installed;
      Uncached();
      CachedShown();
      ClockIsLog({});
      var frame := TakeFrame();
      if frame.None? {
        return None;
      }
      Uncached();
      ClockIsLog({frame.value});
      ChangeAfterEvictions(old(View()), View(), disk.nextPageId, PageState(ZEROS, 1, false));
      AnchoredStill(old(View()), old(pageTable), pageTable, disk.nextPageId, frame.value);
      var id := AllocatePage(frame.value);
      Install(frame.value, id, ZEROS);
      VacatedThenInstalled(old(Cached()), frame.value, id);
      return Some(Handle(id, frame.value));
    }

    /** The page `id`, with one pin more; `None` when it is not cached and every frame holds a pinned page. */
    method FetchPage(id: PageId) returns (page: Option<Handle>)
      requires Valid() && replacer.currentTimestamp < SIZE_MAX && 0 <= id < disk.nextPageId
      modifies this, disk`blocks, disk`ops, replacer, pages
      ensures Valid() && replacer.log == old(replacer.log) + if page.Some? then [page.value.frame] else []
      ensures page.None? <==> old(AllPinned()) && old(View())[id].pins == 0
      ensures page.None? ==> View() == old(View())
      ensures Anchored(old(View()), old(pageTable), pageTable)
      ensures page.Some? ==> page.value.id == id && Holds(page.value)
      ensures id in old(pageTable) ==>
                && page == Some(Handle(id, old(pageTable)[id])) && page.value.frame in old(Cached()).residents
                && Cached() == Touched(old(Cached()), page.value.frame)
      ensures id !in old(pageTable) && page.Some? ==>
                && MakesRoom(old(Cached()), replacer.k, page.value.frame) && Cached() == Entered(old(Cached()), page.value.frame, id)
      ensures page.None? ==> Cached() == old(Cached())
      ensures page.Some? ==> Elsewhere(old(View()), View(), id)
      ensures page.Some? ==> && id in View() && View()[id].pins == old(View())[id].pins + 1
                             && MayBecome(old(View())[id], View()[id].(pins := old(View())[id].pins))
      ensures old(Stored()) <= Stored()
      ensures ShortRead(disk.ops) ==> old(ShortRead(disk.ops)) || (id !in old(Stored()) && old(View())[id].pins == 0)
    {
      if id in pageTable {
        assert EntryOk(id) && FrameOk(pageTable[id]);
        var f := pageTable[id];
        PinAgain(id);
        return Some(Handle(id, f));
      }
      page := Load(id);
    }

    /** Reads a page that is not in a frame into one. */
    method Load(id: PageId) returns (page: Option<Handle>)
      requires Valid() && replacer.currentTimestamp < SIZE_MAX && 0 <= id < disk.nextPageId && id !in pageTable
      modifies this, disk`blocks, disk`ops, replacer, pages
      ensures Valid() && replacer.log == old(replacer.log) + if page.Some? then [page.value.frame] else []
      ensures page.None? <==> old(AllPinned())
      ensures page.None? ==> View() == old(View())
      ensures Anchored(old(View()), old(pageTable), pageTable)
      ensures page.Some? ==> page.value.id == id && Holds(page.value)
      ensures page.Some? ==> MakesRoom(old(Cached()), replacer.k, page.value.frame)
      ensures Cached() == if page.Some? then Entered(old(Cached()), page.value.frame, id) else old(Cached())
      ensures page.Some? ==> Elsewhere(old(View()), View(), id)
      ensures page.Some? ==> id in View() && View()[id] == PageState(old(View())[id].data, 1, false)
      ensures old(Stored()) <= Stored()
      ensures ShortRead(disk.ops) ==> old(ShortRead(disk.ops)) || id !in old(Stored())
    {
      hide AllPinned, MakesRoom, StateOf, View, Cached;
      Uncached();
      var frame := TakeFrame();
      if frame.None? {
        return None;
      }
      Uncached();
      assert View()[id] == old(View())[id] == PageState(disk.Block(id), 0, false);
      ChangeAfterEvictions(old(View()), View(), id, PageState(disk.Block(id), 1, false));
      AnchoredStill(old(View()), old(pageTable), pageTable, id, frame.value);
      var data := ReadInto(frame.value, id);
      Install(frame.value, id, data);
      VacatedThenInstalled(old(Cached()), frame.value, id);
      return Some(Handle(id, frame.value));
    }

    /** Reads page `id` from the disk, for frame `f`. */
    method ReadInto(ghost f: FrameId, id: PageId) returns (data: PageData)
      requires ValidBut({f}) && 0 <= id
      modifies disk`ops
      ensures ValidBut({f}) && View() == old(View()) && data == disk.Block(id)
      ensures ShortRead(disk.ops) ==> old(ShortRead(disk.ops)) || id !in disk.blocks
    {
      hide LruKReplacer.Valid, LruKReplacer.Evictable, Cached;
      data := disk.ReadPage(id);
      forall g | 0 <= g < pages.Length && g != f ensures FrameOk(g) {
        assert old(FrameOk(g));
      }
      forall i | i in pageTable ensures EntryOk(i) {
        assert old(EntryOk(i));
      }
    }

    /** The page `page.id` is in frame `page.frame`. */
    ghost predicate Holds(page: Handle)
      reads this`pageTable
    {
      page.id in pageTable && pageTable[page.id] == page.frame
    }

    /** The page pointer shows the bytes of the page. */
    lemma FrameShows(page: Handle)
      requires Valid() && Holds(page)
      ensures 0 <= page.frame < pages.Length && page.id in View() && View()[page.id].data == pages[page.frame].data
    {
      assert EntryOk(page.id);
    }

    /** A new id; its page is all zeros on disk. */
    method AllocatePage(ghost f: FrameId) returns (id: PageId)
      requires ValidBut({f})
      modifies disk`nextPageId
      ensures ValidBut({f}) && 0 <= id == old(disk.nextPageId) && disk.nextPageId == id + 1
      ensures id !in pageTable && disk.Block(id) == ZEROS
      ensures View() == old(View())[id := PageState(ZEROS, 0, false)]
    {
      assert forall i :: i in pageTable ==> EntryOk(i);
      id := disk.AllocatePage();
      forall g | 0 <= g < pages.Length && g != f ensures FrameOk(g) {
        assert old(FrameOk(g));
      }
      forall i | i in pageTable ensures EntryOk(i) {
        assert old(EntryOk(i));
      }
    }

    /** Records an access of frame `f`, which holds a pinned page and may not be chosen from now on. */
    method Touch(f: FrameId)
      requires OthersOk({f}) && replacer.currentTimestamp < SIZE_MAX && 0 <= f < pages.Length
      requires var p := pages[f];
               && p.pageId != INVALID_PAGE_ID && f !in freeList && p.pageId in pageTable && pageTable[p.pageId] == f
               && p.pinCount > 0 && (p.isDirty || p.pageId in unreported || disk.Block(p.pageId) == p.data)
      modifies replacer
      ensures OthersOk({}) && replacer.log == old(replacer.log) + [f]
      ensures replacer.traces == Accessed(old(replacer.traces), f, |old(replacer.log)|)
    {
      var ok := replacer.RecordAccess(f);
      replacer.SetEvictable(f, false);
      forall g | 0 <= g < pages.Length && g != f ensures FrameOk(g) {
        assert old(FrameOk(g));
      }
      forall i | i in pageTable ensures EntryOk(i) {
        assert old(EntryOk(i));
      }
    }

    /** Puts page `id` into the free frame `f`, pinned once. */
    method Install(f: FrameId, id: PageId, data: PageData)
      requires ValidBut({f}) && replacer.currentTimestamp < SIZE_MAX
      requires id !in pageTable && 0 <= id < disk.nextPageId && data == disk.Block(id)
      modifies this`pageTable, replacer, pages
      ensures Valid() && View() == old(View())[id := PageState(data, 1, false)] && pageTable == old(pageTable)[id := f]
      ensures replacer.log == old(replacer.log) + [f]
      ensures Cached() == Installed(old(Cached()), f, id)
      ensures !DirtyAt(id)
      ensures old(Stored()) <= Stored()
    {
      hide OthersOk, View, StateOf, Stored, Cached;
      Place(f, id, data);
      label Placed:
      Touch(f);
      AccessShown@Placed(f);
    }

    method Place(f: FrameId, id: PageId, data: PageData)
      requires ValidBut({f}) && id !in pageTable && 0 <= id < disk.nextPageId
      modifies this`pageTable, pages
      ensures FramesOk({f}) && pageTable == old(pageTable)[id := f] && pages[f] == Frame(data, id, 1, false)
      ensures forall g :: 0 <= g < pages.Length && g != f ==> pages[g] == old(pages[g])
      ensures View() == old(View())[id := PageState(data, 1, false)]
      ensures Cached() == old(Cached()) && f !in Cached().residents
      ensures old(Stored()) <= Stored()
    {
      hide LruKReplacer.Valid, LruKReplacer.Evictable, Cached;
      assert id !in unreported;
      pages[f] := Frame(data, id, 1, false);
      pageTable := pageTable[id := f];
      UnusedShown(f);
      forall g | 0 <= g < pages.Length && g != f ensures FrameOk(g) {
        assert old(FrameOk(g));
      }
      forall i | i in pageTable ensures EntryOk(i) {
        assert i != id ==> old(EntryOk(i));
      }
    }

    lemma FrameOf(id: PageId)
      requires Valid() && id in pageTable
      ensures EntryOk(id) && FrameOk(pageTable[id]) && pages[pageTable[id]].pageId == id != INVALID_PAGE_ID
      ensures pageTable[id] in Cached().residents && Cached().residents[pageTable[id]].id == id
    {
    }

    /** Adds a pin to a page that is in a frame. */
    method PinAgain(id: PageId)
      requires Valid() && replacer.currentTimestamp < SIZE_MAX && id in pageTable
      modifies this`unreported, replacer, pages
      ensures Valid() && replacer.log == old(replacer.log) + [pageTable[id]]
      ensures pageTable[id] in old(Cached()).residents && Cached() == Touched(old(Cached()), pageTable[id])
      ensures id in old(View()) && View() == old(View())[id := old(View())[id].(pins := old(View())[id].pins + 1)]
      ensures old(Stored()) <= Stored()
    {
      hide OthersOk, View, StateOf, DirtyAt, Cached;
      FrameOf(id);
      InFrame(id);
      var f := pageTable[id];
      SetPins(id, pages[f].pinCount + 1, false);
      MarksShown(f);
      label Pinned:
      Touch(f);
      AccessShown@Pinned(f);
    }

    /** What a client does with the page pointer it got: it overwrites the page in its frame. */
    method WriteData(page: Handle, data: PageData)
      requires Valid() && Holds(page)
      modifies this`unreported, pages
      ensures Valid() && page.id in old(View())
      ensures View() == old(View())[page.id := old(View())[page.id].(data := data, unreported := true)]
      ensures forall i :: DirtyAt(i) == old(DirtyAt(i))
      ensures Cached() == old(Cached())
    {
      hide LruKReplacer.Valid, LruKReplacer.Evictable, Cached;
      var f := page.frame;
      assert EntryOk(page.id) && FrameOk(f);
      pages[f] := pages[f].(data := data);
      NothingShown();
      unreported := unreported + {page.id};
      forall g | 0 <= g < pages.Length ensures FrameOk(g) {
        assert old(FrameOk(g));
      }
      forall i | i in pageTable ensures EntryOk(i) {
        assert old(EntryOk(i));
      }
    }

    method UnpinPage(id: PageId, isDirty: bool) returns (ok: bool)
      requires Valid()
      modifies this`unreported, replacer, pages
      ensures Valid() && replacer.log == old(replacer.log)
      ensures ok <==> id in old(View()) && old(View())[id].pins > 0
      ensures !ok ==> View() == old(View())
      ensures ok ==> var p := old(View())[id];
                     View() == old(View())[id := PageState(p.data, p.pins - 1, p.unreported && !isDirty)]
      ensures ok ==> id in pageTable && pageTable[id] in old(Cached()).residents && Cached() == GivenBack(old(Cached()), pageTable[id], isDirty)
      ensures !ok ==> Cached() == old(Cached())
      ensures !isDirty ==> forall i :: DirtyAt(i) == old(DirtyAt(i))
      ensures old(Stored()) <= Stored() && (ok && isDirty ==> id in Stored())
    {
      if id !in pageTable {
        return false;
      }
      var f := pageTable[id];
      assert EntryOk(id) && FrameOk(f);
      if pages[f].pinCount <= 0 {
        return false;
      }
      Release(id, isDirty);
      return true;
    }

    lemma InFrame(id: PageId)
      requires id in pageTable && EntryOk(id)
      ensures id in View() && View()[id].pins == pages[pageTable[id]].pinCount
    {
    }

    /** Takes a pin off a page that is in a frame; after the last one the frame may be chosen. */
    method Release(id: PageId, isDirty: bool)
      requires Valid() && id in pageTable && EntryOk(id) && pages[pageTable[id]].pinCount > 0
      modifies this`unreported, replacer, pages
      ensures Valid() && replacer.log == old(replacer.log) && id in old(View())
      ensures var p := old(View())[id];
              View() == old(View())[id := PageState(p.data, p.pins - 1, p.unreported && !isDirty)]
      ensures pageTable[id] in old(Cached()).residents && Cached() == GivenBack(old(Cached()), pageTable[id], isDirty)
      ensures !isDirty ==> forall i :: DirtyAt(i) == old(DirtyAt(i))
      ensures old(Stored()) <= Stored() && (isDirty ==> id in Stored())
    {
      hide LruKReplacer.Evictable, View, StateOf, DirtyAt, Cached;
      var f := pageTable[id];
      InFrame(id);
      assert EntryOk(id) && FrameOk(f);
      SetPins(id, pages[f].pinCount - 1, isDirty);
      MarksShown(f);
      Offer(f);
    }

    /** Lets the replacer choose frame `f` from now on, unless its page is still pinned. */
    method Offer(f: FrameId)
      requires OthersOk({f}) && 0 <= f < pages.Length
      requires var p := pages[f];
               && p.pageId != INVALID_PAGE_ID && f !in freeList && p.pageId in pageTable && pageTable[p.pageId] == f
               && f in replacer.traces && f !in replacer.Evictable()
               && (p.isDirty || p.pageId in unreported || disk.Block(p.pageId) == p.data)
      modifies replacer`entries, replacer`currSize
      ensures Valid()
    {
      if pages[f].pinCount == 0 {
        replacer.SetEvictable(f, true);
      }
      forall g | 0 <= g < pages.Length && g != f ensures FrameOk(g) {
        assert old(FrameOk(g));
      }
      forall i | i in pageTable ensures EntryOk(i) {
        assert old(EntryOk(i));
      }
    }

    /** Sets the pin count of a page that is in a frame, and marks it dirty when told so. */
    method SetPins(id: PageId, pins: nat, isDirty: bool)
      requires Valid() && id in pageTable && EntryOk(id)
      modifies this`unreported, pages
      ensures OthersOk({pageTable[id]}) && id in old(View())
      ensures View() == old(View())[id := PageState(old(View())[id].data, pins, old(View())[id].unreported && !isDirty)]
      ensures var f := pageTable[id];
              && pages[f] == old(pages[f]).(pinCount := pins, isDirty := isDirty || old(pages[f]).isDirty)
              && forall g :: 0 <= g < pages.Length && g != f ==> pages[g] == old(pages[g])
      ensures unreported == old(unreported) - if isDirty then {id} else {}
      ensures !isDirty ==> forall i :: DirtyAt(i) == old(DirtyAt(i))
      ensures forall i :: DirtyAt(i) == (old(DirtyAt(i)) || (isDirty && i == id))
    {
      hide LruKReplacer.Valid, LruKReplacer.Evictable, Cached;
      var f := pageTable[id];
      assert FrameOk(f);
      pages[f] := pages[f].(pinCount := pins);
      if isDirty {
        pages[f] := pages[f].(isDirty := true);
        unreported := unreported - {id};
      }
      forall g | 0 <= g < pages.Length && g != f ensures FrameOk(g) {
        assert old(FrameOk(g));
      }
      forall i | i in pageTable ensures EntryOk(i) {
        assert old(EntryOk(i));
      }
    }

    /** Forgets a page that is not pinned; what reads back from then on is what last reached the disk. */
    method DeletePage(id: PageId) returns (ok: bool)
      requires Valid()
      modifies this, replacer, pages
      ensures Valid() && replacer.log == old(replacer.log)
      ensures ok <==> !(id in old(View()) && old(View())[id].pins > 0)
      ensures pageTable == if ok then old(pageTable) - {id} else old(pageTable)
      ensures Cached() == if ok && id in old(pageTable) then Freed(old(Cached()), old(pageTable)[id]) else old(Cached())
      ensures !ok || id !in old(View()) ==> View() == old(View())
      ensures ok && id in old(View()) ==> View() == old(View())[id := PageState(disk.Block(id), 0, false)]
      ensures old(Stored()) - {id} <= Stored()
    {
      if id !in pageTable {
        Uncached();
        return true;
      }
      var f := pageTable[id];
      assert EntryOk(id) && FrameOk(f);
      if pages[f].pinCount != 0 {
        return false;
      }
      Forget(id);
      return true;
    }

    /** Frees the frame of a page that is not pinned.  The replacer never objects. */
    method Forget(id: PageId)
      requires Valid() && id in pageTable && EntryOk(id) && pages[pageTable[id]].pinCount == 0
      modifies this, replacer, pages
      ensures Valid() && replacer.log == old(replacer.log) && id in old(View()) && pageTable == old(pageTable) - {id}
      ensures View() == old(View())[id := PageState(disk.Block(id), 0, false)]
      ensures Cached() == Freed(old(Cached()), old(pageTable)[id])
      ensures old(Stored()) - {id} <= Stored()
    {
      hide OthersOk, View, Cached;
      var f := pageTable[id];
      Detach(id);
      ReturnFrame(f);
    }

    method Detach(id: PageId)
      requires Valid() && id in pageTable && EntryOk(id) && pages[pageTable[id]].pinCount == 0
      modifies this`pageTable, this`unreported, replacer
      ensures ValidBut({old(pageTable)[id]}) && replacer.log == old(replacer.log) && pageTable == old(pageTable) - {id}
      ensures id in old(View()) && View() == old(View())[id := PageState(disk.Block(id), 0, false)]
      ensures Cached() == old(Cached()).(residents := old(Cached()).residents - {old(pageTable)[id]})
      ensures old(Stored()) - {id} <= Stored()
    {
      hide LruKReplacer.Valid, LruKReplacer.Evictable, Cached;
      var f := pageTable[id];
      assert FrameOk(f);
      pageTable, unreported := pageTable - {id}, unreported - {id};
      var removed := replacer.Remove(f);
      assert removed;
      RemovalShown(f);
      forall g | 0 <= g < pages.Length && g != f ensures FrameOk(g) {
        assert old(FrameOk(g));
      }
      forall i | i in pageTable ensures EntryOk(i) && pageTable[i] != f {
        assert old(EntryOk(i));
      }
    }

    /** Puts an empty frame on the free list. */
    method ReturnFrame(f: FrameId)
      requires ValidBut({f})
      modifies this`freeList, pages
      ensures Valid() && View() == old(View()) && Cached() == old(Cached()).(free := old(Cached()).free + [f])
      ensures old(Stored()) <= Stored()
    {
      hide LruKReplacer.Valid, LruKReplacer.Evictable, Cached;
      assert forall i :: i in pageTable ==> EntryOk(i);
      freeList := freeList + [f];
      pages[f] := Frame(ZEROS, INVALID_PAGE_ID, 0, false);
      assert freeList[|freeList| - 1] == f;
      UnusedShown(f);
      forall g | 0 <= g < pages.Length && g != f ensures FrameOk(g) {
        assert old(FrameOk(g));
      }
      forall i | i in pageTable ensures EntryOk(i) {
        assert old(EntryOk(i));
      }
    }

    /** Writes a page that is in a frame to disk, pinned or not. */
    method FlushPage(id: PageId) returns (ok: bool)
      requires Valid()
      modifies this`unreported, disk`blocks, disk`ops, pages
      ensures Valid() && (ok <==> id in pageTable)
      ensures ok ==> id in old(View()) && View() == old(View())[id := old(View())[id].(unreported := false)]
      ensures ok ==> disk.Block(id) == View()[id].data
      ensures !ok ==> View() == old(View())
      ensures Cached() == if ok then Cleaned(old(Cached()), {id}) else old(Cached())
      ensures old(Stored()) <= Stored() && (ok ==> id in Stored()) && (ShortRead(disk.ops) <==> old(ShortRead(disk.ops)))
    {
      if id !in pageTable {
        return false;
      }
      Flush(id);
      return true;
    }

    method Flush(id: PageId)
      requires Valid() && id in pageTable
      modifies this`unreported, disk`blocks, disk`ops, pages
      ensures Valid() && id in old(View())
      ensures View() == old(View())[id := old(View())[id].(unreported := false)]
      ensures forall i :: disk.Block(i) == if i == id then View()[id].data else old(disk.Block(i))
      ensures Cached() == Cleaned(old(Cached()), {id})
      ensures Stored() == old(Stored()) + {id} && pageTable == old(pageTable) && (ShortRead(disk.ops) <==> old(ShortRead(disk.ops)))
    {
      hide OthersOk;
      WriteThrough(id);
      MarkClean(id);
    }

    /** Writes the page to disk, in whatever frame it is. */
    method WriteThrough(id: PageId)
      requires Valid() && id in pageTable
      modifies disk`blocks, disk`ops
      ensures Valid() && id in View() && View() == old(View()) && disk.blocks == old(disk.blocks)[id := View()[id].data]
      ensures ShortRead(disk.ops) <==> old(ShortRead(disk.ops))
    {
      hide LruKReplacer.Valid, LruKReplacer.Evictable, DiskManager.Valid, DiskManager.Block;
      var f := pageTable[id];
      assert EntryOk(id) && FrameOk(f);
      disk.WritePage(id, pages[f].data);
      forall g | 0 <= g < pages.Length ensures FrameOk(g) {
        assert old(FrameOk(g));
      }
      forall i | i in pageTable ensures EntryOk(i) {
        assert old(EntryOk(i));
      }
    }

    /** Takes the dirty mark off a page that is as on disk. */
    method MarkClean(id: PageId)
      requires Valid() && id in pageTable && id in View() && disk.Block(id) == View()[id].data
      modifies this`unreported, pages
      ensures Valid() && View() == old(View())[id := old(View())[id].(unreported := false)]
      ensures forall i :: DirtyAt(i) == (old(DirtyAt(i)) && i != id)
      ensures Cached() == Cleaned(old(Cached()), {id})
    {
      hide OthersOk, LruKReplacer.Valid, LruKReplacer.Evictable, Cached, Cleaned, Follows, CacheOk;
      FrameOf(id);
      OthersStayDirty(id);
      ClearMark(id);
      MarksShown(pageTable[id]);
      Injective(id);
    }

    /** Two pages are not in one frame. */
    lemma Injective(id: PageId)
      requires Valid() && id in pageTable
      ensures forall i :: i in pageTable && i != id ==> pageTable[i] != pageTable[id]
    {
      assert EntryOk(id) && forall i :: i in pageTable ==> EntryOk(i);
    }

    method ClearMark(id: PageId)
      requires Valid() && id in pageTable && id in View() && disk.Block(id) == View()[id].data
      modifies this`unreported, pages
      ensures Valid() && unreported == old(unreported) - {id}
      ensures var f := pageTable[id];
              && 0 <= f < pages.Length && pages[f] == old(pages[f]).(isDirty := false)
              && forall g :: 0 <= g < pages.Length && g != f ==> pages[g] == old(pages[g])
    {
      hide LruKReplacer.Valid, LruKReplacer.Evictable;
      var f := pageTable[id];
      assert EntryOk(id) && FrameOk(f);
      pages[f] := pages[f].(isDirty := false);
      unreported := unreported - {id};
      forall g | 0 <= g < pages.Length ensures FrameOk(g) {
        assert old(FrameOk(g));
      }
      forall i | i in pageTable ensures EntryOk(i) {
        assert old(EntryOk(i));
      }
    }

    /** Taking the dirty mark off the page's frame is cleaning the page. */
    lemma OthersStayDirty(id: PageId)
      requires Valid() && id in pageTable
      ensures var f, c := pageTable[id], Cached();
              && f in replacer.traces && f in c.residents
              && Cleaned(c, {id}) == c.(residents := c.residents[f := c.residents[f].(dirty := false)])
    {
      CachedIsTable();
      FrameOf(id);
      assert At(Cached(), id, pageTable[id]);
    }

    lemma CachedShown()
      requires Valid()
      ensures forall i :: i in pageTable ==> i in View()
    {
      assert forall i :: i in pageTable ==> EntryOk(i);
    }

    /** A page that is in no frame is on disk as it is. */
    lemma Uncached()
      ensures forall id :: id in View() <==> 0 <= id < disk.nextPageId
      ensures forall id :: id in View() && id !in pageTable ==> View()[id] == PageState(disk.Block(id), 0, false)
    {
    }

    /** Writes every page that is in a frame to disk, in no particular order. */
    method FlushAllPages()
      requires Valid()
      modifies this`unreported, disk`blocks, disk`ops, pages
      ensures Valid() && View().Keys == old(View()).Keys && Cached() == Cleaned(old(Cached()), pageTable.Keys)
      ensures forall id :: id in View() ==> View()[id] == old(View())[id].(unreported := false) && disk.Block(id) == View()[id].data
      ensures old(Stored()) <= Stored() && (ShortRead(disk.ops) <==> old(ShortRead(disk.ops)))
    {
      hide LruKReplacer.Valid, LruKReplacer.Evictable, OthersOk, View, StateOf, Stored, Cached, Cleaned, ShortRead, DiskManager.Block, DiskManager.Valid;
      Uncached();
      ghost var s, c := View(), Cached();
      var todo := pageTable.Keys;
      CleanedTwice(c, {}, {});
      assert pageTable.Keys - todo == {};
      while todo != {}
        invariant Valid() && todo <= pageTable.Keys && FlushedBut(s, c, todo)
        invariant old(Stored()) <= Stored() && (ShortRead(disk.ops) <==> old(ShortRead(disk.ops)))
        modifies this`unreported, disk`blocks, disk`ops, pages
        decreases |todo|
      {
        var id := AnyOf(todo);
        FlushNext(id, s, c, todo);
        todo := todo - {id};
      }
      assert pageTable.Keys - todo == pageTable.Keys;
    }

    /** From the pool `s` with the frames `c`, all pages but `todo` have been written to disk. */
    ghost predicate FlushedBut(s: Pool, c: Cache, todo: set<PageId>)
      reads this, disk`blocks, disk`nextPageId, replacer`log, replacer`traces, pages
    {
      && View().Keys == s.Keys && Cached() == Cleaned(c, pageTable.Keys - todo)
      && (forall id :: id in s && id in todo ==> View()[id] == s[id])
      && (forall id :: id in s && id !in todo ==> View()[id] == s[id].(unreported := false) && disk.Block(id) == s[id].data)
    }

    method FlushNext(id: PageId, ghost s: Pool, ghost c: Cache, ghost todo: set<PageId>)
      requires Valid() && id in todo && todo <= pageTable.Keys && FlushedBut(s, c, todo)
      modifies this`unreported, disk`blocks, disk`ops, pages
      ensures Valid() && FlushedBut(s, c, todo - {id})
      ensures old(Stored()) <= Stored() && (ShortRead(disk.ops) <==> old(ShortRead(disk.ops)))
    {
      hide LruKReplacer.Valid, LruKReplacer.Evictable, OthersOk, View, StateOf, Stored, Cached, Cleaned, ShortRead, DiskManager.Block;
      CleanedTwice(c, pageTable.Keys - todo, {id});
      assert pageTable.Keys - todo + {id} == pageTable.Keys - (todo - {id});
      Flush(id);
    }
  }
}
