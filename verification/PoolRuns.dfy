/**
 Whole runs of a buffer pool against a store of pages that knows nothing of frames: only the
 contents and the pins of each page, and how many pages may be pinned at once.
 */
module PoolRuns {
  import opened Types
  import opened DiskManagers
  import opened LruKReplacers
  import opened PoolStates
  import opened PoolPolicies
  import opened BufferPools

  datatype Op =
    | New
    | Fetch(id: PageId)
    | Write(id: PageId, data: PageData)
    | Unpin(id: PageId, isDirty: bool)
    | Delete(id: PageId)
    | Flush(id: PageId)
    | FlushAll

  datatype Answer =
    | Created(id: Option<PageId>)
    | Fetched(data: Option<PageData>)
    | Done(ok: bool)

  // ---------- The store of pages ----------

  function Reported(p: PageState): PageState {
    PageState(p.data, p.pins, false)
  }

  ghost predicate AllReported(s: Pool, s': Pool) {
    s'.Keys == s.Keys && forall id :: id in s ==> s'[id] == Reported(s[id])
  }

  /** Fetching page `id`: it fails exactly when the page is not pinned and `n` others are. */
  ghost predicate FetchStep(n: nat, s: Pool, id: PageId, answer: Answer, s': Pool)
    requires id in s
  {
    if Full(s, n) && s[id].pins == 0 then
      answer == Fetched(None) && s' == s
    else
      && Elsewhere(s, s', id) && id in s' && s'[id].pins == s[id].pins + 1
      && MayBecome(s[id], s'[id].(pins := s[id].pins)) && answer == Fetched(Some(s'[id].data))
  }

  ghost predicate NewStep(n: nat, s: Pool, answer: Answer, s': Pool) {
    if Full(s, n) then
      answer == Created(None) && s' == s
    else
      && answer.Created? && answer.id.Some? && answer.id.value !in s
      && Elsewhere(s, s', answer.id.value)
      && answer.id.value in s' && s'[answer.id.value] == PageState(ZEROS, 1, false)
  }

  ghost predicate Step(n: nat, s: Pool, op: Op, answer: Answer, s': Pool) {
    match op
    case New =>
      NewStep(n, s, answer, s')
    case Fetch(id) =>
      if id in s then FetchStep(n, s, id, answer, s') else answer == Done(false) && s' == s
    case Write(id, data) =>
      if id in s && s[id].pins > 0 then answer == Done(true) && s' == s[id := PageState(data, s[id].pins, true)]
      else answer == Done(false) && s' == s
    case Unpin(id, isDirty) =>
      if id in s && s[id].pins > 0 then
        answer == Done(true) && s' == s[id := PageState(s[id].data, s[id].pins - 1, s[id].unreported && !isDirty)]
      else answer == Done(false) && s' == s
    case Delete(id) =>
      if id in s && s[id].pins > 0 then answer == Done(false) && s' == s
      else if id in s then
        answer == Done(true) && s'.Keys == s.Keys && s' - {id} == s - {id} && s'[id].pins == 0 && !s'[id].unreported
      else answer == Done(true) && s' == s
    case Flush(id) =>
      if id in s && s[id].pins > 0 then answer == Done(true) && s' == s[id := Reported(s[id])]
      else answer.Done? && (s' == s || (id in s && s' == s[id := Reported(s[id])]))
    case FlushAll =>
      answer == Done(true) && AllReported(s, s')
  }

  ghost predicate IsRun(n: nat, states: seq<Pool>, ops: seq<Op>, answers: seq<Answer>) {
    && |states| == |ops| + 1 && |answers| == |ops| && states[0] == map[]
    && forall i :: 0 <= i < |ops| ==> Step(n, states[i], ops[i], answers[i], states[i + 1])
  }

  // ---------- The file ----------

  /** What a step does to the pages that the disk has, or will have when they are evicted. */
  ghost predicate StoredStep(op: Op, answer: Answer, stored: set<PageId>, stored': set<PageId>) {
    && (if op.Delete? then stored - {op.id} else stored) <= stored'
    && (((op.Unpin? && op.isDirty) || op.Flush?) && answer == Done(true) ==> op.id in stored')
  }

  /** A fetch that may have to read a page which the file does not have. */
  ghost predicate Risky(s: Pool, stored: set<PageId>, op: Op) {
    op.Fetch? && op.id in s && op.id !in stored && s[op.id].pins == 0
  }

  ghost predicate FileStep(s: Pool, op: Op, answer: Answer, stored: set<PageId>, stored': set<PageId>,
                           io: seq<DiskOp>, io': seq<DiskOp>) {
    StoredStep(op, answer, stored, stored') && (ShortRead(io') ==> ShortRead(io) || Risky(s, stored, op))
  }

  // ---------- The frames ----------

  /** Page `id` gets a page pointer into frame `f`: the frame that it is in, or else the one that makes room. */
  ghost predicate Enters(k: nat, c: Cache, id: PageId, f: FrameId, c': Cache) {
    if IsCached(c, id) then At(c, id, f) && c' == Touched(c, f)
    else MakesRoom(c, k, f) && c' == Entered(c, f, id)
  }

  /** What an operation does to the frames, and the frame of the page pointer that it gives. */
  ghost predicate CacheStep(k: nat, c: Cache, op: Op, answer: Answer, frame: Option<FrameId>, c': Cache) {
    match (op, answer)
    case (New, Created(Some(id))) => frame.Some? && !IsCached(c, id) && Enters(k, c, id, frame.value, c')
    case (Fetch(id), Fetched(Some(_))) => frame.Some? && Enters(k, c, id, frame.value, c')
    case (Unpin(id, isDirty), Done(true)) => frame.None? && exists f :: At(c, id, f) && c' == GivenBack(c, f, isDirty)
    case (Delete(id), Done(true)) =>
      frame.None? && if IsCached(c, id) then exists f :: At(c, id, f) && c' == Freed(c, f) else c' == c
    case (Flush(id), Done(true)) => frame.None? && IsCached(c, id) && c' == Cleaned(c, {id})
    case (FlushAll, Done(true)) => frame.None? && c' == Cleaned(c, set f | f in c.residents :: c.residents[f].id)
    case _ => frame.None? && c' == c
  }

  /** The frames of a run, from the empty pool of `n` frames with LRU-K as its policy. */
  ghost predicate CacheRun(n: nat, k: nat, ops: seq<Op>, answers: seq<Answer>, frames: seq<Option<FrameId>>, caches: seq<Cache>) {
    && |answers| == |ops| && |frames| == |ops| && |caches| == |ops| + 1 && caches[0] == EmptyCache(n)
    && forall i :: 0 <= i < |ops| ==> CacheStep(k, caches[i], ops[i], answers[i], frames[i], caches[i + 1])
  }

  // ---------- The page table and the frames ----------

  lemma NewEnters(k: nat, c: Cache, table: map<PageId, FrameId>, id: PageId, f: FrameId, c': Cache)
    requires Follows(c, table) && id !in table && MakesRoom(c, k, f) && c' == Entered(c, f, id)
    ensures CacheStep(k, c, New, Created(Some(id)), Some(f), c')
  {
    CachedInTable(c, table, id);
  }

  lemma FetchEnters(k: nat, c: Cache, table: map<PageId, FrameId>, id: PageId, f: FrameId, data: PageData, c': Cache)
    requires Follows(c, table)
    requires if id in table then f == table[id] && f in c.residents && c' == Touched(c, f)
             else MakesRoom(c, k, f) && c' == Entered(c, f, id)
    ensures CacheStep(k, c, Fetch(id), Fetched(Some(data)), Some(f), c')
  {
    CachedInTable(c, table, id);
  }

  lemma UnpinGivesBack(k: nat, c: Cache, table: map<PageId, FrameId>, id: PageId, isDirty: bool, ok: bool, c': Cache)
    requires Follows(c, table)
    requires if ok then id in table && table[id] in c.residents && c' == GivenBack(c, table[id], isDirty) else c' == c
    ensures CacheStep(k, c, Unpin(id, isDirty), Done(ok), None, c')
  {
    assert ok ==> At(c, id, table[id]);
  }

  lemma FlushCleans(k: nat, c: Cache, table: map<PageId, FrameId>, id: PageId, ok: bool, c': Cache)
    requires Follows(c, table) && (ok <==> id in table) && c' == if ok then Cleaned(c, {id}) else c
    ensures CacheStep(k, c, Flush(id), Done(ok), None, c')
  {
    CachedInTable(c, table, id);
  }

  lemma FlushAllCleans(k: nat, c: Cache, table: map<PageId, FrameId>, c': Cache)
    requires Follows(c, table) && c' == Cleaned(c, table.Keys)
    ensures CacheStep(k, c, FlushAll, Done(true), None, c')
  {
    forall id ensures id in table <==> id in set f | f in c.residents :: c.residents[f].id {
      CachedInTable(c, table, id);
      if id in table {
        assert At(c, id, table[id]);
      }
      forall f | f in c.residents && c.residents[f].id == id ensures id in table {
        assert At(c, id, f);
      }
    }
    assert table.Keys == set f | f in c.residents :: c.residents[f].id;
  }

  lemma DeleteFrees(k: nat, c: Cache, table: map<PageId, FrameId>, id: PageId, ok: bool, c': Cache)
    requires Follows(c, table) && c' == if ok && id in table then Freed(c, table[id]) else c
    ensures CacheStep(k, c, Delete(id), Done(ok), None, c')
  {
    CachedInTable(c, table, id);
    assert id in table ==> At(c, id, table[id]);
  }

  lemma CacheStepOk(k: nat, c: Cache, op: Op, answer: Answer, frame: Option<FrameId>, c': Cache)
    requires CacheOk(c) && CacheStep(k, c, op, answer, frame, c')
    ensures CacheOk(c')
  {
    match (op, answer)
    case (New, Created(Some(id))) =>
      EntersOk(k, c, id, frame.value, c');
    case (Fetch(id), Fetched(Some(_))) =>
      EntersOk(k, c, id, frame.value, c');
    case _ =>
  }

  lemma EntersOk(k: nat, c: Cache, id: PageId, f: FrameId, c': Cache)
    requires CacheOk(c) && Enters(k, c, id, f, c')
    ensures CacheOk(c')
  {
    forall g | g in c.residents && c.residents[g].id == id ensures IsCached(c, id) {
      assert At(c, id, g);
    }
  }

  lemma StepDetermined(k: nat, c: Cache, op: Op, answer: Answer, frame: Option<FrameId>, c': Cache, frame': Option<FrameId>, c'': Cache)
    requires CacheOk(c) && CacheStep(k, c, op, answer, frame, c') && CacheStep(k, c, op, answer, frame', c'')
    ensures frame == frame' && c' == c''
  {
    match (op, answer)
    case (New, Created(Some(id))) =>
      OneMakesRoom(c, k, frame.value, frame'.value);
    case (Fetch(id), Fetched(Some(_))) =>
      if !IsCached(c, id) {
        OneMakesRoom(c, k, frame.value, frame'.value);
      }
    case _ =>
  }

  /** Every frame that a run gives, and so every page that has to leave, is determined by its operations and answers alone. */
  lemma {:induction false} FramesDetermined(n: nat, k: nat, ops: seq<Op>, answers: seq<Answer>,
                                            frames: seq<Option<FrameId>>, caches: seq<Cache>,
                                            frames': seq<Option<FrameId>>, caches': seq<Cache>)
    requires CacheRun(n, k, ops, answers, frames, caches) && CacheRun(n, k, ops, answers, frames', caches')
    ensures frames == frames' && caches == caches' && CacheOk(caches[|ops|])
    decreases |ops|
  {
    hide CacheStep, CacheOk;
    if ops == [] {
      EmptyOk(n);
      assert caches == caches';
    } else {
      var m := |ops| - 1;
      FramesDetermined(n, k, ops[..m], answers[..m], frames[..m], caches[..m + 1], frames'[..m], caches'[..m + 1]);
      assert caches[..m + 1][m] == caches[m] && caches'[..m + 1][m] == caches'[m];
      StepDetermined(k, caches[m], ops[m], answers[m], frames[m], caches[m + 1], frames'[m], caches'[m + 1]);
      CacheStepOk(k, caches[m], ops[m], answers[m], frames[m], caches[m + 1]);
      assert frames == frames[..m] + [frames[m]] && frames' == frames'[..m] + [frames'[m]];
      assert caches == caches[..m + 1] + [caches[m + 1]] && caches' == caches'[..m + 1] + [caches'[m + 1]];
    }
  }

  lemma EmptyOk(n: nat)
    ensures CacheOk(EmptyCache(n))
  {
  }

  /** A page leaves the pool when it is deleted, or as the LRU-K victim of the accesses of the run, with no frame free. */
  lemma LeavesAsVictim(k: nat, c: Cache, op: Op, answer: Answer, frame: Option<FrameId>, c': Cache, id: PageId)
    requires CacheOk(c) && CacheStep(k, c, op, answer, frame, c') && IsCached(c, id) && !IsCached(c', id)
    ensures op == Delete(id) || (frame.Some? && c.free == [] && At(c, id, frame.value) && IsNext(c, k, frame.value))
  {
    var f :| At(c, id, f);
    assert !At(c', id, f);
    match (op, answer)
    case (Delete(i), Done(true)) =>
      if IsCached(c, i) {
        var g :| At(c, i, g) && c' == Freed(c, g);
      }
    case (New, Created(Some(i))) =>
      assert f == frame.value;
    case (Fetch(i), Fetched(Some(_))) =>
      assert !IsCached(c, i) && f == frame.value;
    case _ =>
  }

  // ---------- What a client wrote last ----------

  /** The last bytes written to page `id`; `None` when it was not created yet, or deleted since. */
  function LastWritten(ops: seq<Op>, answers: seq<Answer>, id: PageId): Option<PageData>
    requires |answers| == |ops|
  {
    if ops == [] then None else
      var n := |ops| - 1;
      var before := LastWritten(ops[..n], answers[..n], id);
      match (ops[n], answers[n])
      case (New, Created(Some(i))) => if i == id then Some(ZEROS) else before
      case (Write(i, data), Done(true)) => if i == id then Some(data) else before
      case (Delete(i), Done(true)) => if i == id then None else before
      case _ => before
  }

  /** A page that was written last with `data` still has that value, as long as writes are reported. */
  lemma StepKeepsLast(n: nat, s: Pool, op: Op, answer: Answer, s': Pool, ops: seq<Op>, answers: seq<Answer>, id: PageId)
    requires |answers| == |ops| && Step(n, s, op, answer, s') && Disciplined(s)
    requires var d := LastWritten(ops, answers, id); d.Some? ==> id in s && s[id].data == d.value
    ensures var d := LastWritten(ops + [op], answers + [answer], id); d.Some? ==> id in s' && s'[id].data == d.value
  {
    assert (ops + [op])[..|ops|] == ops && (answers + [answer])[..|ops|] == answers;
    match op
    case New =>
      if answer.id.Some? {
        DisciplinedElsewhere(s, s', answer.id.value);
      }
    case Fetch(i) =>
      if i in s && answer.data.Some? {
        DisciplinedElsewhere(s, s', i);
      }
    case Delete(i) =>
      assert id != i && id in s ==> id in s - {i};
      assert id != i && id in s && i in s && s[i].pins == 0 ==> (s' - {i})[id] == (s - {i})[id];
    case _ =>
  }

  /** In a run whose writes are all reported in time, every page has the bytes last written to it. */
  lemma {:induction false} RunKeepsLast(n: nat, states: seq<Pool>, ops: seq<Op>, answers: seq<Answer>, id: PageId)
    requires IsRun(n, states, ops, answers)
    requires forall i :: 0 <= i < |ops| ==> Disciplined(states[i])
    ensures var d := LastWritten(ops, answers, id);
            d.Some? ==> id in states[|ops|] && states[|ops|][id].data == d.value
    decreases |ops|
  {
    if ops != [] {
      var m := |ops| - 1;
      RunKeepsLast(n, states[..m + 1], ops[..m], answers[..m], id);
      assert ops == ops[..m] + [ops[m]] && answers == answers[..m] + [answers[m]];
      StepKeepsLast(n, states[m], ops[m], answers[m], states[m + 1], ops[..m], answers[..m], id);
    }
  }

  /** Transparency: a fetch returns the bytes last written, whatever has been evicted since. */
  lemma FetchSeesLast(n: nat, states: seq<Pool>, ops: seq<Op>, answers: seq<Answer>, i: nat)
    requires IsRun(n, states, ops, answers) && i < |ops| && ops[i].Fetch?
    requires forall j :: 0 <= j <= i ==> Disciplined(states[j])
    ensures var d := LastWritten(ops[..i], answers[..i], ops[i].id);
            d.Some? ==> answers[i] == Fetched(d) || (answers[i] == Fetched(None) && Full(states[i], n))
  {
    RunKeepsLast(n, states[..i + 1], ops[..i], answers[..i], ops[i].id);
    assert Step(n, states[i], ops[i], answers[i], states[i + 1]);
  }

  /** One call alone breaks the discipline: giving up the last pin of a written page without saying so. */
  lemma DisciplineLostExactly(n: nat, s: Pool, op: Op, answer: Answer, s': Pool)
    requires Step(n, s, op, answer, s') && Disciplined(s)
    ensures Disciplined(s') <==>
              !(op.Unpin? && !op.isDirty && op.id in s && s[op.id].pins == 1 && s[op.id].unreported)
  {
    match op
    case New =>
      if answer.id.Some? {
        DisciplinedElsewhere(s, s', answer.id.value);
        OthersSettled(s, s', answer.id.value);
      }
    case Fetch(id) =>
      if id in s && answer.data.Some? {
        DisciplinedElsewhere(s, s', id);
        OthersSettled(s, s', id);
      }
    case Unpin(id, isDirty) =>
      if id in s && s[id].pins == 1 && s[id].unreported && !isDirty {
        assert !Settled(s'[id]);
      }
    case Delete(id) =>
      if id in s && s[id].pins == 0 {
        forall i | i in s' && i != id ensures i in s && s'[i] == s[i] {
          assert i in s' - {id} && (s' - {id})[i] == (s - {id})[i];
        }
      }
    case _ =>
  }

  lemma OthersSettled(s: Pool, s': Pool, id: PageId)
    requires Disciplined(s) && Elsewhere(s, s', id) && (id in s' ==> Settled(s'[id]))
    ensures Disciplined(s')
  {
    DisciplinedElsewhere(s, s', id);
    forall i | i in s' && i != id ensures Settled(s'[i]) {
      assert i in s'.Keys - {id};
    }
  }

  // ---------- The pool ----------

  /** The client's page pointers still show the pages it has pinned. */
  ghost predicate HandlesOk(s: Pool, table: map<PageId, FrameId>, handles: map<PageId, FrameId>) {
    forall id :: id in s && s[id].pins > 0 ==> id in handles && id in table && table[id] == handles[id]
  }

  lemma HandlesNext(s: Pool, s': Pool, table: map<PageId, FrameId>, table': map<PageId, FrameId>,
                    handles: map<PageId, FrameId>, id: PageId)
    requires HandlesOk(s, table, handles) && Anchored(s, table, table') && Elsewhere(s, s', id) && id in table'
    ensures HandlesOk(s', table', handles[id := table'[id]])
  {
    forall i | i in s' && i != id ensures i in s && MayBecome(s[i], s'[i]) {
      assert i in s'.Keys - {id};
    }
  }

  /** Without a page pointer nothing happens to the frames. */
  lemma NoneEntered(k: nat, c: Cache, id: PageId)
    ensures CacheStep(k, c, New, Created(None), None, c)
    ensures CacheStep(k, c, Fetch(id), Fetched(None), None, c) && CacheStep(k, c, Fetch(id), Done(false), None, c)
  {
  }

  method PerformNew(pool: BufferPool, handles: map<PageId, FrameId>)
    returns (answer: Answer, handles': map<PageId, FrameId>, frame: Option<FrameId>)
    requires pool.Valid() && pool.replacer.currentTimestamp < SIZE_MAX
    requires HandlesOk(pool.View(), pool.pageTable, handles)
    modifies pool, pool.disk, pool.replacer, pool.pages
    ensures pool.Valid() && |pool.replacer.log| <= |old(pool.replacer.log)| + 1
    ensures HandlesOk(pool.View(), pool.pageTable, handles')
    ensures Step(pool.poolSize, old(pool.View()), New, answer, pool.View())
    ensures CacheStep(pool.replacer.k, old(pool.Cached()), New, answer, frame, pool.Cached())
    ensures FileStep(old(pool.View()), New, answer, old(pool.Stored()), pool.Stored(), old(pool.disk.ops), pool.disk.ops)
  {
    hide BufferPool.Cached, CacheStep, MakesRoom, Follows, CacheOk;
    pool.FullMeansAllPinned();
    pool.CachedIsTable();
    pool.CachedShown();
    var page := pool.NewPage();
    NoneEntered(pool.replacer.k, old(pool.Cached()), 0);
    if page.None? {
      return Created(None), handles, None;
    }
    HandlesNext(old(pool.View()), pool.View(), old(pool.pageTable), pool.pageTable, handles, page.value.id);
    NewEnters(pool.replacer.k, old(pool.Cached()), old(pool.pageTable), page.value.id, page.value.frame, pool.Cached());
    return Created(Some(page.value.id)), handles[page.value.id := page.value.frame], Some(page.value.frame);
  }

  method PerformFetch(pool: BufferPool, handles: map<PageId, FrameId>, id: PageId)
    returns (answer: Answer, handles': map<PageId, FrameId>, frame: Option<FrameId>)
    requires pool.Valid() && pool.replacer.currentTimestamp < SIZE_MAX
    requires HandlesOk(pool.View(), pool.pageTable, handles)
    modifies pool, pool.disk`blocks, pool.disk`ops, pool.replacer, pool.pages
    ensures pool.Valid() && |pool.replacer.log| <= |old(pool.replacer.log)| + 1
    ensures HandlesOk(pool.View(), pool.pageTable, handles')
    ensures Step(pool.poolSize, old(pool.View()), Fetch(id), answer, pool.View())
    ensures CacheStep(pool.replacer.k, old(pool.Cached()), Fetch(id), answer, frame, pool.Cached())
    ensures FileStep(old(pool.View()), Fetch(id), answer, old(pool.Stored()), pool.Stored(), old(pool.disk.ops), pool.disk.ops)
  {
    hide BufferPool.OthersOk, BufferPool.Stored, BufferPool.DirtyAt, ShortRead, BufferPool.Cached, CacheStep, MakesRoom, Follows, CacheOk;
    NoneEntered(pool.replacer.k, pool.Cached(), id);
    pool.CachedIsTable();
    if !(0 <= id < pool.disk.nextPageId) {
      return Done(false), handles, None;
    }
    pool.FullMeansAllPinned();
    var page := pool.FetchPage(id);
    if page.None? {
      return Fetched(None), handles, None;
    }
    pool.FrameShows(page.value);
    HandlesNext(old(pool.View()), pool.View(), old(pool.pageTable), pool.pageTable, handles, id);
    FetchEnters(pool.replacer.k, old(pool.Cached()), old(pool.pageTable), id, page.value.frame,
                pool.pages[page.value.frame].data, pool.Cached());
    return Fetched(Some(pool.pages[page.value.frame].data)), handles[id := page.value.frame], Some(page.value.frame);
  }

  /** One operation of a client that keeps the page pointers it was given. */
  method Perform(pool: BufferPool, handles: map<PageId, FrameId>, op: Op)
    returns (answer: Answer, handles': map<PageId, FrameId>, frame: Option<FrameId>)
    requires pool.Valid() && pool.replacer.currentTimestamp < SIZE_MAX
    requires HandlesOk(pool.View(), pool.pageTable, handles)
    modifies pool, pool.disk, pool.replacer, pool.pages
    ensures pool.Valid() && |pool.replacer.log| <= |old(pool.replacer.log)| + 1
    ensures HandlesOk(pool.View(), pool.pageTable, handles')
    ensures Step(pool.poolSize, old(pool.View()), op, answer, pool.View())
    ensures CacheStep(pool.replacer.k, old(pool.Cached()), op, answer, frame, pool.Cached())
    ensures FileStep(old(pool.View()), op, answer, old(pool.Stored()), pool.Stored(), old(pool.disk.ops), pool.disk.ops)
  {
    hide BufferPool.OthersOk, BufferPool.View, BufferPool.Stored, HandlesOk, ShortRead, Step, FileStep;
    handles', frame := handles, None;
    match op
    case New =>
      answer, handles', frame := PerformNew(pool, handles);
    case Fetch(id) =>
      answer, handles', frame := PerformFetch(pool, handles, id);
    case Write(id, data) =>
      answer := PerformWrite(pool, handles, id, data);
    case Unpin(id, isDirty) =>
      answer := PerformUnpin(pool, handles, id, isDirty);
    case Delete(id) =>
      answer := PerformDelete(pool, handles, id);
    case Flush(id) =>
      answer := PerformFlush(pool, handles, id);
    case FlushAll =>
      answer := PerformFlushAll(pool, handles);
  }

  method PerformUnpin(pool: BufferPool, handles: map<PageId, FrameId>, id: PageId, isDirty: bool)
    returns (answer: Answer)
    requires pool.Valid() && HandlesOk(pool.View(), pool.pageTable, handles)
    modifies pool`unreported, pool.replacer, pool.pages
    ensures pool.Valid() && pool.replacer.log == old(pool.replacer.log) && HandlesOk(pool.View(), pool.pageTable, handles)
    ensures Step(pool.poolSize, old(pool.View()), Unpin(id, isDirty), answer, pool.View())
    ensures CacheStep(pool.replacer.k, old(pool.Cached()), Unpin(id, isDirty), answer, None, pool.Cached())
    ensures FileStep(old(pool.View()), Unpin(id, isDirty), answer, old(pool.Stored()), pool.Stored(), old(pool.disk.ops), pool.disk.ops)
  {
    hide BufferPool.OthersOk, BufferPool.View, BufferPool.Stored, BufferPool.DirtyAt, BufferPool.Cached, ShortRead, CacheStep, Follows, CacheOk;
    pool.CachedIsTable();
    var ok := pool.UnpinPage(id, isDirty);
    UnpinGivesBack(pool.replacer.k, old(pool.Cached()), pool.pageTable, id, isDirty, ok, pool.Cached());
    answer := Done(ok);
  }

  method PerformFlush(pool: BufferPool, handles: map<PageId, FrameId>, id: PageId) returns (answer: Answer)
    requires pool.Valid() && HandlesOk(pool.View(), pool.pageTable, handles)
    modifies pool`unreported, pool.disk`blocks, pool.disk`ops, pool.pages
    ensures pool.Valid() && HandlesOk(pool.View(), pool.pageTable, handles)
    ensures Step(pool.poolSize, old(pool.View()), Flush(id), answer, pool.View())
    ensures CacheStep(pool.replacer.k, old(pool.Cached()), Flush(id), answer, None, pool.Cached())
    ensures FileStep(old(pool.View()), Flush(id), answer, old(pool.Stored()), pool.Stored(), old(pool.disk.ops), pool.disk.ops)
  {
    hide BufferPool.OthersOk, BufferPool.View, BufferPool.Stored, BufferPool.Cached, ShortRead, CacheStep, Follows, CacheOk;
    PinnedCached(pool, id);
    pool.CachedIsTable();
    var ok := pool.FlushPage(id);
    answer := Done(ok);
    FlushCleans(pool.replacer.k, old(pool.Cached()), pool.pageTable, id, ok, pool.Cached());
  }

  method PerformFlushAll(pool: BufferPool, handles: map<PageId, FrameId>) returns (answer: Answer)
    requires pool.Valid() && HandlesOk(pool.View(), pool.pageTable, handles)
    modifies pool`unreported, pool.disk`blocks, pool.disk`ops, pool.pages
    ensures pool.Valid() && HandlesOk(pool.View(), pool.pageTable, handles)
    ensures Step(pool.poolSize, old(pool.View()), FlushAll, answer, pool.View())
    ensures CacheStep(pool.replacer.k, old(pool.Cached()), FlushAll, answer, None, pool.Cached())
    ensures FileStep(old(pool.View()), FlushAll, answer, old(pool.Stored()), pool.Stored(), old(pool.disk.ops), pool.disk.ops)
  {
    hide BufferPool.OthersOk, BufferPool.View, BufferPool.Stored, BufferPool.Cached, ShortRead, CacheStep, Follows, CacheOk;
    pool.CachedIsTable();
    pool.FlushAllPages();
    answer := Done(true);
    FlushAllCleans(pool.replacer.k, old(pool.Cached()), pool.pageTable, pool.Cached());
  }

  lemma PinnedCached(pool: BufferPool, id: PageId)
    requires pool.Valid()
    ensures id in pool.pageTable ==> id in pool.View()
    ensures id in pool.View() && pool.View()[id].pins > 0 ==> id in pool.pageTable
  {
    assert id in pool.pageTable ==> pool.EntryOk(id);
  }

  /** The client writes through its page pointer, provided that it has the page pinned. */
  method PerformWrite(pool: BufferPool, handles: map<PageId, FrameId>, id: PageId, data: PageData)
    returns (answer: Answer)
    requires pool.Valid() && HandlesOk(pool.View(), pool.pageTable, handles)
    modifies pool`unreported, pool.pages
    ensures pool.Valid() && HandlesOk(pool.View(), pool.pageTable, handles)
    ensures Step(pool.poolSize, old(pool.View()), Write(id, data), answer, pool.View())
    ensures CacheStep(pool.replacer.k, old(pool.Cached()), Write(id, data), answer, None, pool.Cached())
    ensures FileStep(old(pool.View()), Write(id, data), answer, old(pool.Stored()), pool.Stored(), old(pool.disk.ops), pool.disk.ops)
  {
    if id in pool.pageTable {
      assert pool.EntryOk(id);
      if pool.pages[pool.pageTable[id]].pinCount > 0 {
        pool.WriteData(Handle(id, handles[id]), data);
        return Done(true);
      }
    }
    return Done(false);
  }

  method PerformDelete(pool: BufferPool, handles: map<PageId, FrameId>, id: PageId)
    returns (answer: Answer)
    requires pool.Valid() && HandlesOk(pool.View(), pool.pageTable, handles)
    modifies pool, pool.replacer, pool.pages
    ensures pool.Valid() && pool.replacer.log == old(pool.replacer.log) && HandlesOk(pool.View(), pool.pageTable, handles)
    ensures Step(pool.poolSize, old(pool.View()), Delete(id), answer, pool.View())
    ensures CacheStep(pool.replacer.k, old(pool.Cached()), Delete(id), answer, None, pool.Cached())
    ensures FileStep(old(pool.View()), Delete(id), answer, old(pool.Stored()), pool.Stored(), old(pool.disk.ops), pool.disk.ops)
  {
    hide BufferPool.OthersOk, BufferPool.View, BufferPool.Stored, BufferPool.Cached, CacheStep, Follows, CacheOk;
    pool.CachedIsTable();
    var ok := pool.DeletePage(id);
    answer := Done(ok);
    DeleteFrees(pool.replacer.k, old(pool.Cached()), old(pool.pageTable), id, ok, pool.Cached());
    ghost var s, s' := old(pool.View()), pool.View();
    forall i | i in s' && i != id ensures i in s && s'[i] == s[i] {
      if ok && id in s {
        assert i in s' - {id} && (s' - {id})[i] == (s - {id})[i];
      }
    }
  }

  // ---------- A write that is lost ----------

  ghost predicate NonePinned(s: Pool) {
    forall id :: id in s ==> s[id].pins == 0
  }

  ghost predicate OneFrame(pool: BufferPool, accesses: nat)
    reads pool, pool.disk, pool.replacer, pool.pages
  {
    pool.Valid() && pool.poolSize == 1 && NonePinned(pool.View()) && |pool.replacer.log| <= accesses
  }

  lemma RoomForOne(pool: BufferPool, accesses: nat)
    requires OneFrame(pool, accesses)
    ensures !pool.AllPinned() && !Full(pool.View(), 1) && pool.replacer.currentTimestamp <= accesses
  {
    pool.FullMeansAllPinned();
    pool.ClockIsLog({});
    assert Pinned(pool.View()) == {};
  }

  /** Making a page and giving up its only pin again leaves no page pinned. */
  lemma StillNonePinned(s: Pool, s': Pool, s'': Pool, id: PageId)
    requires NonePinned(s) && Elsewhere(s, s', id) && id in s'
    requires s''.Keys == s'.Keys && s''[id].pins == 0 && forall i :: i in s' && i != id ==> s''[i] == s'[i]
    ensures NonePinned(s'')
  {
    forall i | i in s'' && i != id ensures s''[i].pins == 0 {
      assert i in s'.Keys - {id} && i in s;
    }
  }

  /** Writes to a new page and gives up its pin without saying so. */
  method WriteUnreported(pool: BufferPool, data: PageData) returns (ghost s1: Pool, ghost s2: Pool)
    requires OneFrame(pool, 0) && pool.disk.nextPageId == 0
    modifies pool, pool.disk, pool.replacer, pool.pages
    ensures OneFrame(pool, 1) && pool.disk.nextPageId == 1
    ensures 0 in pool.View() && !pool.DirtyAt(0) && pool.disk.Block(0) == ZEROS
    ensures Step(1, old(pool.View()), New, Created(Some(0)), s1) && Step(1, s1, Write(0, data), Done(true), s2)
    ensures Step(1, s2, Unpin(0, false), Done(true), pool.View())
  {
    hide BufferPool.OthersOk, BufferPool.View, BufferPool.Cached, BufferPool.AllPinned, BufferPool.DirtyAt, BufferPool.Stored, NonePinned, DiskManager.Block, Elsewhere, Anchored;
    RoomForOne(pool, 0);
    var page := pool.NewPage();
    s1 := pool.View();
    pool.WriteData(page.value, data);
    s2 := pool.View();
    var ok := pool.UnpinPage(0, false);
    StillNonePinned(old(pool.View()), s1, pool.View(), 0);
  }

  /** Another page takes the frame. */
  method TakeItsFrame(pool: BufferPool) returns (ghost s1: Pool)
    requires OneFrame(pool, 1) && pool.disk.nextPageId == 1
    requires 0 in pool.View() && !pool.DirtyAt(0) && pool.disk.Block(0) == ZEROS
    modifies pool, pool.disk, pool.replacer, pool.pages
    ensures OneFrame(pool, 2) && 0 in pool.View() && pool.View()[0] == PageState(ZEROS, 0, false)
    ensures Step(1, old(pool.View()), New, Created(Some(1)), s1) && Step(1, s1, Unpin(1, false), Done(true), pool.View())
  {
    hide BufferPool.OthersOk, BufferPool.View, BufferPool.Cached, BufferPool.AllPinned, BufferPool.DirtyAt, BufferPool.Stored, NonePinned, DiskManager.Block, Anchored;
    RoomForOne(pool, 1);
    assert pool.Kept(0) == ZEROS;
    var other := pool.NewPage();
    s1 := pool.View();
    OnlyPage(pool, other.value, 0);
    var ok := pool.UnpinPage(1, false);
    StillNonePinned(old(pool.View()), s1, pool.View(), 1);
  }

  /** In a single frame there is one page, so all others are as on disk. */
  lemma OnlyPage(pool: BufferPool, page: Handle, id: PageId)
    requires pool.Valid() && pool.poolSize == 1 && pool.Holds(page) && id != page.id && id in pool.View()
    ensures pool.View()[id] == PageState(pool.disk.Block(id), 0, false)
  {
    assert pool.EntryOk(page.id);
    assert id in pool.pageTable ==> pool.EntryOk(id);
  }

  /** The run of a client that writes a page and does not say so, in a pool with one frame. */
  function LossyRun(data: PageData): seq<Op> {
    [New, Write(0, data), Unpin(0, false), New, Unpin(1, false), Fetch(0)]
  }

  function LossyAnswers(): seq<Answer> {
    [Created(Some(0)), Done(true), Done(true), Created(Some(1)), Done(true), Fetched(Some(ZEROS))]
  }

  /** The page was last written with `data`, but the fetch gives zeros. */
  method LosesWrite(data: PageData) returns (answers: seq<Answer>, ghost states: seq<Pool>)
    ensures IsRun(1, states, LossyRun(data), answers)
    ensures LastWritten(LossyRun(data)[..5], answers[..5], 0) == Some(data) && answers[5] == Fetched(Some(ZEROS))
  {
    hide Step, LastWritten, BufferPool.OthersOk, BufferPool.View, BufferPool.Cached, BufferPool.Stored, BufferPool.DirtyAt, NonePinned;
    var disk := new DiskManager();
    var pool := new BufferPool(1, disk, 2);
    ghost var s0, s1, s2, s3, s4, s5 := pool.View(), pool.View(), pool.View(), pool.View(), pool.View(), pool.View();
    EmptyAtFirst(pool);
    s1, s2 := WriteUnreported(pool, data);
    s3 := pool.View();
    s4 := TakeItsFrame(pool);
    s5 := pool.View();
    var fetched := FetchLost(pool);
    answers, states := [Created(Some(0)), Done(true), Done(true), Created(Some(1)), Done(true), Fetched(Some(fetched))],
                       [s0, s1, s2, s3, s4, s5, pool.View()];
    LossyLast(data);
    assert answers == LossyAnswers();
  }

  lemma EmptyAtFirst(pool: BufferPool)
    requires pool.Valid() && pool.poolSize == 1 && pool.disk.nextPageId == 0 && pool.replacer.log == []
    ensures OneFrame(pool, 0) && pool.View() == map[]
  {
    assert pool.View().Keys == {};
  }

  method FetchLost(pool: BufferPool) returns (fetched: PageData)
    requires OneFrame(pool, 2) && 0 in pool.View() && pool.View()[0] == PageState(ZEROS, 0, false)
    modifies pool, pool.disk`blocks, pool.disk`ops, pool.replacer, pool.pages
    ensures fetched == ZEROS && Step(1, old(pool.View()), Fetch(0), Fetched(Some(fetched)), pool.View())
  {
    RoomForOne(pool, 2);
    pool.FullMeansAllPinned();
    var page := pool.FetchPage(0);
    assert pool.EntryOk(0);
    fetched := pool.pages[page.value.frame].data;
  }

  lemma LossyLast(data: PageData)
    ensures LastWritten(LossyRun(data)[..5], LossyAnswers()[..5], 0) == Some(data)
  {
    var ops, answers := LossyRun(data), LossyAnswers();
    forall i | 0 < i <= 5 ensures ops[..i][..i - 1] == ops[..i - 1] && answers[..i][..i - 1] == answers[..i - 1] {
    }
    assert LastWritten(ops[..2], answers[..2], 0) == Some(data);
    assert LastWritten(ops[..3], answers[..3], 0) == Some(data);
    assert LastWritten(ops[..4], answers[..4], 0) == Some(data);
  }

  /**
   Any run of a client from the empty pool is a run of the store of pages, and the frames that it
   gives are those of LRU-K on the accesses of the run; and unless a fetch is risky, the file under
   the disk manager never has to read past its end.
   */
  method Run(poolSize: nat, replacerK: nat, ops: seq<Op>)
    returns (answers: seq<Answer>, frames: seq<Option<FrameId>>, ghost states: seq<Pool>, ghost stored: seq<set<PageId>>,
             ghost io: seq<DiskOp>, ghost caches: seq<Cache>)
    requires 0 < replacerK && |ops| < SIZE_MAX
    ensures exists run :: IsRun(poolSize, run, ops, answers)
    ensures IsRun(poolSize, states, ops, answers) && StoredRun(ops, answers, stored)
    ensures CacheRun(poolSize, replacerK, ops, answers, frames, caches)
    ensures forall i :: 0 <= i < |ops| && ops[i].Fetch? && (forall j :: 0 <= j <= i ==> Disciplined(states[j])) ==>
              var d := LastWritten(ops[..i], answers[..i], ops[i].id);
              d.Some? ==> answers[i] == Fetched(d) || (answers[i] == Fetched(None) && Full(states[i], poolSize))
    ensures (forall i :: 0 <= i < |ops| ==> !Risky(states[i], stored[i], ops[i])) ==> !ShortRead(io)
  {
    hide BufferPool.OthersOk, BufferPool.View, BufferPool.Stored, BufferPool.Cached, IsRun, StoredRun, CacheRun, HandlesOk, LastWritten, Risky, Disciplined;
    var disk := new DiskManager();
    var pool := new BufferPool(poolSize, disk, replacerK);
    answers, frames, states, stored, caches := [], [], [pool.View()], [pool.Stored()], [pool.Cached()];
    var handles: map<PageId, FrameId> := map[];
    RunBegins(pool, replacerK, ops[..0], handles);
    for n := 0 to |ops|
      invariant pool.Valid() && pool.poolSize == poolSize && pool.replacer.k == replacerK && fresh(pool) && fresh(pool.disk) && fresh(pool.replacer) && fresh(pool.pages)
      invariant |pool.replacer.log| <= n && HandlesOk(pool.View(), pool.pageTable, handles)
      invariant |answers| == |frames| == n && |states| == |stored| == |caches| == n + 1
      invariant IsRun(poolSize, states, ops[..n], answers) && states[n] == pool.View()
      invariant StoredRun(ops[..n], answers, stored) && stored[n] == pool.Stored()
      invariant CacheRun(poolSize, replacerK, ops[..n], answers, frames, caches) && caches[n] == pool.Cached()
      invariant ShortRead(pool.disk.ops) ==> exists i :: 0 <= i < n && Risky(states[i], stored[i], ops[i])
    {
      var answer, frame;
      pool.ClockIsLog({});
      answer, handles, frame := PerformNext(pool, handles, ops, n, states, answers, stored, frames, caches);
      answers, frames, states, stored := answers + [answer], frames + [frame], states + [pool.View()], stored + [pool.Stored()];
      caches := caches + [pool.Cached()];
    }
    io := pool.disk.ops;
    assert ops[..|ops|] == ops;
    forall i | 0 <= i < |ops| && ops[i].Fetch? && (forall j :: 0 <= j <= i ==> Disciplined(states[j]))
      ensures var d := LastWritten(ops[..i], answers[..i], ops[i].id);
              d.Some? ==> answers[i] == Fetched(d) || (answers[i] == Fetched(None) && Full(states[i], poolSize))
    {
      FetchSeesLast(poolSize, states, ops, answers, i);
    }
  }

  lemma RunBegins(pool: BufferPool, k: nat, ops: seq<Op>, handles: map<PageId, FrameId>)
    requires pool.Valid() && pool.disk.nextPageId == 0 && pool.Cached() == EmptyCache(pool.poolSize) && ops == [] && handles == map[]
    ensures IsRun(pool.poolSize, [pool.View()], ops, []) && StoredRun(ops, [], [pool.Stored()])
    ensures CacheRun(pool.poolSize, k, ops, [], [], [pool.Cached()]) && HandlesOk(pool.View(), pool.pageTable, handles)
  {
    assert pool.View().Keys == {};
  }

  ghost predicate StoredRun(ops: seq<Op>, answers: seq<Answer>, stored: seq<set<PageId>>) {
    && |answers| == |ops| && |stored| == |ops| + 1
    && forall i :: 0 <= i < |ops| ==> StoredStep(ops[i], answers[i], stored[i], stored[i + 1])
  }

  /** The next operation of a run. */
  method PerformNext(pool: BufferPool, handles: map<PageId, FrameId>, ops: seq<Op>, n: nat,
                     ghost states: seq<Pool>, ghost answers: seq<Answer>, ghost stored: seq<set<PageId>>,
                     ghost frames: seq<Option<FrameId>>, ghost caches: seq<Cache>)
    returns (answer: Answer, handles': map<PageId, FrameId>, frame: Option<FrameId>)
    requires n < |ops| && pool.Valid() && pool.replacer.currentTimestamp < SIZE_MAX
    requires HandlesOk(pool.View(), pool.pageTable, handles)
    requires IsRun(pool.poolSize, states, ops[..n], answers) && states[n] == pool.View()
    requires StoredRun(ops[..n], answers, stored) && stored[n] == pool.Stored()
    requires CacheRun(pool.poolSize, pool.replacer.k, ops[..n], answers, frames, caches) && caches[n] == pool.Cached()
    modifies pool, pool.disk, pool.replacer, pool.pages
    ensures pool.Valid() && |pool.replacer.log| <= |old(pool.replacer.log)| + 1
    ensures HandlesOk(pool.View(), pool.pageTable, handles')
    ensures IsRun(pool.poolSize, states + [pool.View()], ops[..n + 1], answers + [answer])
    ensures StoredRun(ops[..n + 1], answers + [answer], stored + [pool.Stored()])
    ensures CacheRun(pool.poolSize, pool.replacer.k, ops[..n + 1], answers + [answer], frames + [frame], caches + [pool.Cached()])
    ensures ShortRead(pool.disk.ops) ==> old(ShortRead(pool.disk.ops)) || Risky(states[n], stored[n], ops[n])
  {
    hide BufferPool.OthersOk, BufferPool.View, BufferPool.Stored, BufferPool.Cached, Step, StoredStep, CacheStep, ShortRead;
    answer, handles', frame := Perform(pool, handles, ops[n]);
    RunNext(pool.poolSize, states, ops, n, answers, answer, pool.View());
    StoredNext(ops, n, answers, answer, stored, pool.Stored());
    CacheNext(pool.poolSize, pool.replacer.k, ops, n, answers, answer, frames, frame, caches, pool.Cached());
  }

  lemma CacheNext(n: nat, k: nat, ops: seq<Op>, m: nat, answers: seq<Answer>, answer: Answer,
                  frames: seq<Option<FrameId>>, frame: Option<FrameId>, caches: seq<Cache>, next: Cache)
    requires m < |ops| && CacheRun(n, k, ops[..m], answers, frames, caches) && CacheStep(k, caches[m], ops[m], answer, frame, next)
    ensures CacheRun(n, k, ops[..m + 1], answers + [answer], frames + [frame], caches + [next])
  {
    var answers', frames', caches' := answers + [answer], frames + [frame], caches + [next];
    forall i | 0 <= i < m + 1 ensures CacheStep(k, caches'[i], ops[..m + 1][i], answers'[i], frames'[i], caches'[i + 1]) {
      if i < m {
        assert CacheStep(k, caches[i], ops[..m][i], answers[i], frames[i], caches[i + 1]);
      }
    }
  }

  lemma StoredNext(ops: seq<Op>, m: nat, answers: seq<Answer>, answer: Answer, stored: seq<set<PageId>>, next: set<PageId>)
    requires m < |ops| && StoredRun(ops[..m], answers, stored) && StoredStep(ops[m], answer, stored[m], next)
    ensures StoredRun(ops[..m + 1], answers + [answer], stored + [next])
  {
    var answers', stored' := answers + [answer], stored + [next];
    forall i | 0 <= i < m + 1 ensures StoredStep(ops[..m + 1][i], answers'[i], stored'[i], stored'[i + 1]) {
      if i < m {
        assert StoredStep(ops[..m][i], answers[i], stored[i], stored[i + 1]);
      }
    }
  }

  lemma RunNext(n: nat, states: seq<Pool>, ops: seq<Op>, m: nat, answers: seq<Answer>, answer: Answer, s: Pool)
    requires m < |ops| && IsRun(n, states, ops[..m], answers) && Step(n, states[m], ops[m], answer, s)
    ensures IsRun(n, states + [s], ops[..m + 1], answers + [answer])
  {
    var states', answers' := states + [s], answers + [answer];
    forall i | 0 <= i < m + 1 ensures Step(n, states'[i], ops[..m + 1][i], answers'[i], states'[i + 1]) {
      if i < m {
        assert Step(n, states[i], ops[..m][i], answers[i], states[i + 1]);
      }
    }
  }
}
