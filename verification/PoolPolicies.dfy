/**
 The frames of a buffer pool as its clients could keep track of them: which page is in which
 frame, when it was accessed, how often it is pinned, whether it is marked dirty, and which frame
 makes room next.
 */
module PoolPolicies {
  import opened Types
  import opened LruKReplacers

  /** A page in a frame, with the times of its accesses since it entered, and whether it is marked dirty. */
  datatype Resident = Resident(id: PageId, times: seq<nat>, pins: nat, dirty: bool)

  /** The number of accesses so far, the free frames in the order in which they will be taken, and the others. */
  datatype Cache = Cache(time: nat, free: seq<FrameId>, residents: map<FrameId, Resident>)

  function EmptyCache(n: nat): Cache {
    Cache(0, seq(n, i => i), map[])
  }

  /** Page `id` is in frame `f`. */
  ghost predicate At(c: Cache, id: PageId, f: FrameId) {
    f in c.residents && c.residents[f].id == id
  }

  ghost predicate IsCached(c: Cache, id: PageId) {
    exists f :: At(c, id, f)
  }

  /** The pages are where the table says they are. */
  ghost predicate Follows(c: Cache, table: map<PageId, FrameId>) {
    forall id, f :: At(c, id, f) <==> id in table && table[id] == f
  }

  lemma CachedInTable(c: Cache, table: map<PageId, FrameId>, id: PageId)
    requires Follows(c, table)
    ensures IsCached(c, id) <==> id in table
  {
    assert id in table ==> At(c, id, table[id]);
  }

  /** Of all frames whose page is not pinned, the LRU-K policy puts `f` first. */
  ghost predicate IsNext(c: Cache, k: nat, f: FrameId) {
    && f in c.residents && c.residents[f].pins == 0 && 0 < |c.residents[f].times|
    && forall g :: g in c.residents && c.residents[g].pins == 0 && g != f ==>
         0 < |c.residents[g].times| && GoesBefore(c.residents[f].times, c.residents[g].times, k)
  }

  /** The frame that a page which is in none is put into. */
  ghost predicate MakesRoom(c: Cache, k: nat, f: FrameId) {
    if c.free != [] then f == c.free[0] else IsNext(c, k, f)
  }

  /** Frame `f` has been emptied, or taken off the free list. */
  function Vacated(c: Cache, f: FrameId): Cache {
    Cache(c.time, if c.free != [] then c.free[1..] else [], c.residents - {f})
  }

  /** Page `id` has entered frame `f`. */
  function Entered(c: Cache, f: FrameId, id: PageId): Cache {
    Cache(c.time + 1, if c.free != [] then c.free[1..] else [], c.residents[f := Resident(id, [c.time], 1, false)])
  }

  /** Page `id` has been put into the frame `f`, which was neither free nor in use. */
  function Installed(c: Cache, f: FrameId, id: PageId): Cache {
    Cache(c.time + 1, c.free, c.residents[f := Resident(id, [c.time], 1, false)])
  }

  lemma VacatedThenInstalled(c: Cache, f: FrameId, id: PageId)
    ensures Installed(Vacated(c, f), f, id) == Entered(c, f, id)
  {
    assert (c.residents - {f})[f := Resident(id, [c.time], 1, false)] == c.residents[f := Resident(id, [c.time], 1, false)];
  }

  /** The page in frame `f` has been accessed and pinned once more. */
  function Touched(c: Cache, f: FrameId): Cache
    requires f in c.residents
  {
    var r := c.residents[f];
    Cache(c.time + 1, c.free, c.residents[f := r.(times := r.times + [c.time], pins := r.pins + 1)])
  }

  /** A pin of the page in frame `f` has been given back, with a report whether the page was written. */
  function GivenBack(c: Cache, f: FrameId, isDirty: bool): Cache
    requires f in c.residents
  {
    var r := c.residents[f];
    c.(residents := c.residents[f := r.(pins := if r.pins > 0 then r.pins - 1 else 0, dirty := r.dirty || isDirty)])
  }

  /** The page in frame `f` has been deleted. */
  function Freed(c: Cache, f: FrameId): Cache {
    Cache(c.time, c.free + [f], c.residents - {f})
  }

  /** The pages `ids` have been written to disk. */
  function Cleaned(c: Cache, ids: set<PageId>): Cache {
    c.(residents := map f | f in c.residents :: var r := c.residents[f]; r.(dirty := r.dirty && r.id !in ids))
  }

  lemma CleanedTwice(c: Cache, a: set<PageId>, b: set<PageId>)
    ensures Cleaned(Cleaned(c, a), b) == Cleaned(c, a + b) && Cleaned(c, {}) == c
  {
    forall f | f in c.residents ensures Cleaned(c, {}).residents[f] == c.residents[f] {
      var r := c.residents[f];
      assert r.(dirty := r.dirty) == r;
    }
    assert Cleaned(c, {}).residents == c.residents;
  }

  /** Every page is in one frame, and has been accessed; every other frame is free once. */
  ghost predicate CacheOk(c: Cache) {
    && (forall i :: 0 <= i < |c.free| ==> c.free[i] !in c.residents)
    && (forall i, j :: 0 <= i < j < |c.free| ==> c.free[i] != c.free[j])
    && (forall f, g :: f in c.residents && g in c.residents && f != g ==> c.residents[f].id != c.residents[g].id)
    && (forall f :: f in c.residents ==> 0 < |c.residents[f].times|)
  }

  /** Which frame makes room does not depend on the order in which frames are looked at. */
  lemma OneMakesRoom(c: Cache, k: nat, f: FrameId, g: FrameId)
    requires MakesRoom(c, k, f) && MakesRoom(c, k, g)
    ensures f == g
  {
  }

  // ---------- The residents of an array of frames ----------

  /** What a frame holds, as far as the policy looks at it. */
  datatype Occupant = Occupant(id: PageId, pins: nat, dirty: bool)

  function Residents(traces: Traces, occupants: seq<Occupant>): map<FrameId, Resident> {
    map f | f in traces && 0 <= f < |occupants| :: Resident(occupants[f].id, traces[f], occupants[f].pins, occupants[f].dirty)
  }

  lemma ResidentsWithout(traces: Traces, occupants: seq<Occupant>, f: FrameId)
    ensures Residents(traces - {f}, occupants) == Residents(traces, occupants) - {f}
  {
  }

  lemma ResidentsElsewhere(traces: Traces, occupants: seq<Occupant>, f: FrameId, o: Occupant)
    requires 0 <= f < |occupants| && f !in traces
    ensures Residents(traces, occupants[f := o]) == Residents(traces, occupants)
  {
  }

  lemma ResidentChanged(traces: Traces, occupants: seq<Occupant>, f: FrameId, o: Occupant)
    requires 0 <= f < |occupants| && f in traces
    ensures Residents(traces, occupants[f := o]) == Residents(traces, occupants)[f := Resident(o.id, traces[f], o.pins, o.dirty)]
  {
  }

  lemma ResidentAccessed(traces: Traces, occupants: seq<Occupant>, f: FrameId, time: nat)
    requires 0 <= f < |occupants|
    ensures var times := if f in traces then traces[f] + [time] else [time];
            Residents(Accessed(traces, f, time), occupants) ==
            Residents(traces, occupants)[f := Resident(occupants[f].id, times, occupants[f].pins, occupants[f].dirty)]
  {
    assert [] + [time] == [time];
  }
}
