/**
 What a buffer pool means to its clients: every allocated page has contents, a number of
 pins, and a mark when someone has written it and nobody has said so yet.  Frames, the free
 list and evictions do not show.
 */
module PoolStates {
  import opened Types

  datatype PageState = PageState(data: PageData, pins: nat, unreported: bool)

  type Pool = map<PageId, PageState>

  function Pinned(s: Pool): set<PageId> {
    set id | id in s && s[id].pins > 0
  }

  /** Every one of `n` frames holds a pinned page. */
  predicate Full(s: Pool, n: nat) {
    |Pinned(s)| == n
  }

  /** A page that may be evicted without losing what was written to it. */
  predicate Settled(p: PageState) {
    p.unreported ==> p.pins > 0
  }

  /** Every write has been reported by the time the page's last pin is gone. */
  predicate Disciplined(s: Pool) {
    forall id :: id in s ==> Settled(s[id])
  }

  /** Evicting page `p` keeps it, unless an unreported write is lost with it. */
  predicate MayBecome(p: PageState, p': PageState) {
    p' == p || (!Settled(p) && p'.pins == 0 && !p'.unreported)
  }

  /** Apart from page `id`, evictions are all that may have happened. */
  predicate Elsewhere(s: Pool, s': Pool, id: PageId) {
    && s'.Keys - {id} == s.Keys - {id}
    && forall i :: i in s && i != id ==> i in s' && MayBecome(s[i], s'[i])
  }

  /** Pinned pages stay in the frames they are in, so that page pointers keep their meaning. */
  predicate Anchored(s: Pool, table: map<PageId, FrameId>, table': map<PageId, FrameId>) {
    forall i :: i in s && s[i].pins > 0 ==> i in table && i in table' && table'[i] == table[i]
  }

  lemma AnchoredStill(s: Pool, table: map<PageId, FrameId>, table': map<PageId, FrameId>, id: PageId, f: FrameId)
    requires Anchored(s, table, table') && (id !in table || id !in s)
    ensures Anchored(s, table, table'[id := f])
  {
  }

  /** Evictions and then a change of page `id`. */
  lemma ChangeAfterEvictions(s: Pool, s': Pool, id: PageId, p: PageState)
    requires Elsewhere(s, s', INVALID_PAGE_ID) && INVALID_PAGE_ID !in s && INVALID_PAGE_ID !in s'
    ensures Elsewhere(s, s'[id := p], id)
  {
    assert s.Keys == s'.Keys by {
      assert s'.Keys - {INVALID_PAGE_ID} == s'.Keys && s.Keys - {INVALID_PAGE_ID} == s.Keys;
    }
  }

  /** In a disciplined pool evictions do not show at all. */
  lemma DisciplinedElsewhere(s: Pool, s': Pool, id: PageId)
    requires Disciplined(s) && Elsewhere(s, s', id)
    ensures forall i :: i in s && i != id ==> i in s' && s'[i] == s[i]
    ensures id in s ==> s' - {id} == s - {id}
  {
    forall i | i in s && i != id ensures i in s' && s'[i] == s[i] {
      assert i in s'.Keys - {id};
    }
  }

  /** A set and its image under an injective table have equally many members. */
  lemma {:induction false} SameCount(ids: set<PageId>, frames: set<FrameId>, table: map<PageId, FrameId>)
    requires ids <= table.Keys
    requires forall i, j :: i in ids && j in ids && i != j ==> table[i] != table[j]
    requires frames == set i | i in ids :: table[i]
    ensures |ids| == |frames|
    decreases ids
  {
    if ids != {} {
      var i := SomeMember(ids);
      assert ids == ids - {i} + {i};
      SameCount(ids - {i}, frames - {table[i]}, table);
    }
  }

  /** `n` different frames below `n` are all of them. */
  lemma {:induction false} AllFrames(frames: set<FrameId>, n: nat)
    requires forall f :: f in frames ==> 0 <= f < n
    ensures |frames| <= n
    ensures |frames| == n <==> forall f :: 0 <= f < n ==> f in frames
    decreases n
  {
    if n > 0 {
      AllFrames(frames - {n - 1}, n - 1);
      assert n - 1 in frames ==> frames == frames - {n - 1} + {n - 1};
      assert n - 1 !in frames ==> frames == frames - {n - 1};
    } else if frames != {} {
      var f := SomeMember(frames);
      assert false;
    }
  }
}
