/**
 The page store that the index works on is a buffer pool seen through the index's own pages:
 in any run of the pool, shared with any clients that leave four frames unpinned, every page
 the index fetches has the bytes of the value last written, and no call that it makes fails,
 whatever the others have pinned and whatever has been evicted.
 */
module TreeOnPool {
  import opened Types
  import opened TreePages
  import opened PageStores
  import opened PoolStates
  import opened DiskManagers
  import LruKReplacers
  import PoolRuns

  // ---------- The store and the pool ----------

  /** The pinned pages of other clients. */
  function Others(s: Pool, nodes: map<PageId, Node>): set<PageId> {
    Pinned(s) - nodes.Keys
  }

  /** The bytes of a page of the index, laid out by `encode`. */
  function Bytes(encode: Node -> PageData, t: Store, id: PageId): PageData
    requires id in t.image.nodes
  {
    if id in t.blank then ZEROS else encode(t.image.nodes[id])
  }

  /** Page `id` is in the pool as the store has it; someone may have flushed it to the disk. */
  ghost predicate PageMirrored(encode: Node -> PageData, s: Pool, t: Store, id: PageId)
    requires id in t.image.nodes
  {
    && id in s && s[id].data == Bytes(encode, t, id) && s[id].pins == t.pins[id]
    && (s[id].unreported ==> id in t.image.unsaved)
  }

  ghost predicate Mirrors(encode: Node -> PageData, n: nat, s: Pool, t: Store) {
    && Disciplined(s)
    && (forall id {:trigger PageMirrored(encode, s, t, id)} :: id in t.image.nodes ==> PageMirrored(encode, s, t, id))
    && (forall id :: id in t.pins ==> id in t.image.nodes)
    && |Others(s, t.image.nodes)| + PIN_LIMIT <= n
  }

  /** What the index asks of the pool. */
  function OpOf(encode: Node -> PageData, e: Event): PoolRuns.Op {
    match e
    case Made(_) => PoolRuns.New
    case Read(id, _) => PoolRuns.Fetch(id)
    case Wrote(id, node) => PoolRuns.Write(id, encode(node))
    case GaveBack(id, isDirty) => PoolRuns.Unpin(id, isDirty)
    case Dropped(id) => PoolRuns.Delete(id)
  }

  /** The answer that the index worked with. */
  function AnswerOf(encode: Node -> PageData, e: Event): PoolRuns.Answer {
    match e
    case Made(id) => PoolRuns.Created(Some(id))
    case Read(_, node) => PoolRuns.Fetched(Some(encode(node)))
    case Wrote(_, _) => PoolRuns.Done(true)
    case GaveBack(_, _) => PoolRuns.Done(true)
    case Dropped(_) => PoolRuns.Done(true)
  }

  // ---------- Room ----------

  /** No more different pages are pinned than there are pins. */
  lemma {:induction false} PinsCount(ids: set<PageId>, pins: multiset<PageId>)
    requires forall id :: id in ids ==> id in pins
    ensures |ids| <= |pins|
    decreases ids
  {
    if ids != {} {
      var id := SomeMember(ids);
      assert ids == ids - {id} + {id};
      PinsCount(ids - {id}, pins - multiset{id});
    }
  }

  /** While the index holds fewer than its four pins, not every frame is pinned. */
  lemma NeverFull(encode: Node -> PageData, n: nat, s: Pool, t: Store)
    requires Mirrors(encode, n, s, t) && |t.pins| < PIN_LIMIT
    ensures !Full(s, n)
  {
    var ours := Pinned(s) * t.image.nodes.Keys;
    forall id | id in ours ensures id in t.pins {
      assert PageMirrored(encode, s, t, id);
    }
    PinsCount(ours, t.pins);
    assert Pinned(s) == Others(s, t.image.nodes) + ours;
  }

  lemma SubsetCount(a: set<PageId>, b: set<PageId>)
    requires a <= b
    ensures |a| <= |b|
  {
    assert b == a + (b - a);
  }

  // ---------- One step of the index ----------

  /** A change of one page of the index, and evictions elsewhere, keep the store mirrored. */
  lemma MirrorsChanged(encode: Node -> PageData, n: nat, s: Pool, s': Pool, t: Store, t': Store, id: PageId)
    requires Mirrors(encode, n, s, t) && Elsewhere(s, s', id)
    requires t.image.nodes.Keys <= t'.image.nodes.Keys <= t.image.nodes.Keys + {id}
    requires forall i :: i in t.image.nodes && i != id ==> t'.image.nodes[i] == t.image.nodes[i]
    requires forall i :: i != id ==> t'.pins[i] == t.pins[i]
    requires forall i :: i != id ==> (i in t'.image.unsaved <==> i in t.image.unsaved) && (i in t'.blank <==> i in t.blank)
    requires id in t'.image.nodes && PageMirrored(encode, s', t', id) && Settled(s'[id])
    ensures Mirrors(encode, n, s', t')
  {
    hide Others;
    DisciplinedElsewhere(s, s', id);
    forall i | i in t'.image.nodes ensures PageMirrored(encode, s', t', i) {
      if i != id {
        assert PageMirrored(encode, s, t, i);
      }
    }
    forall i | i in s' && i != id ensures i in s && s'[i] == s[i] {
      assert i in s'.Keys - {id};
    }
    forall i | i in t'.pins ensures i in t'.image.nodes {
      assert i != id ==> i in t.pins;
    }
    OthersShrink(s, s', t.image.nodes, t'.image.nodes, id);
  }

  lemma OthersShrink(s: Pool, s': Pool, nodes: map<PageId, Node>, nodes': map<PageId, Node>, id: PageId)
    requires nodes.Keys <= nodes'.Keys && id in nodes'
    requires forall i :: i in s' && i != id ==> i in s && s[i] == s'[i]
    ensures |Others(s', nodes')| <= |Others(s, nodes)|
  {
    assert Others(s', nodes') <= Others(s, nodes);
    SubsetCount(Others(s', nodes'), Others(s, nodes));
  }

  /** A fetch succeeds, pins the page and shows what the index wrote. */
  lemma ReadMirrored(encode: Node -> PageData, n: nat, s: Pool, t: Store, id: PageId, node: Node, answer: PoolRuns.Answer, s': Pool)
    requires Mirrors(encode, n, s, t) && Next(t, Read(id, node)).Some?
    requires PoolRuns.Step(n, s, PoolRuns.Fetch(id), answer, s')
    ensures answer == PoolRuns.Fetched(Some(encode(node)))
    ensures Mirrors(encode, n, s', Next(t, Read(id, node)).value)
  {
    NeverFull(encode, n, s, t);
    assert PageMirrored(encode, s, t, id);
    MirrorsChanged(encode, n, s, s', t, Next(t, Read(id, node)).value, id);
  }

  /** A new page is made; the index is given its id. */
  lemma MadeMirrored(encode: Node -> PageData, n: nat, s: Pool, t: Store, id: PageId, answer: PoolRuns.Answer, s': Pool)
    requires Mirrors(encode, n, s, t) && Next(t, Made(id)).Some?
    requires PoolRuns.Step(n, s, PoolRuns.New, answer, s')
    requires answer.Created? && answer.id.Some? ==> answer.id.value == id
    ensures answer == PoolRuns.Created(Some(id))
    ensures Mirrors(encode, n, s', Next(t, Made(id)).value)
  {
    NeverFull(encode, n, s, t);
    assert id !in t.pins;
    MirrorsChanged(encode, n, s, s', t, Next(t, Made(id)).value, id);
  }

  /** A write to a pinned page. */
  lemma WroteMirrored(encode: Node -> PageData, n: nat, s: Pool, t: Store, id: PageId, node: Node, answer: PoolRuns.Answer, s': Pool)
    requires Mirrors(encode, n, s, t) && Next(t, Wrote(id, node)).Some?
    requires PoolRuns.Step(n, s, PoolRuns.Write(id, encode(node)), answer, s')
    ensures answer == PoolRuns.Done(true)
    ensures Mirrors(encode, n, s', Next(t, Wrote(id, node)).value)
  {
    assert PageMirrored(encode, s, t, id);
    MirrorsChanged(encode, n, s, s', t, Next(t, Wrote(id, node)).value, id);
  }

  /** An unpin that reports the last write in time. */
  lemma GaveBackMirrored(encode: Node -> PageData, n: nat, s: Pool, t: Store, id: PageId, isDirty: bool,
                         answer: PoolRuns.Answer, s': Pool)
    requires Mirrors(encode, n, s, t) && Next(t, GaveBack(id, isDirty)).Some?
    requires PoolRuns.Step(n, s, PoolRuns.Unpin(id, isDirty), answer, s')
    ensures answer == PoolRuns.Done(true)
    ensures Mirrors(encode, n, s', Next(t, GaveBack(id, isDirty)).value)
  {
    assert PageMirrored(encode, s, t, id);
    MirrorsChanged(encode, n, s, s', t, Next(t, GaveBack(id, isDirty)).value, id);
  }

  /** A page of the index that is not pinned is deleted. */
  lemma DroppedMirrored(encode: Node -> PageData, n: nat, s: Pool, t: Store, id: PageId, answer: PoolRuns.Answer, s': Pool)
    requires Mirrors(encode, n, s, t) && Next(t, Dropped(id)).Some?
    requires PoolRuns.Step(n, s, PoolRuns.Delete(id), answer, s')
    ensures answer == PoolRuns.Done(true)
    ensures Mirrors(encode, n, s', Next(t, Dropped(id)).value)
  {
    assert PageMirrored(encode, s, t, id);
    var t' := Next(t, Dropped(id)).value;
    forall i | i in s && i != id ensures i in s' && s'[i] == s[i] {
      assert i in s - {id} && (s' - {id})[i] == (s - {id})[i];
    }
    forall i | i in t'.image.nodes ensures PageMirrored(encode, s', t', i) {
      assert PageMirrored(encode, s, t, i);
    }
    assert Others(s', t'.image.nodes) <= Others(s, t.image.nodes);
    SubsetCount(Others(s', t'.image.nodes), Others(s, t.image.nodes));
  }

  /** Whatever the index asks, the pool answers what it worked with. */
  lemma EventMirrored(encode: Node -> PageData, n: nat, s: Pool, t: Store, e: Event, answer: PoolRuns.Answer, s': Pool)
    requires Mirrors(encode, n, s, t) && Next(t, e).Some?
    requires PoolRuns.Step(n, s, OpOf(encode, e), answer, s') && GivenId(e, answer)
    ensures answer == AnswerOf(encode, e)
    ensures Mirrors(encode, n, s', Next(t, e).value)
  {
    hide Mirrors, Next, PoolRuns.Step;
    match e
    case Made(id) => MadeMirrored(encode, n, s, t, id, answer, s');
    case Read(id, node) => ReadMirrored(encode, n, s, t, id, node, answer, s');
    case Wrote(id, node) => WroteMirrored(encode, n, s, t, id, node, answer, s');
    case GaveBack(id, isDirty) => GaveBackMirrored(encode, n, s, t, id, isDirty, answer, s');
    case Dropped(id) => DroppedMirrored(encode, n, s, t, id, answer, s');
  }

  /** A page that the index makes has the id that the pool gave it. */
  ghost predicate GivenId(e: Event, answer: PoolRuns.Answer) {
    e.Made? && answer.Created? && answer.id.Some? ==> answer.id.value == e.id
  }

  // ---------- Steps of other clients ----------

  /** Other clients may flush the pages of the index, but not write, pin, unpin or delete them. */
  predicate KeepsOff(op: PoolRuns.Op, nodes: map<PageId, Node>) {
    match op
    case Fetch(id) => id !in nodes
    case Write(id, _) => id !in nodes
    case Unpin(id, _) => id !in nodes
    case Delete(id) => id !in nodes
    case _ => true
  }

  /** They report their own writes in time and leave the index its frames. */
  ghost predicate Considerate(n: nat, op: PoolRuns.Op, s': Pool, nodes: map<PageId, Node>) {
    KeepsOff(op, nodes) && Disciplined(s') && |Others(s', nodes)| + PIN_LIMIT <= n
  }

  lemma OthersMirrored(encode: Node -> PageData, n: nat, s: Pool, t: Store, op: PoolRuns.Op, answer: PoolRuns.Answer, s': Pool)
    requires Mirrors(encode, n, s, t) && PoolRuns.Step(n, s, op, answer, s') && Considerate(n, op, s', t.image.nodes)
    ensures Mirrors(encode, n, s', t)
  {
    forall id | id in t.image.nodes ensures PageMirrored(encode, s', t, id) {
      assert PageMirrored(encode, s, t, id);
      PageUntouched(n, s, op, answer, s', id);
    }
  }

  /** In a disciplined pool an operation elsewhere leaves a page alone, but may write it to the disk. */
  lemma PageUntouched(n: nat, s: Pool, op: PoolRuns.Op, answer: PoolRuns.Answer, s': Pool, id: PageId)
    requires PoolRuns.Step(n, s, op, answer, s') && Disciplined(s) && id in s && KeepsOff(op, map[id := BLANK])
    ensures id in s' && (s'[id] == s[id] || s'[id] == PoolRuns.Reported(s[id]))
  {
    match op
    case New =>
      if answer.Created? && answer.id.Some? {
        DisciplinedElsewhere(s, s', answer.id.value);
      }
    case Fetch(i) =>
      if i in s && s' != s {
        DisciplinedElsewhere(s, s', i);
      }
    case Delete(i) =>
      if i in s {
        assert id in s - {i} && (s' != s && s[i].pins == 0 ==> (s' - {i})[id] == (s - {i})[id]);
      }
    case _ =>
  }

  // ---------- Whole runs ----------

  /** The events of the index in a run; `None` marks the operations of others. */
  function Events(ours: seq<Option<Event>>): seq<Event> {
    if ours == [] then [] else
      var n := |ours| - 1;
      Events(ours[..n]) + if ours[n].Some? then [ours[n].value] else []
  }

  /** What the index has stored before operation `i`. */
  function StoreAt(ours: seq<Option<Event>>, i: nat): (t: Option<Store>)
    requires i <= |ours|
  {
    Replay(Events(ours[..i]))
  }

  lemma ReplayEvents(ours: seq<Option<Event>>)
    requires ours != []
    ensures var n := |ours| - 1;
            var before := Replay(Events(ours[..n]));
            Replay(Events(ours)) == if ours[n].None? || before.None? then before else Next(before.value, ours[n].value)
  {
    hide Next;
    var n := |ours| - 1;
    if ours[n].Some? {
      ReplayNext(Events(ours[..n]), ours[n].value);
    } else {
      assert Events(ours) == Events(ours[..n]);
    }
  }

  lemma {:induction false} StoresBefore(ours: seq<Option<Event>>, i: nat)
    requires i <= |ours| && Replay(Events(ours)).Some?
    ensures StoreAt(ours, i).Some?
    decreases |ours|
  {
    hide Next, Replay, Events;
    if i < |ours| {
      var n := |ours| - 1;
      ReplayEvents(ours);
      StoresBefore(ours[..n], i);
      assert ours[..n][..i] == ours[..i];
    } else {
      assert ours[..i] == ours;
    }
  }

  lemma StoreNext(ours: seq<Option<Event>>, i: nat)
    requires i < |ours| && Replay(Events(ours)).Some?
    ensures StoreAt(ours, i).Some?
    ensures StoreAt(ours, i + 1) == if ours[i].None? then StoreAt(ours, i) else Next(StoreAt(ours, i).value, ours[i].value)
    ensures StoreAt(ours, i + 1).Some?
  {
    hide Next, Replay, Events;
    StoresBefore(ours, i);
    StoresBefore(ours, i + 1);
    assert ours[..i + 1][..i] == ours[..i];
    ReplayEvents(ours[..i + 1]);
  }

  /** A run of a pool that the index shares with considerate clients; its events are a trace of the page store. */
  ghost predicate SharedRun(encode: Node -> PageData, n: nat, states: seq<Pool>, ops: seq<PoolRuns.Op>, answers: seq<PoolRuns.Answer>,
                            ours: seq<Option<Event>>) {
    && PoolRuns.IsRun(n, states, ops, answers) && |ours| == |ops| && Replay(Events(ours)).Some?
    && forall i :: 0 <= i < |ops| ==>
         if ours[i].Some? then ops[i] == OpOf(encode, ours[i].value) && GivenId(ours[i].value, answers[i])
         else StoreAt(ours, i).Some? && Considerate(n, ops[i], states[i + 1], StoreAt(ours, i).value.image.nodes)
  }

  lemma {:induction false} RunMirrored(encode: Node -> PageData, n: nat, states: seq<Pool>, ops: seq<PoolRuns.Op>,
                                       answers: seq<PoolRuns.Answer>, ours: seq<Option<Event>>, i: nat)
    requires SharedRun(encode, n, states, ops, answers, ours) && PIN_LIMIT <= n && i <= |ops|
    ensures StoreAt(ours, i).Some? && Mirrors(encode, n, states[i], StoreAt(ours, i).value)
    decreases i
  {
    if i == 0 {
      assert ours[..0] == [];
      assert Others(states[0], map[]) == {};
    } else {
      RunMirrored(encode, n, states, ops, answers, ours, i - 1);
      RunStep(encode, n, states, ops, answers, ours, i - 1);
    }
  }

  lemma RunStep(encode: Node -> PageData, n: nat, states: seq<Pool>, ops: seq<PoolRuns.Op>,
                answers: seq<PoolRuns.Answer>, ours: seq<Option<Event>>, i: nat)
    requires SharedRun(encode, n, states, ops, answers, ours) && i < |ops|
    requires StoreAt(ours, i).Some? && Mirrors(encode, n, states[i], StoreAt(ours, i).value)
    ensures StoreAt(ours, i + 1).Some? && Mirrors(encode, n, states[i + 1], StoreAt(ours, i + 1).value)
    ensures ours[i].Some? ==> answers[i] == AnswerOf(encode, ours[i].value)
  {
    hide Mirrors, StoreAt, Considerate, PoolRuns.Step, Next, Replay;
    StoreNext(ours, i);
    var t := StoreAt(ours, i).value;
    assert PoolRuns.Step(n, states[i], ops[i], answers[i], states[i + 1]);
    if ours[i].Some? {
      EventMirrored(encode, n, states[i], t, ours[i].value, answers[i], states[i + 1]);
    } else {
      OthersMirrored(encode, n, states[i], t, ops[i], answers[i], states[i + 1]);
    }
  }

  /** The pool gave the index the answers that it worked with. */
  ghost predicate Serves(encode: Node -> PageData, answers: seq<PoolRuns.Answer>, ours: seq<Option<Event>>) {
    |answers| == |ours| && forall i :: 0 <= i < |ours| && ours[i].Some? ==> answers[i] == AnswerOf(encode, ours[i].value)
  }

  /** In every such run the pool gives the index the answers that the page store gave it. */
  lemma SharedRunServes(encode: Node -> PageData, n: nat, states: seq<Pool>, ops: seq<PoolRuns.Op>,
                        answers: seq<PoolRuns.Answer>, ours: seq<Option<Event>>)
    requires SharedRun(encode, n, states, ops, answers, ours) && PIN_LIMIT <= n
    ensures Serves(encode, answers, ours)
  {
    hide Mirrors, StoreAt, AnswerOf;
    forall i | 0 <= i < |ours| && ours[i].Some? ensures answers[i] == AnswerOf(encode, ours[i].value) {
      RunMirrored(encode, n, states, ops, answers, ours, i);
      RunStep(encode, n, states, ops, answers, ours, i);
    }
  }

  // ---------- The file under the pool ----------

  /** A page of the index that has not been reported since it was made or changed is pinned; all others are stored. */
  ghost predicate Backed(t: Store, stored: set<PageId>) {
    && (forall id :: id in t.image.nodes ==> id in t.image.unsaved || id in stored)
    && (forall id :: id in t.image.unsaved ==> id in t.pins)
  }

  lemma EventBacked(encode: Node -> PageData, t: Store, e: Event, stored: set<PageId>, stored': set<PageId>)
    requires Backed(t, stored) && Next(t, e).Some?
    requires PoolRuns.StoredStep(OpOf(encode, e), AnswerOf(encode, e), stored, stored')
    ensures Backed(Next(t, e).value, stored')
  {
    var t' := Next(t, e).value;
    forall id | id in t'.image.nodes ensures id in t'.image.unsaved || id in stored' {
      assert id in t.image.nodes || e == Made(id);
    }
    forall id | id in t'.image.unsaved ensures id in t'.pins {
      assert id in t.image.unsaved || e == Made(id) || (e.Wrote? && e.id == id);
    }
  }

  lemma OthersBacked(t: Store, op: PoolRuns.Op, answer: PoolRuns.Answer, stored: set<PageId>, stored': set<PageId>)
    requires Backed(t, stored) && KeepsOff(op, t.image.nodes) && PoolRuns.StoredStep(op, answer, stored, stored')
    ensures Backed(t, stored')
  {
  }

  lemma RunBackedNext(encode: Node -> PageData, n: nat, states: seq<Pool>, ops: seq<PoolRuns.Op>, answers: seq<PoolRuns.Answer>,
                      ours: seq<Option<Event>>, stored: seq<set<PageId>>, i: nat)
    requires SharedRun(encode, n, states, ops, answers, ours) && PIN_LIMIT <= n && i < |ops|
    requires PoolRuns.StoredRun(ops, answers, stored) && StoreAt(ours, i).Some? && Backed(StoreAt(ours, i).value, stored[i])
    ensures StoreAt(ours, i + 1).Some? && Backed(StoreAt(ours, i + 1).value, stored[i + 1])
  {
    hide Mirrors, StoreAt, Backed, PoolRuns.StoredStep, AnswerOf, KeepsOff, Next, Replay;
    RunMirrored(encode, n, states, ops, answers, ours, i);
    RunStep(encode, n, states, ops, answers, ours, i);
    StoreNext(ours, i);
    var t := StoreAt(ours, i).value;
    if ours[i].Some? {
      EventBacked(encode, t, ours[i].value, stored[i], stored[i + 1]);
    } else {
      OthersBacked(t, ops[i], answers[i], stored[i], stored[i + 1]);
    }
  }

  lemma {:induction false} RunBacked(encode: Node -> PageData, n: nat, states: seq<Pool>, ops: seq<PoolRuns.Op>,
                                     answers: seq<PoolRuns.Answer>, ours: seq<Option<Event>>, stored: seq<set<PageId>>, i: nat)
    requires SharedRun(encode, n, states, ops, answers, ours) && PIN_LIMIT <= n && i <= |ops|
    requires PoolRuns.StoredRun(ops, answers, stored)
    ensures StoreAt(ours, i).Some? && Backed(StoreAt(ours, i).value, stored[i])
    decreases i
  {
    if i == 0 {
      assert ours[..0] == [];
    } else {
      RunBacked(encode, n, states, ops, answers, ours, stored, i - 1);
      RunBackedNext(encode, n, states, ops, answers, ours, stored, i - 1);
    }
  }

  /** The index never makes the pool read a page that the file does not have. */
  lemma NeverRisky(encode: Node -> PageData, n: nat, states: seq<Pool>, ops: seq<PoolRuns.Op>, answers: seq<PoolRuns.Answer>,
                   ours: seq<Option<Event>>, stored: seq<set<PageId>>, i: nat)
    requires SharedRun(encode, n, states, ops, answers, ours) && PIN_LIMIT <= n && i < |ops| && ours[i].Some?
    requires PoolRuns.StoredRun(ops, answers, stored)
    ensures !PoolRuns.Risky(states[i], stored[i], ops[i])
  {
    RunMirrored(encode, n, states, ops, answers, ours, i);
    RunBacked(encode, n, states, ops, answers, ours, stored, i);
    StoreNext(ours, i);
    var t, e := StoreAt(ours, i).value, ours[i].value;
    if e.Read? {
      FetchNotRisky(encode, n, states[i], t, stored[i], e.id);
    }
  }

  lemma FetchNotRisky(encode: Node -> PageData, n: nat, s: Pool, t: Store, stored: set<PageId>, id: PageId)
    requires Mirrors(encode, n, s, t) && Backed(t, stored) && id in t.image.nodes
    ensures !PoolRuns.Risky(s, stored, PoolRuns.Fetch(id))
  {
    assert PageMirrored(encode, s, t, id);
  }

  /**
   The buffer pool itself serves the index in all its runs; and if the other clients do not fetch
   pages that were never stored, the file never has to be read past its end.
   */
  method Run(poolSize: nat, replacerK: nat, ops: seq<PoolRuns.Op>, ghost encode: Node -> PageData)
    returns (answers: seq<PoolRuns.Answer>, ghost states: seq<Pool>, ghost stored: seq<set<PageId>>, ghost io: seq<DiskOp>)
    requires 0 < replacerK && |ops| < LruKReplacers.SIZE_MAX && PIN_LIMIT <= poolSize
    ensures PoolRuns.IsRun(poolSize, states, ops, answers) && PoolRuns.StoredRun(ops, answers, stored)
    ensures forall ours :: SharedRun(encode, poolSize, states, ops, answers, ours) ==>
              && Serves(encode, answers, ours)
              && (OthersStay(states, stored, ops, ours) ==> !ShortRead(io))
  {
    hide SharedRun, Serves, PoolRuns.IsRun, PoolRuns.StoredRun, PoolRuns.Risky, ShortRead;
    var frames;
    ghost var caches;
    answers, frames, states, stored, io, caches := PoolRuns.Run(poolSize, replacerK, ops);
    forall ours | SharedRun(encode, poolSize, states, ops, answers, ours)
      ensures Serves(encode, answers, ours) && (OthersStay(states, stored, ops, ours) ==> !ShortRead(io))
    {
      SharedRunServes(encode, poolSize, states, ops, answers, ours);
      if OthersStay(states, stored, ops, ours) {
        NobodyRisky(encode, poolSize, states, ops, answers, ours, stored);
      }
    }
  }

  /** The other clients fetch no page that was never stored. */
  ghost predicate OthersStay(states: seq<Pool>, stored: seq<set<PageId>>, ops: seq<PoolRuns.Op>, ours: seq<Option<Event>>) {
    && |states| > |ops| && |stored| > |ops| && |ours| == |ops|
    && forall i :: 0 <= i < |ops| && ours[i].None? ==> !PoolRuns.Risky(states[i], stored[i], ops[i])
  }

  lemma NobodyRisky(encode: Node -> PageData, n: nat, states: seq<Pool>, ops: seq<PoolRuns.Op>, answers: seq<PoolRuns.Answer>,
                    ours: seq<Option<Event>>, stored: seq<set<PageId>>)
    requires SharedRun(encode, n, states, ops, answers, ours) && PIN_LIMIT <= n
    requires PoolRuns.StoredRun(ops, answers, stored) && OthersStay(states, stored, ops, ours)
    ensures |states| == |ops| + 1 && |stored| == |ops| + 1
    ensures forall i :: 0 <= i < |ops| ==> !PoolRuns.Risky(states[i], stored[i], ops[i])
  {
    hide PoolRuns.Risky, StoreAt, PoolRuns.StoredStep;
    forall i | 0 <= i < |ops| ensures !PoolRuns.Risky(states[i], stored[i], ops[i]) {
      if ours[i].Some? {
        NeverRisky(encode, n, states, ops, answers, ours, stored, i);
      }
    }
  }
}
