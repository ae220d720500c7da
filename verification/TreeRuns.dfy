/** Whole runs of the index, against the finite map it stands for. */
module TreeRuns {
  import opened Types
  import opened TreePages
  import opened PageStores
  import opened TreeIterators
  import opened BPlusTrees

  datatype Op =
    | Put(key: int32, value: Rid)
    | Delete(key: int32)
    | Get(key: int32)
    | ScanFrom(key: int32)

  datatype Answer =
    | Inserted(ok: bool)
    | Deleted
    | Found(value: Option<Rid>)
    | Scanned(entries: seq<Entry<Rid>>)

  // ---------- The finite map ----------

  function After(m: map<int32, Rid>, op: Op): map<int32, Rid> {
    match op
    case Put(key, value) => if key in m then m else m[key := value]
    case Delete(key) => m - {key}
    case _ => m
  }

  /** `entries` are the entries of `m` with keys from `from` up to `to`, in key order. */
  ghost predicate Lists(entries: seq<Entry<Rid>>, m: map<int32, Rid>, from: int, to: int) {
    && Ascending(entries)
    && forall e :: e in entries <==> e.key in m && m[e.key] == e.value && from <= e.key < to
  }

  ghost predicate Answers(m: map<int32, Rid>, op: Op, answer: Answer) {
    match op
    case Put(key, _) => answer == Inserted(key !in m)
    case Delete(_) => answer == Deleted
    case Get(key) => answer == Found(if key in m then Some(m[key]) else None)
    case ScanFrom(key) => answer.Scanned? && Lists(answer.entries, m, key, INT32_LIMIT)
  }

  function MapAfter(ops: seq<Op>): map<int32, Rid> {
    if ops == [] then map[] else After(MapAfter(ops[..|ops| - 1]), ops[|ops| - 1])
  }

  /** A listing is determined by the map. */
  lemma {:induction false} ListsUnique(a: seq<Entry<Rid>>, b: seq<Entry<Rid>>, m: map<int32, Rid>, from: int, to: int)
    requires Lists(a, m, from, to) && Lists(b, m, from, to)
    ensures a == b
    decreases |a|
  {
    assert |a| > 0 ==> a[0] in a;
    assert |b| > 0 ==> b[0] in b;
    if a != [] {
      var x, y := a[|a| - 1], b[|b| - 1];
      assert x in b && y in a;
      assert x == y;
      DropLast(a, m, from, to);
      DropLast(b, m, from, to);
      ListsUnique(a[..|a| - 1], b[..|b| - 1], m, from, x.key);
    }
  }

  lemma DropLast(a: seq<Entry<Rid>>, m: map<int32, Rid>, from: int, to: int)
    requires Lists(a, m, from, to) && a != []
    ensures Lists(a[..|a| - 1], m, from, a[|a| - 1].key)
  {
    var x := a[|a| - 1];
    assert a == a[..|a| - 1] + [x];
    assert x in a;
  }

  /** The next entry of the map extends a listing. */
  lemma ListsNext(a: seq<Entry<Rid>>, m: map<int32, Rid>, from: int, to: int, e: Entry<Rid>)
    requires Lists(a, m, from, to) && from <= to <= e.key && e.key in m && m[e.key] == e.value
    requires forall k :: k in m && to <= k ==> e.key <= k
    ensures Lists(a + [e], m, from, e.key + 1)
  {
    assert forall i :: 0 <= i < |a| ==> a[i] in a;
    forall x ensures x in a + [e] <==> x.key in m && m[x.key] == x.value && from <= x.key < e.key + 1 {
      assert x in a + [e] <==> x in a || x == e;
    }
  }

  // ---------- The index ----------

  /** The entries from where the iterator stands to the end. */
  method CollectFrom(tree: BPlusTree, it: TreeIterator, ghost from: int) returns (entries: seq<Entry<Rid>>)
    requires tree.Valid() && it.bpm == tree.bpm && it.At(tree.Walked(), from)
    modifies it`pageId, it`index, it`current, tree.bpm`trace, tree.bpm`pins, tree.bpm`image
    ensures tree.Valid()
    ensures Lists(entries, tree.model.contents, from, INT32_LIMIT)
  {
    entries := [];
    ghost var w, key := tree.Walked(), from;
    var end := tree.End();
    while !it.Equals(end)
      invariant tree.Valid() && tree.Walked() == w && it.At(w, key) && end.pageId == INVALID_PAGE_ID && end.index == 0
      invariant from <= key && Lists(entries, w.contents, from, key)
      decreases INT32_LIMIT - key
    {
      var e := TakeEntry(tree, it, key);
      ListsNext(entries, w.contents, from, key, e);
      entries, key := entries + [e], e.key + 1;
    }
  }

  /** Reads the entry the iterator stands at and moves past it. */
  method TakeEntry(tree: BPlusTree, it: TreeIterator, ghost key: int) returns (e: Entry<Rid>)
    requires tree.Valid() && it.bpm == tree.bpm && it.At(tree.Walked(), key) && !it.IsEnd()
    modifies it`pageId, it`index, it`current, tree.bpm`trace, tree.bpm`pins, tree.bpm`image
    ensures tree.Valid() && it.At(tree.Walked(), e.key + 1)
    ensures key <= e.key && e.key in tree.model.contents && tree.model.contents[e.key] == e.value
    ensures forall k :: k in tree.model.contents && key <= k ==> e.key <= k
  {
    e := it.Get(tree.Walked(), key);
    it.Advance(tree.Walked(), key);
  }

  method Perform(tree: BPlusTree, op: Op) returns (answer: Answer)
    requires tree.Valid()
    modifies tree, tree.bpm, tree.bpm.Repr
    ensures tree.Valid() && fresh(tree.bpm.Repr - old(tree.bpm.Repr))
    ensures tree.model.contents == After(old(tree.model.contents), op)
    ensures Answers(old(tree.model.contents), op, answer)
  {
    match op
    case Put(key, value) =>
      var ok := tree.Insert(key, value);
      answer := Inserted(ok);
    case Delete(key) =>
      tree.Remove(key);
      answer := Deleted;
    case Get(key) =>
      var value := tree.GetValue(key);
      answer := Found(value);
    case ScanFrom(key) =>
      var it := tree.BeginAt(key);
      var entries := CollectFrom(tree, it, key);
      answer := Scanned(entries);
  }

  ghost predicate AnswersAll(ops: seq<Op>, answers: seq<Answer>) {
    |answers| == |ops| && forall i :: 0 <= i < |ops| ==> Answers(MapAfter(ops[..i]), ops[i], answers[i])
  }

  lemma AnswersNext(ops: seq<Op>, answers: seq<Answer>, op: Op, answer: Answer)
    requires AnswersAll(ops, answers) && Answers(MapAfter(ops), op, answer)
    ensures AnswersAll(ops + [op], answers + [answer])
    ensures MapAfter(ops + [op]) == After(MapAfter(ops), op)
  {
    var ops' := ops + [op];
    assert ops'[..|ops|] == ops;
    forall i | 0 <= i < |ops| ensures Answers(MapAfter(ops'[..i]), ops'[i], (answers + [answer])[i]) {
      assert ops'[..i] == ops[..i];
    }
  }

  method PerformAll(tree: BPlusTree, ops: seq<Op>) returns (answers: seq<Answer>)
    requires tree.Valid() && tree.model.contents == map[]
    modifies tree, tree.bpm, tree.bpm.Repr
    ensures tree.Valid() && fresh(tree.bpm.Repr - old(tree.bpm.Repr))
    ensures tree.model.contents == MapAfter(ops) && AnswersAll(ops, answers)
  {
    answers := [];
    assert ops[..0] == [];
    for n := 0 to |ops|
      invariant tree.Valid() && fresh(tree.bpm.Repr - old(tree.bpm.Repr))
      invariant tree.model.contents == MapAfter(ops[..n]) && AnswersAll(ops[..n], answers)
    {
      var answer := Perform(tree, ops[n]);
      AnswersNext(ops[..n], answers, ops[n], answer);
      assert ops[..n] + [ops[n]] == ops[..n + 1];
      answers := answers + [answer];
    }
    assert ops[..|ops|] == ops;
  }

  /**
   Every run from the empty index answers as the finite map does, and lists it in the end; what it
   asked of the pool is a trace that keeps the rules and gives back every pin.
   */
  method Run(leafMaxSize: nat, internalMaxSize: nat, ops: seq<Op>)
    returns (answers: seq<Answer>, entries: seq<Entry<Rid>>, ghost trace: seq<Event>)
    requires 2 <= leafMaxSize && 3 <= internalMaxSize
    ensures AnswersAll(ops, answers)
    ensures Lists(entries, MapAfter(ops), INT32_MIN, INT32_LIMIT)
    ensures Replay(trace).Some? && Replay(trace).value.pins == multiset{}
  {
    var bpm := new PageStore();
    var tree := new BPlusTree(bpm, leafMaxSize, internalMaxSize);
    answers := PerformAll(tree, ops);
    var it := tree.Begin();
    entries := CollectFrom(tree, it, INT32_MIN);
    trace := bpm.trace;
  }
}
