/**
 The LRU-K replacement policy.  A frame keeps only its last `k` access times; the victim is
 nevertheless the one defined on the whole trace of accesses since each frame entered.
 */
module LruKReplacers {
  import opened Types

  /** Largest value of the source's `size_t`; access times stay below it. */
  const SIZE_MAX: nat := 0xFFFF_FFFF_FFFF_FFFF

  datatype FrameEntry = FrameEntry(history: seq<nat>, isEvictable: bool)

  // ---------- The policy on whole traces ----------

  type Traces = map<FrameId, seq<nat>>

  /** The last `k` accesses, or all of them when there are fewer. */
  function Latest(trace: seq<nat>, k: nat): seq<nat> {
    if |trace| <= k then trace else trace[|trace| - k..]
  }

  /** The earliest access of a frame with fewer than `k`, else the `k`-th most recent one. */
  function KeyTime(trace: seq<nat>, k: nat): nat
    requires 0 < |trace|
  {
    if |trace| < k || k == 0 then trace[0] else trace[|trace| - k]
  }

  /** Frames with fewer than `k` accesses go first, and otherwise the one whose key time is older. */
  ghost predicate GoesBefore(a: seq<nat>, b: seq<nat>, k: nat)
    requires 0 < |a| && 0 < |b|
  {
    if |a| < k <==> |b| < k then KeyTime(a, k) < KeyTime(b, k) else |a| < k
  }

  /** The traces are times in `log`, which has the frame accessed at every time, in increasing order. */
  ghost predicate TracesOk(traces: Traces, log: seq<FrameId>) {
    forall f {:trigger traces[f]} :: f in traces ==> TraceOk(traces[f], f, log)
  }

  ghost predicate TraceOk(trace: seq<nat>, frame: FrameId, log: seq<FrameId>) {
    && 0 < |trace|
    && (forall i :: 0 <= i < |trace| ==> trace[i] < |log| && log[trace[i]] == frame)
    && (forall i, j :: 0 <= i < j < |trace| ==> trace[i] < trace[j])
  }

  ghost predicate IsVictim(traces: Traces, candidates: set<FrameId>, k: nat, f: FrameId)
    requires candidates <= traces.Keys && forall g :: g in traces ==> 0 < |traces[g]|
  {
    f in candidates && forall g :: g in candidates && g != f ==> GoesBefore(traces[f], traces[g], k)
  }

  /** At most one frame can be the victim, whatever order the frames are looked at in. */
  lemma VictimUnique(traces: Traces, candidates: set<FrameId>, k: nat, log: seq<FrameId>, f: FrameId, g: FrameId)
    requires 0 < k && candidates <= traces.Keys && TracesOk(traces, log)
    requires IsVictim(traces, candidates, k, f) && IsVictim(traces, candidates, k, g)
    ensures f == g
  {
  }

  /** Any two frames are ordered, so that a victim exists whenever there is a candidate. */
  lemma OrderTotal(traces: Traces, k: nat, log: seq<FrameId>, f: FrameId, g: FrameId)
    requires 0 < k && f in traces && g in traces && f != g && TracesOk(traces, log)
    ensures GoesBefore(traces[f], traces[g], k) <==> !GoesBefore(traces[g], traces[f], k)
  {
    var a, b := traces[f], traces[g];
    assert KeyTime(a, k) != KeyTime(b, k) by {
      var i := if |a| < k then 0 else |a| - k;
      var j := if |b| < k then 0 else |b| - k;
      assert a[i] == KeyTime(a, k) && b[j] == KeyTime(b, k);
    }
  }

  /** The scan's running best: the victim among the frames seen, its key time, and whether it has fewer than `k` accesses. */
  ghost predicate BestSoFar(traces: Traces, seen: set<FrameId>, k: nat, victim: FrameId, time: nat, lessThanK: bool)
    requires seen <= traces.Keys && forall g :: g in traces ==> 0 < |traces[g]|
  {
    if victim == -1 then
      seen == {} && time == SIZE_MAX && !lessThanK
    else
      && victim in seen && IsVictim(traces, seen, k, victim)
      && time == KeyTime(traces[victim], k) && lessThanK == (|traces[victim]| < k)
  }

  /** Whether a frame with this key time takes the lead. */
  predicate Leads(trace: seq<nat>, k: nat, time: nat, lessThanK: bool)
    requires 0 < |trace|
  {
    if |trace| < k then time > KeyTime(trace, k) || !lessThanK else time > KeyTime(trace, k) && !lessThanK
  }

  lemma BestNext(traces: Traces, log: seq<FrameId>, seen: set<FrameId>, k: nat, victim: FrameId, time: nat, lessThanK: bool, f: FrameId)
    requires 0 < k && TracesOk(traces, log) && |log| <= SIZE_MAX && f in traces && f !in seen && f != -1
    requires seen <= traces.Keys && BestSoFar(traces, seen, k, victim, time, lessThanK)
    ensures seen + {f} <= traces.Keys
    ensures if Leads(traces[f], k, time, lessThanK)
            then BestSoFar(traces, seen + {f}, k, f, KeyTime(traces[f], k), |traces[f]| < k)
            else BestSoFar(traces, seen + {f}, k, victim, time, lessThanK)
  {
    assert TraceOk(traces[f], f, log);
    if victim != -1 {
      hide KeyTime, TraceOk;
      OrderTotal(traces, k, log, f, victim);
      forall g | g in seen && g != victim && Leads(traces[f], k, time, lessThanK) ensures GoesBefore(traces[f], traces[g], k) {
        assert GoesBefore(traces[victim], traces[g], k);
      }
    }
  }

  lemma NoneSeen(traces: Traces, k: nat)
    requires forall g :: g in traces ==> 0 < |traces[g]|
    ensures BestSoFar(traces, {}, k, -1, SIZE_MAX, false)
  {
  }

  lemma BestOfAll(traces: Traces, candidates: set<FrameId>, k: nat, victim: FrameId, time: nat, lessThanK: bool)
    requires candidates <= traces.Keys && forall g :: g in traces ==> 0 < |traces[g]|
    requires BestSoFar(traces, candidates, k, victim, time, lessThanK)
    ensures if victim == -1 then candidates == {} else IsVictim(traces, candidates, k, victim)
  {
  }

  lemma TracesNotEmpty(traces: Traces, log: seq<FrameId>)
    requires TracesOk(traces, log)
    ensures forall g :: g in traces ==> 0 < |traces[g]|
  {
    assert forall g :: g in traces ==> TraceOk(traces[g], g, log);
  }

  /** The shortened history shows both what the policy needs. */
  lemma LatestDecides(trace: seq<nat>, k: nat)
    requires 0 < |trace| && 0 < k
    ensures var h := Latest(trace, k);
            0 < |h| && (|h| < k <==> |trace| < k) && h[0] == KeyTime(trace, k)
  {
  }

  /** Dropping the oldest time of a full history and adding a new one keeps the latest `k`. */
  lemma LatestNext(trace: seq<nat>, k: nat, now: nat)
    requires 0 < k
    ensures var h := Latest(trace, k);
            Latest(trace + [now], k) == (if |h| == k then h[1..] else h) + [now]
  {
  }

  lemma LatestOfNothing(k: nat)
    ensures Latest([], k) == []
  {
  }

  /** The traces after an access to `frame` at time `now`. */
  function Accessed(traces: Traces, frame: FrameId, now: nat): Traces {
    traces[frame := (if frame in traces then traces[frame] else []) + [now]]
  }

  lemma AccessedOk(traces: Traces, frame: FrameId, log: seq<FrameId>)
    requires TracesOk(traces, log)
    ensures TracesOk(Accessed(traces, frame, |log|), log + [frame])
  {
    var traces', log' := Accessed(traces, frame, |log|), log + [frame];
    forall f | f in traces' ensures TraceOk(traces'[f], f, log') {
      if f in traces {
        assert TraceOk(traces[f], f, log);
      }
    }
  }

  /** The frames of `entries` that may be chosen. */
  ghost function EvictableIn(entries: map<FrameId, FrameEntry>): set<FrameId> {
    set f | f in entries && entries[f].isEvictable
  }

  lemma MarkChanges(entries: map<FrameId, FrameEntry>, frame: FrameId, entry: FrameEntry)
    requires frame in entries && entry.isEvictable != entries[frame].isEvictable
    ensures var before, after := EvictableIn(entries), EvictableIn(entries[frame := entry]);
            if entry.isEvictable then after == before + {frame} && |after| == |before| + 1
            else after == before - {frame} && |after| + 1 == |before|
  {
    var before, after := EvictableIn(entries), EvictableIn(entries[frame := entry]);
    if entry.isEvictable {
      assert after == before + {frame};
    } else {
      assert before == after + {frame};
    }
  }

  lemma MarkedKeys(entries: map<FrameId, FrameEntry>)
    ensures EvictableIn(entries) <= entries.Keys
  {
  }

  /** One frame less to look at is one more seen, if it is a candidate. */
  lemma SeenNext(candidates: set<FrameId>, todo: set<FrameId>, f: FrameId)
    requires f in todo
    ensures candidates - (todo - {f}) == candidates - todo + if f in candidates then {f} else {}
  {
  }

  lemma MarkedIn(entries: map<FrameId, FrameEntry>, frame: FrameId)
    requires frame in entries
    ensures frame in EvictableIn(entries) <==> entries[frame].isEvictable
  {
  }

  lemma NotMarked(entries: map<FrameId, FrameEntry>, frame: FrameId)
    requires frame !in entries
    ensures frame !in EvictableIn(entries)
  {
  }

  lemma MarkStays(entries: map<FrameId, FrameEntry>, frame: FrameId, entry: FrameEntry)
    requires entry.isEvictable == (frame in entries && entries[frame].isEvictable)
    ensures EvictableIn(entries[frame := entry]) == EvictableIn(entries)
  {
  }

  lemma MarkVanishes(entries: map<FrameId, FrameEntry>, frame: FrameId)
    requires frame in entries && entries[frame].isEvictable
    ensures EvictableIn(entries - {frame}) == EvictableIn(entries) - {frame}
    ensures |EvictableIn(entries - {frame})| + 1 == |EvictableIn(entries)|
  {
    assert EvictableIn(entries) == EvictableIn(entries - {frame}) + {frame};
  }

  // ---------- The replacer ----------

  class LruKReplacer {
    const maxFrames: nat
    const k: nat
    var currSize: nat
    var currentTimestamp: nat
    var entries: map<FrameId, FrameEntry>
    ghost var log: seq<FrameId>           // the frame of every access so far
    ghost var traces: Traces              // the times of the accesses of a frame since it entered

    ghost predicate Valid()
      reads this
    {
      && 0 < k
      && entries.Keys == traces.Keys
      && TracesOk(traces, log)
      && currentTimestamp == |log| <= SIZE_MAX
      && (forall f :: f in entries ==> 0 <= f < maxFrames && entries[f].history == Latest(traces[f], k))
      && currSize == |Evictable()|
    }

    /** The frames that may be chosen. */
    ghost function Evictable(): set<FrameId>
      reads this
    {
      EvictableIn(entries)
    }

    constructor (numFrames: nat, k: nat)
      requires 0 < k
      ensures Valid() && entries == map[] && maxFrames == numFrames && this.k == k && log == []
    {
      maxFrames, this.k, currSize, currentTimestamp := numFrames, k, 0, 0;
      entries, traces, log := map[], map[], [];
      new;
      assert Evictable() == {};
    }

    /** Takes out the victim among the evictable frames, if there are any. */
    method Evict() returns (frame: Option<FrameId>)
      requires Valid()
      modifies this
      ensures Valid() && log == old(log)
      ensures frame.None? <==> old(Evictable()) == {}
      ensures frame.None? ==> traces == old(traces) && entries == old(entries)
      ensures frame.Some? ==> IsVictim(old(traces), old(Evictable()), k, frame.value)
      ensures frame.Some? ==> traces == old(traces) - {frame.value} && entries == old(entries) - {frame.value}
      ensures frame.Some? ==> Evictable() == old(Evictable()) - {frame.value}
    {
      var victim := ChooseVictim();
      if victim == -1 {
        return None;
      }
      MarkVanishes(entries, victim);
      entries, traces := entries - {victim}, traces - {victim};
      currSize := currSize - 1;
      return Some(victim);
    }

    /** Scans the frames, in no particular order; -1 when none may be chosen. */
    method ChooseVictim() returns (victim: FrameId)
      requires Valid()
      ensures Evictable() <= traces.Keys
      ensures if victim == -1 then Evictable() == {} else IsVictim(traces, Evictable(), k, victim)
    {
      hide LruKReplacer.Valid, BestSoFar, IsVictim, EvictableIn, TracesOk;
      SameFrames();
      MarkedKeys(entries);
      var victimTime, foundLessThanK := SIZE_MAX, false;
      victim := -1;
      var todo := entries.Keys;
      ghost var candidates := Evictable();
      TracesNotEmpty(traces, log);
      NoneSeen(traces, k);
      assert candidates - todo == {};
      while todo != {}
        invariant todo <= entries.Keys && BestSoFar(traces, candidates - todo, k, victim, victimTime, foundLessThanK)
        decreases |todo|
      {
        var f := AnyOf(todo);
        MarkedIn(entries, f);
        SeenNext(candidates, todo, f);
        if entries[f].isEvictable {
          victim, victimTime, foundLessThanK := Consider(f, victim, victimTime, foundLessThanK, candidates - todo);
        }
        todo := todo - {f};
      }
      assert candidates - todo == candidates;
      BestOfAll(traces, candidates, k, victim, victimTime, foundLessThanK);
    }

    lemma SameFrames()
      requires Valid()
      ensures entries.Keys == traces.Keys && TracesOk(traces, log)
    {
    }

    /** Puts one more frame up against the best so far. */
    method Consider(f: FrameId, victim: FrameId, victimTime: nat, foundLessThanK: bool, ghost seen: set<FrameId>)
      returns (victim': FrameId, victimTime': nat, foundLessThanK': bool)
      requires Valid() && f in entries && f !in seen && seen <= traces.Keys && forall g :: g in traces ==> 0 < |traces[g]|
      requires BestSoFar(traces, seen, k, victim, victimTime, foundLessThanK)
      ensures seen + {f} <= traces.Keys && BestSoFar(traces, seen + {f}, k, victim', victimTime', foundLessThanK')
    {
      hide TraceOk, KeyTime, BestSoFar, Latest, IsVictim, EvictableIn, TracesOk;
      victim', victimTime', foundLessThanK' := victim, victimTime, foundLessThanK;
      var entry := entries[f];
      LatestDecides(traces[f], k);
      BestNext(traces, log, seen, k, victim, victimTime, foundLessThanK, f);
      if |entry.history| < k {
        if victimTime > entry.history[0] || !foundLessThanK {
          victim', victimTime', foundLessThanK' := f, entry.history[0], true;
        }
      } else {
        if victimTime > entry.history[0] && !foundLessThanK {
          victim', victimTime' := f, entry.history[0];
        }
      }
    }

    /** Refuses a frame that is out of range, which the source answers with an exception. */
    method RecordAccess(frame: FrameId) returns (ok: bool)
      requires Valid() && currentTimestamp < SIZE_MAX
      modifies this
      ensures Valid() && Evictable() == old(Evictable())
      ensures ok <==> 0 <= frame < maxFrames
      ensures traces == if ok then Accessed(old(traces), frame, |old(log)|) else old(traces)
      ensures log == if ok then old(log) + [frame] else old(log)
    {
      hide TracesOk, Latest, EvictableIn;
      if frame < 0 || frame >= maxFrames {
        return false;
      }
      var entry := if frame in entries then entries[frame] else FrameEntry([], false);
      var history := entry.history;
      LatestOfNothing(k);
      LatestNext(if frame in traces then traces[frame] else [], k, currentTimestamp);
      if |history| == k {
        history := history[1..] + [currentTimestamp];
      } else {
        history := history + [currentTimestamp];
      }
      AccessedOk(traces, frame, log);
      MarkStays(entries, frame, entry.(history := history));
      traces, log := Accessed(traces, frame, |log|), log + [frame];
      entries := entries[frame := entry.(history := history)];
      currentTimestamp := currentTimestamp + 1;
      return true;
    }

    method SetEvictable(frame: FrameId, evictable: bool)
      requires Valid()
      modifies this`entries, this`currSize
      ensures Valid()
      ensures Evictable() == if frame !in traces then old(Evictable())
                             else if evictable then old(Evictable()) + {frame} else old(Evictable()) - {frame}
    {
      hide TracesOk, Latest, EvictableIn;
      if frame !in entries {
        NotMarked(entries, frame);
        return;
      }
      MarkedIn(entries, frame);
      var entry := entries[frame];
      if entry.isEvictable != evictable {
        MarkChanges(entries, frame, entry.(isEvictable := evictable));
        if evictable {
          currSize := currSize + 1;
        } else {
          currSize := currSize - 1;
        }
        entries := entries[frame := entry.(isEvictable := evictable)];
      }
    }

    /** Takes out an evictable frame; refuses one that is not, which the source answers with an exception. */
    method Remove(frame: FrameId) returns (ok: bool)
      requires Valid()
      modifies this`entries, this`currSize, this`traces
      ensures Valid()
      ensures ok <==> frame !in old(traces) || frame in old(Evictable())
      ensures traces == if ok then old(traces) - {frame} else old(traces)
      ensures Evictable() == old(Evictable()) - if ok then {frame} else {}
    {
      if frame !in entries {
        return true;
      }
      if !entries[frame].isEvictable {
        return false;
      }
      MarkVanishes(entries, frame);
      entries, traces := entries - {frame}, traces - {frame};
      currSize := currSize - 1;
      return true;
    }

    /** The number of frames that may be chosen. */
    method Size() returns (size: nat)
      requires Valid()
      ensures size == |Evictable()|
    {
      size := currSize;
    }
  }
}
