/** The lookup table of an index: integer keys to the ids of the rows that have them. */
module IndexEntries {
  import opened Types

  type EntryMap = map<int, seq<Rid>>

  function Lookup(entries: EntryMap, key: int): seq<Rid> {
    if key in entries then entries[key] else []
  }

  /** The list without `rid`. */
  function RemoveRid(rids: seq<Rid>, rid: Rid): seq<Rid> {
    if rids == [] then []
    else if rids[0] == rid then RemoveRid(rids[1..], rid)
    else [rids[0]] + RemoveRid(rids[1..], rid)
  }

  function WithEntry(entries: EntryMap, key: int, rid: Rid): EntryMap {
    entries[key := Lookup(entries, key) + [rid]]
  }

  function WithoutEntry(entries: EntryMap, key: int, rid: Rid): EntryMap {
    if key !in entries then entries else
      var rids := RemoveRid(entries[key], rid);
      if rids == [] then entries - {key} else entries[key := rids]
  }

  /** Each key lists exactly the rows that have it, each once, and no list is empty. */
  ghost predicate Agrees(entries: EntryMap, keys: map<Rid, int>) {
    && (forall key :: key in entries ==> entries[key] != [])
    && (forall key :: Distinct(Lookup(entries, key)))
    && (forall key, rid :: rid in Lookup(entries, key) <==> rid in keys && keys[rid] == key)
  }

  /** An exact index determines the keys of the rows. */
  lemma AgreesOnce(entries: EntryMap, keys: map<Rid, int>, keys': map<Rid, int>)
    requires Agrees(entries, keys) && Agrees(entries, keys')
    ensures keys == keys'
  {
    forall rid ensures (rid in keys <==> rid in keys') && (rid in keys ==> keys[rid] == keys'[rid]) {
      if rid in keys {
        assert rid in Lookup(entries, keys[rid]);
      }
      if rid in keys' {
        assert rid in Lookup(entries, keys'[rid]);
      }
    }
  }

  lemma {:induction false} RemoveRidMembers(rids: seq<Rid>, rid: Rid, x: Rid)
    ensures x in RemoveRid(rids, rid) <==> x in rids && x != rid
    decreases |rids|
  {
    if rids != [] {
      RemoveRidMembers(rids[1..], rid, x);
    }
  }

  lemma {:induction false} RemoveRidDistinct(rids: seq<Rid>, rid: Rid)
    requires Distinct(rids)
    ensures Distinct(RemoveRid(rids, rid))
    decreases |rids|
  {
    if rids != [] {
      RemoveRidDistinct(rids[1..], rid);
      RemoveRidMembers(rids[1..], rid, rids[0]);
    }
  }

  /** A new row is listed under its key. */
  lemma WithEntryAgrees(entries: EntryMap, keys: map<Rid, int>, key: int, rid: Rid)
    requires Agrees(entries, keys) && rid !in keys
    ensures Agrees(WithEntry(entries, key, rid), keys[rid := key])
  {
    hide RemoveRid;
    var entries' := WithEntry(entries, key, rid);
    assert rid !in Lookup(entries, key);
    forall k ensures Distinct(Lookup(entries', k)) {
      assert Distinct(Lookup(entries, k));
    }
    forall k, x ensures x in Lookup(entries', k) <==> x in keys[rid := key] && keys[rid := key][x] == k {
      assert x in Lookup(entries, k) <==> x in keys && keys[x] == k;
    }
  }

  lemma WithoutLookup(entries: EntryMap, key: int, rid: Rid, k: int)
    ensures Lookup(WithoutEntry(entries, key, rid), k) ==
            if k == key then RemoveRid(Lookup(entries, k), rid) else Lookup(entries, k)
    ensures k in WithoutEntry(entries, key, rid) && (k in entries ==> entries[k] != []) ==> WithoutEntry(entries, key, rid)[k] != []
  {
  }

  /** A row that goes away is taken off the list of its key. */
  lemma WithoutEntryAgrees(entries: EntryMap, keys: map<Rid, int>, rid: Rid)
    requires Agrees(entries, keys) && rid in keys
    ensures Agrees(WithoutEntry(entries, keys[rid], rid), keys - {rid})
  {
    hide RemoveRid, WithoutEntry;
    var key := keys[rid];
    var entries', keys' := WithoutEntry(entries, key, rid), keys - {rid};
    assert rid in Lookup(entries, key);
    forall k | k in entries' ensures entries'[k] != [] {
      WithoutLookup(entries, key, rid, k);
    }
    forall k ensures Distinct(Lookup(entries', k)) {
      WithoutLookup(entries, key, rid, k);
      RemoveRidDistinct(Lookup(entries, k), rid);
    }
    forall k, x ensures x in Lookup(entries', k) <==> x in keys' && keys'[x] == k {
      WithoutLookup(entries, key, rid, k);
      assert x in Lookup(entries, k) <==> x in keys && keys[x] == k;
      RemoveRidMembers(Lookup(entries, k), rid, x);
    }
  }

  /** What an UPDATE does to an index for one row. */
  function Moved(entries: EntryMap, oldKey: int, newKey: int, rid: Rid): EntryMap {
    WithEntry(WithoutEntry(entries, oldKey, rid), newKey, rid)
  }

  lemma MovedAgrees(entries: EntryMap, keys: map<Rid, int>, newKey: int, rid: Rid)
    requires Agrees(entries, keys) && rid in keys
    ensures Agrees(Moved(entries, keys[rid], newKey, rid), keys[rid := newKey])
  {
    WithoutEntryAgrees(entries, keys, rid);
    WithEntryAgrees(WithoutEntry(entries, keys[rid], rid), keys - {rid}, newKey, rid);
    assert (keys - {rid})[rid := newKey] == keys[rid := newKey];
  }

  /** The rows with the key, each once; no answer when there are none. */
  ghost predicate FindsExactly(rids: Option<seq<Rid>>, keys: map<Rid, int>, key: int) {
    && (rids.None? <==> forall rid :: rid in keys ==> keys[rid] != key)
    && (rids.Some? ==> Distinct(rids.value) && forall rid :: rid in rids.value <==> rid in keys && keys[rid] == key)
  }

  lemma LookupFinds(entries: EntryMap, keys: map<Rid, int>, key: int)
    requires Agrees(entries, keys)
    ensures FindsExactly(if key in entries then Some(entries[key]) else None, keys, key)
  {
    assert Distinct(Lookup(entries, key));
    if key in entries {
      assert entries[key][0] in Lookup(entries, key);
    }
    forall rid ensures rid in Lookup(entries, key) <==> rid in keys && keys[rid] == key {
    }
  }

  class IndexInfo {
    const lookupAttr: nat
    var entries: EntryMap

    constructor (lookupAttr: nat)
      ensures this.lookupAttr == lookupAttr && entries == map[]
    {
      this.lookupAttr, entries := lookupAttr, map[];
    }

    method LookupInteger(key: int) returns (rids: Option<seq<Rid>>)
      ensures rids == if key in entries then Some(entries[key]) else None
      ensures forall keys :: Agrees(entries, keys) ==> FindsExactly(rids, keys, key)
    {
      forall keys | Agrees(entries, keys) ensures FindsExactly(if key in entries then Some(entries[key]) else None, keys, key) {
        LookupFinds(entries, keys, key);
      }
      if key !in entries {
        return None;
      }
      return Some(entries[key]);
    }

    method InsertEntry(key: int, rid: Rid)
      modifies this`entries
      ensures entries == WithEntry(old(entries), key, rid)
    {
      var rids := if key in entries then entries[key] else [];
      entries := entries[key := rids + [rid]];
    }

    method RemoveEntry(key: int, rid: Rid)
      modifies this`entries
      ensures entries == WithoutEntry(old(entries), key, rid)
    {
      if key !in entries {
        return;
      }
      var rids := Erase(entries[key], rid);
      entries := entries[key := rids];
      if rids == [] {
        entries := entries - {key};
      }
    }
  }

  /** Copies the list but for `rid`. */
  method Erase(rids: seq<Rid>, rid: Rid) returns (kept: seq<Rid>)
    ensures kept == RemoveRid(rids, rid)
  {
    kept := [];
    for i := 0 to |rids|
      invariant kept + RemoveRid(rids[i..], rid) == RemoveRid(rids, rid)
    {
      assert rids[i..][1..] == rids[i + 1..];
      if rids[i] != rid {
        kept := kept + [rids[i]];
      }
    }
  }
}
