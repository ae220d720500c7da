/**
 Slotted pages: a header, a directory of slots that grows upwards, and tuples that are
 allocated downwards from the end of the page, all in one array of bytes.
 */
module TablePages {
  import opened Types

  // ---------- Numbers in bytes ----------

  /** Overwrites bytes from `o` on. */
  function Put(s: seq<byte>, o: nat, b: seq<byte>): (r: seq<byte>)
    requires o + |b| <= |s|
    ensures |r| == |s|
    ensures forall k :: 0 <= k < |s| ==> r[k] == if o <= k < o + |b| then b[k - o] else s[k]
  {
    s[..o] + b + s[o + |b|..]
  }

  function Word(v: nat): seq<byte>
    requires v < 0x1_0000
  {
    [v % 0x100, v / 0x100]
  }

  function WordAt(s: seq<byte>, o: nat): nat
    requires o + 2 <= |s|
  {
    var low: int, high: int := s[o], s[o + 1];
    low + 0x100 * high
  }

  function Long(v: nat): seq<byte>
    requires v < 0x1_0000_0000
  {
    Word(v % 0x1_0000) + Word(v / 0x1_0000)
  }

  function LongAt(s: seq<byte>, o: nat): nat
    requires o + 4 <= |s|
  {
    WordAt(s, o) + 0x1_0000 * WordAt(s, o + 2)
  }

  /** A number reads back as written. */
  lemma PutWord(s: seq<byte>, o: nat, v: nat)
    requires v < 0x1_0000 && o + 2 <= |s|
    ensures WordAt(Put(s, o, Word(v)), o) == v
  {
  }

  lemma PutLong(s: seq<byte>, o: nat, v: nat)
    requires v < 0x1_0000_0000 && o + 4 <= |s|
    ensures LongAt(Put(s, o, Long(v)), o) == v
  {
    var r := Put(s, o, Long(v));
    assert WordAt(r, o) == v % 0x1_0000 && WordAt(r, o + 2) == v / 0x1_0000;
  }

  /** Writing elsewhere does not change it. */
  lemma WordElsewhere(s: seq<byte>, p: nat, b: seq<byte>, o: nat)
    requires p + |b| <= |s| && o + 2 <= |s| && (o + 2 <= p || p + |b| <= o)
    ensures WordAt(Put(s, p, b), o) == WordAt(s, o)
  {
  }

  lemma LongElsewhere(s: seq<byte>, p: nat, b: seq<byte>, o: nat)
    requires p + |b| <= |s| && o + 4 <= |s| && (o + 4 <= p || p + |b| <= o)
    ensures LongAt(Put(s, p, b), o) == LongAt(s, o)
  {
  }

  // ---------- The layout ----------

  function NumTuples(s: PageData): nat {
    LongAt(s, 4)
  }

  function FreeSpacePointer(s: PageData): nat {
    LongAt(s, 8)
  }

  function SlotAt(i: nat): nat {
    HEADER_SIZE + i * SLOT_SIZE
  }

  predicate HasSlot(i: nat) {
    SlotAt(i) + SLOT_SIZE <= PAGE_SIZE
  }

  function Offset(s: PageData, i: nat): nat
    requires HasSlot(i)
  {
    WordAt(s, SlotAt(i))
  }

  function Length(s: PageData, i: nat): nat
    requires HasSlot(i)
  {
    WordAt(s, SlotAt(i) + 2)
  }

  /** The directory ends at or below the free-space pointer. */
  predicate HeaderOk(s: PageData) {
    SlotAt(NumTuples(s)) <= FreeSpacePointer(s) <= PAGE_SIZE
  }

  /** The tuple of a live slot lies between the free-space pointer and the end of the page. */
  predicate SlotOk(s: PageData, i: nat)
    requires HasSlot(i)
  {
    Length(s, i) > 0 ==> FreeSpacePointer(s) <= Offset(s, i) && Offset(s, i) + Length(s, i) <= PAGE_SIZE
  }

  predicate Disjoint(s: PageData, i: nat, j: nat)
    requires HasSlot(i) && HasSlot(j)
  {
    Length(s, i) > 0 && Length(s, j) > 0 ==>
      Offset(s, i) + Length(s, i) <= Offset(s, j) || Offset(s, j) + Length(s, j) <= Offset(s, i)
  }

  ghost predicate PageOk(s: PageData) {
    && HeaderOk(s)
    && (forall i {:trigger SlotOk(s, i)} :: 0 <= i < NumTuples(s) ==> SlotOk(s, i))
    && (forall i, j {:trigger Disjoint(s, i, j)} :: 0 <= i < j < NumTuples(s) ==> Disjoint(s, i, j))
  }

  /** The bytes between the directory and the free-space pointer. */
  function Remaining(s: PageData): nat
    requires HeaderOk(s)
  {
    FreeSpacePointer(s) - SlotAt(NumTuples(s))
  }

  /** The bytes of slot `i`; none when it was deleted. */
  function TupleOf(s: PageData, i: nat): seq<byte>
    requires HasSlot(i) && SlotOk(s, i)
  {
    if Length(s, i) == 0 then [] else s[Offset(s, i)..Offset(s, i) + Length(s, i)]
  }

  /** The page as a sequence of tuples, the deleted ones empty. */
  ghost function Tuples(s: PageData): (r: seq<seq<byte>>)
    requires PageOk(s)
    ensures |r| == NumTuples(s) && forall i :: 0 <= i < |r| ==> SlotOk(s, i) && r[i] == TupleOf(s, i)
  {
    assert forall i :: 0 <= i < NumTuples(s) ==> SlotOk(s, i);
    seq(NumTuples(s), i requires 0 <= i < NumTuples(s) && HasSlot(i) && SlotOk(s, i) => TupleOf(s, i))
  }

  // ---------- Edits ----------

  /** Points slot `i` at `length` bytes from `offset` on. */
  function WithSlot(s: PageData, i: nat, offset: nat, length: nat): PageData
    requires HasSlot(i) && offset < 0x1_0000 && length < 0x1_0000
  {
    Put(Put(s, SlotAt(i), Word(offset)), SlotAt(i) + 2, Word(length))
  }

  /** Takes the bytes of `t` off the free space, without a look at how much there is. */
  function Allocated(s: PageData, t: seq<byte>): PageData
    requires |t| <= FreeSpacePointer(s) <= PAGE_SIZE
  {
    var at := FreeSpacePointer(s) - |t|;
    Put(Put(s, 8, Long(at)), at, t)
  }

  function Inserted(s: PageData, t: seq<byte>): PageData
    requires HeaderOk(s) && |t| + SLOT_SIZE <= Remaining(s)
  {
    var n := NumTuples(s);
    Put(WithSlot(Allocated(s, t), n, FreeSpacePointer(s) - |t|, |t|), 4, Long(n + 1))
  }

  function Deleted(s: PageData, i: nat): PageData
    requires HasSlot(i)
  {
    WithSlot(s, i, 0, 0)
  }

  function Updated(s: PageData, i: nat, t: seq<byte>): PageData
    requires HasSlot(i) && |t| <= FreeSpacePointer(Deleted(s, i)) <= PAGE_SIZE
  {
    var s' := Deleted(s, i);
    WithSlot(Allocated(s', t), i, FreeSpacePointer(s') - |t|, |t|)
  }

  // ---------- What the edits change ----------

  lemma WithSlotFields(s: PageData, i: nat, offset: nat, length: nat, j: nat)
    requires HasSlot(i) && HasSlot(j) && offset < 0x1_0000 && length < 0x1_0000
    ensures var s' := WithSlot(s, i, offset, length);
            && NumTuples(s') == NumTuples(s) && FreeSpacePointer(s') == FreeSpacePointer(s)
            && Offset(s', j) == (if j == i then offset else Offset(s, j))
            && Length(s', j) == (if j == i then length else Length(s, j))
            && forall k :: SlotAt(i) + SLOT_SIZE <= k < PAGE_SIZE ==> s'[k] == s[k]
  {
    hide WordAt, LongAt;
    var s1 := Put(s, SlotAt(i), Word(offset));
    PutWord(s, SlotAt(i), offset);
    PutWord(s1, SlotAt(i) + 2, length);
    WordElsewhere(s1, SlotAt(i) + 2, Word(length), SlotAt(i));
    LongElsewhere(s, SlotAt(i), Word(offset), 4);
    LongElsewhere(s, SlotAt(i), Word(offset), 8);
    LongElsewhere(s1, SlotAt(i) + 2, Word(length), 4);
    LongElsewhere(s1, SlotAt(i) + 2, Word(length), 8);
    if j != i {
      WordElsewhere(s, SlotAt(i), Word(offset), SlotAt(j));
      WordElsewhere(s, SlotAt(i), Word(offset), SlotAt(j) + 2);
      WordElsewhere(s1, SlotAt(i) + 2, Word(length), SlotAt(j));
      WordElsewhere(s1, SlotAt(i) + 2, Word(length), SlotAt(j) + 2);
    }
  }

  /** An allocation above slot `j` leaves that slot alone. */
  lemma AllocatedFields(s: PageData, t: seq<byte>, j: nat)
    requires |t| <= FreeSpacePointer(s) <= PAGE_SIZE && SlotAt(j) + SLOT_SIZE <= FreeSpacePointer(s) - |t|
    ensures var s' := Allocated(s, t);
            var at := FreeSpacePointer(s) - |t|;
            && NumTuples(s') == NumTuples(s) && FreeSpacePointer(s') == at
            && Offset(s', j) == Offset(s, j) && Length(s', j) == Length(s, j)
            && s'[at..at + |t|] == t
            && forall k :: at + |t| <= k < PAGE_SIZE ==> s'[k] == s[k]
  {
    var at := FreeSpacePointer(s) - |t|;
    var s1 := Put(s, 8, Long(at));
    PutLong(s, 8, at);
    LongElsewhere(s, 8, Long(at), 4);
    LongElsewhere(s1, at, t, 4);
    LongElsewhere(s1, at, t, 8);
    WordElsewhere(s, 8, Long(at), SlotAt(j));
    WordElsewhere(s, 8, Long(at), SlotAt(j) + 2);
    WordElsewhere(s1, at, t, SlotAt(j));
    WordElsewhere(s1, at, t, SlotAt(j) + 2);
  }

  // ---------- Edits keep the page in order ----------

  /** Slot `j` and its bytes are the same on both pages. */
  ghost predicate SameSlot(s: PageData, s': PageData, j: nat)
    requires HasSlot(j) && SlotOk(s, j)
  {
    && Offset(s', j) == Offset(s, j) && Length(s', j) == Length(s, j)
    && forall k :: Offset(s, j) <= k < Offset(s, j) + Length(s, j) && Length(s, j) > 0 ==> s'[k] == s[k]
  }

  lemma SlotStays(s: PageData, s': PageData, j: nat)
    requires HeaderOk(s) && HeaderOk(s') && HasSlot(j) && SlotOk(s, j) && SameSlot(s, s', j)
    requires FreeSpacePointer(s') <= FreeSpacePointer(s)
    ensures SlotOk(s', j) && TupleOf(s', j) == TupleOf(s, j)
  {
  }

  /** Page `s'` has the slots of `s`, but slot `i` has the bytes `t` next below those of `s`. */
  ghost predicate OneSlotNew(s: PageData, s': PageData, i: nat, t: seq<byte>) {
    && HeaderOk(s) && HeaderOk(s') && FreeSpacePointer(s') + |t| == FreeSpacePointer(s)
    && i < NumTuples(s') && (NumTuples(s') == NumTuples(s) || NumTuples(s') == NumTuples(s) + 1 == i + 1)
    && Length(s', i) == |t| && (|t| > 0 ==> Offset(s', i) == FreeSpacePointer(s'))
    && s'[FreeSpacePointer(s')..FreeSpacePointer(s)] == t
    && forall j {:trigger SameSlot(s, s', j)} :: 0 <= j < NumTuples(s) && j != i ==> SlotOk(s, j) && SameSlot(s, s', j)
  }

  lemma OneSlotInPlace(s: PageData, s': PageData, i: nat, t: seq<byte>)
    requires PageOk(s) && OneSlotNew(s, s', i, t)
    ensures PageOk(s')
  {
    forall j | 0 <= j < NumTuples(s') ensures SlotOk(s', j) {
      if j != i {
        assert SameSlot(s, s', j);
        SlotStays(s, s', j);
      }
    }
    forall j, k | 0 <= j < k < NumTuples(s') ensures Disjoint(s', j, k) {
      if j != i {
        assert SameSlot(s, s', j);
      }
      if k != i {
        assert SameSlot(s, s', k);
      }
      if j != i && k != i {
        assert Disjoint(s, j, k);
      }
    }
  }

  /** Such a page is in order, and only the tuple of slot `i` has changed. */
  lemma OneSlotChanged(s: PageData, s': PageData, i: nat, t: seq<byte>)
    requires PageOk(s) && OneSlotNew(s, s', i, t)
    ensures PageOk(s')
    ensures Tuples(s') == if i < NumTuples(s) then Tuples(s)[i := t] else Tuples(s) + [t]
  {
    OneSlotInPlace(s, s', i, t);
    var r := if i < NumTuples(s) then Tuples(s)[i := t] else Tuples(s) + [t];
    forall j | 0 <= j < |r| ensures Tuples(s')[j] == r[j] {
      if j != i {
        assert SameSlot(s, s', j);
        SlotStays(s, s', j);
      }
    }
  }

  lemma InsertKeepsTuples(s: PageData, t: seq<byte>)
    requires PageOk(s) && |t| + SLOT_SIZE <= Remaining(s)
    ensures PageOk(Inserted(s, t)) && Tuples(Inserted(s, t)) == Tuples(s) + [t]
    ensures Remaining(Inserted(s, t)) + |t| + SLOT_SIZE == Remaining(s)
  {
    var n := NumTuples(s);
    var s1 := Allocated(s, t);
    var s2 := WithSlot(s1, n, FreeSpacePointer(s) - |t|, |t|);
    var s' := Inserted(s, t);
    PutLong(s2, 4, n + 1);
    LongElsewhere(s2, 4, Long(n + 1), 8);
    forall j | 0 <= j <= n
      ensures HasSlot(j) && Offset(s', j) == (if j == n then FreeSpacePointer(s) - |t| else Offset(s, j))
      ensures Length(s', j) == (if j == n then |t| else Length(s, j))
    {
      InsertedSlot(s, t, j);
    }
    InsertedBytes(s, t);
    forall j | 0 <= j < n ensures SlotOk(s, j) && SameSlot(s, s', j) {
      assert SlotOk(s, j);
    }
    OneSlotChanged(s, s', n, t);
  }

  lemma InsertedSlot(s: PageData, t: seq<byte>, j: nat)
    requires HeaderOk(s) && |t| + SLOT_SIZE <= Remaining(s) && j <= NumTuples(s)
    ensures HasSlot(j) && HasSlot(NumTuples(s)) && FreeSpacePointer(Inserted(s, t)) == FreeSpacePointer(s) - |t|
    ensures Offset(Inserted(s, t), j) == (if j == NumTuples(s) then FreeSpacePointer(s) - |t| else Offset(s, j))
    ensures Length(Inserted(s, t), j) == (if j == NumTuples(s) then |t| else Length(s, j))
  {
    var n := NumTuples(s);
    var s1 := Allocated(s, t);
    var s2 := WithSlot(s1, n, FreeSpacePointer(s) - |t|, |t|);
    AllocatedFields(s, t, j);
    WithSlotFields(s1, n, FreeSpacePointer(s) - |t|, |t|, j);
    LongElsewhere(s2, 4, Long(n + 1), 8);
    WordElsewhere(s2, 4, Long(n + 1), SlotAt(j));
    WordElsewhere(s2, 4, Long(n + 1), SlotAt(j) + 2);
  }

  lemma InsertedBytes(s: PageData, t: seq<byte>)
    requires HeaderOk(s) && |t| + SLOT_SIZE <= Remaining(s)
    ensures var at := FreeSpacePointer(s) - |t|;
            && Inserted(s, t)[at..at + |t|] == t
            && forall k :: at + |t| <= k < PAGE_SIZE ==> Inserted(s, t)[k] == s[k]
  {
    hide WithSlot, Allocated, FreeSpacePointer;
    var n := NumTuples(s);
    var s1 := Allocated(s, t);
    var at := FreeSpacePointer(s) - |t|;
    AllocatedBytes(s, t);
    WithSlotBytes(s1, n, at, |t|);
    assert Inserted(s, t)[at..at + |t|] == s1[at..at + |t|];
  }

  lemma DeleteKeepsTuples(s: PageData, i: nat)
    requires PageOk(s) && i < NumTuples(s)
    ensures PageOk(Deleted(s, i)) && Tuples(Deleted(s, i)) == Tuples(s)[i := []]
    ensures Remaining(Deleted(s, i)) == Remaining(s)
  {
    var s' := Deleted(s, i);
    WithSlotFields(s, i, 0, 0, i);
    forall j | 0 <= j < NumTuples(s) && j != i ensures SlotOk(s, j) && SameSlot(s, s', j) {
      assert SlotOk(s, j);
      WithSlotFields(s, i, 0, 0, j);
    }
    OneSlotChanged(s, s', i, []);
  }

  /** The header and slot `j` after an update that stays off both. */
  lemma UpdatedFields(s: PageData, i: nat, t: seq<byte>, j: nat)
    requires HeaderOk(s) && i < NumTuples(s) && |t| <= FreeSpacePointer(s) - HEADER_SIZE
    requires HasSlot(j) && (j == i || SlotAt(j) + SLOT_SIZE <= FreeSpacePointer(s) - |t|)
    ensures HasSlot(i) && FreeSpacePointer(Deleted(s, i)) == FreeSpacePointer(s)
    ensures var s' := Updated(s, i, t);
            && NumTuples(s') == NumTuples(s) && FreeSpacePointer(s') == FreeSpacePointer(s) - |t|
            && Offset(s', j) == (if j == i then FreeSpacePointer(s) - |t| else Offset(s, j))
            && Length(s', j) == (if j == i then |t| else Length(s, j))
  {
    var s1, at := Deleted(s, i), FreeSpacePointer(s) - |t|;
    WithSlotFields(s, i, 0, 0, j);
    AllocatedHeader(s1, t);
    if j != i {
      AllocatedFields(s1, t, j);
    }
    WithSlotFields(Allocated(s1, t), i, at, |t|, j);
  }

  lemma AllocatedHeader(s: PageData, t: seq<byte>)
    requires |t| + HEADER_SIZE <= FreeSpacePointer(s) <= PAGE_SIZE
    ensures NumTuples(Allocated(s, t)) == NumTuples(s)
    ensures FreeSpacePointer(Allocated(s, t)) == FreeSpacePointer(s) - |t|
  {
    var at := FreeSpacePointer(s) - |t|;
    var s1 := Put(s, 8, Long(at));
    PutLong(s, 8, at);
    LongElsewhere(s, 8, Long(at), 4);
    LongElsewhere(s1, at, t, 4);
    LongElsewhere(s1, at, t, 8);
  }

  lemma UpdatedBytes(s: PageData, i: nat, t: seq<byte>)
    requires HeaderOk(s) && i < NumTuples(s) && |t| <= Remaining(s)
    ensures HasSlot(i) && FreeSpacePointer(Deleted(s, i)) == FreeSpacePointer(s)
    ensures var s', at := Updated(s, i, t), FreeSpacePointer(s) - |t|;
            s'[at..at + |t|] == t && forall k :: at + |t| <= k < PAGE_SIZE ==> s'[k] == s[k]
  {
    hide WithSlot, Allocated;
    var s1, at := Deleted(s, i), FreeSpacePointer(s) - |t|;
    WithSlotFields(s, i, 0, 0, i);
    WithSlotBytes(s, i, 0, 0);
    AllocatedFields(s1, t, i);
    AllocatedBytes(s1, t);
    var s2 := Allocated(s1, t);
    WithSlotBytes(s2, i, at, |t|);
    assert Updated(s, i, t)[at..at + |t|] == s2[at..at + |t|];
  }

  lemma WithSlotBytes(s: PageData, i: nat, offset: nat, length: nat)
    requires HasSlot(i) && offset < 0x1_0000 && length < 0x1_0000
    ensures forall k :: SlotAt(i) + SLOT_SIZE <= k < PAGE_SIZE ==> WithSlot(s, i, offset, length)[k] == s[k]
  {
  }

  lemma AllocatedBytes(s: PageData, t: seq<byte>)
    requires |t| + HEADER_SIZE <= FreeSpacePointer(s) <= PAGE_SIZE
    ensures var s', at := Allocated(s, t), FreeSpacePointer(s) - |t|;
            s'[at..at + |t|] == t && forall k :: at + |t| <= k < PAGE_SIZE ==> s'[k] == s[k]
  {
  }

  /** An update for which there is room changes the one tuple. */
  lemma UpdateKeepsTuples(s: PageData, i: nat, t: seq<byte>)
    requires PageOk(s) && i < NumTuples(s) && |t| <= Remaining(s)
    ensures HasSlot(i) && FreeSpacePointer(Deleted(s, i)) == FreeSpacePointer(s)
    ensures PageOk(Updated(s, i, t)) && Tuples(Updated(s, i, t)) == Tuples(s)[i := t]
    ensures Remaining(Updated(s, i, t)) + |t| == Remaining(s)
  {
    UpdatedFields(s, i, t, i);
    UpdatedBytes(s, i, t);
    var s' := Updated(s, i, t);
    forall j | 0 <= j < NumTuples(s) && j != i ensures SlotOk(s, j) && SameSlot(s, s', j) {
      assert SlotOk(s, j);
      UpdatedFields(s, i, t, j);
    }
    OneSlotChanged(s, s', i, t);
  }

  /** The slot that an update writes last, also when the tuple runs over the header. */
  lemma UpdatedSlot(s: PageData, i: nat, t: seq<byte>)
    requires HeaderOk(s) && i < NumTuples(s) && |t| <= FreeSpacePointer(s)
    ensures HasSlot(i) && FreeSpacePointer(Deleted(s, i)) == FreeSpacePointer(s)
    ensures Offset(Updated(s, i, t), i) == FreeSpacePointer(s) - |t| && Length(Updated(s, i, t), i) == |t|
  {
    hide WithSlot, Allocated, FreeSpacePointer, Offset, Length;
    WithSlotFields(s, i, 0, 0, i);
    WithSlotFields(Allocated(Deleted(s, i), t), i, FreeSpacePointer(s) - |t|, |t|, i);
  }

  /**
   An update that the guard lets through does what it should exactly when there is room for all of
   the new tuple; short of the header, the page is in order exactly then.
   */
  lemma UpdateInOrderExactly(s: PageData, i: nat, t: seq<byte>)
    requires PageOk(s) && i < NumTuples(s) && |t| <= FreeSpacePointer(s)
    ensures HasSlot(i) && FreeSpacePointer(Deleted(s, i)) == FreeSpacePointer(s)
    ensures PageOk(Updated(s, i, t)) && Tuples(Updated(s, i, t)) == Tuples(s)[i := t] <==> |t| <= Remaining(s)
    ensures |t| <= FreeSpacePointer(s) - HEADER_SIZE ==> (PageOk(Updated(s, i, t)) <==> |t| <= Remaining(s))
  {
    UpdatedSlot(s, i, t);
    if |t| <= Remaining(s) {
      UpdateKeepsTuples(s, i, t);
    } else if |t| <= FreeSpacePointer(s) - HEADER_SIZE {
      UpdatedFields(s, i, t, i);
    } else {
      HeaderIsNoTuple(Updated(s, i, t), i);
    }
  }

  /** No tuple of a page in order begins inside the header. */
  lemma HeaderIsNoTuple(s: PageData, i: nat)
    requires HasSlot(i) && Offset(s, i) < HEADER_SIZE && Length(s, i) > 0
    ensures !PageOk(s) || NumTuples(s) <= i
  {
    assert PageOk(s) && i < NumTuples(s) ==> SlotOk(s, i);
  }

  /** The link to the next page is apart from everything else. */
  lemma LinkApart(s: PageData, v: nat)
    requires PageOk(s) && v < 0x1_0000_0000
    ensures var s' := Put(s, 0, Long(v)); PageOk(s') && Tuples(s') == Tuples(s) && Remaining(s') == Remaining(s)
  {
    var s' := Put(s, 0, Long(v));
    LongElsewhere(s, 0, Long(v), 4);
    LongElsewhere(s, 0, Long(v), 8);
    forall j | 0 <= j < NumTuples(s)
      ensures SlotOk(s, j) && SameSlot(s, s', j) && SlotOk(s', j) && TupleOf(s', j) == TupleOf(s, j)
    {
      assert SlotOk(s, j);
      WordElsewhere(s, 0, Long(v), SlotAt(j));
      WordElsewhere(s, 0, Long(v), SlotAt(j) + 2);
      SlotStays(s, s', j);
    }
    forall j, k | 0 <= j < k < NumTuples(s') ensures Disjoint(s', j, k) {
      assert SameSlot(s, s', j) && SameSlot(s, s', k) && Disjoint(s, j, k);
    }
    assert forall j :: 0 <= j < NumTuples(s) ==> Tuples(s')[j] == Tuples(s)[j];
  }

  // ---------- The page ----------

  class TablePage {
    const data: array<byte>

    ghost predicate Sized()
      reads this
    {
      data.Length == PAGE_SIZE
    }

    ghost predicate Valid()
      reads this, data
    {
      Sized() && PageOk(data[..])
    }

    /** The tuples by slot, the deleted ones empty. */
    ghost function View(): seq<seq<byte>>
      reads this, data
      requires Valid()
    {
      Tuples(data[..])
    }

    /** `TablePage::Init` on a page of the pool. */
    constructor (nextPageId: PageId)
      requires -1 <= nextPageId < 0x8000_0000
      ensures Valid() && fresh(data) && View() == [] && Remaining(data[..]) == PAGE_SIZE - HEADER_SIZE
      ensures NextPageId() == nextPageId
    {
      data := new byte[PAGE_SIZE](_ => 0);
      new;
      assert data[..] == seq(PAGE_SIZE, _ => 0);
      SetNextPageId(nextPageId);
      PutLong(data[..], 8, PAGE_SIZE);
      LongElsewhere(data[..], 8, Long(PAGE_SIZE), 4);
      LongElsewhere(data[..], 8, Long(PAGE_SIZE), 0);
      Write(8, Long(PAGE_SIZE));
    }

    /** Copies `b` to the bytes from `o` on. */
    method Write(o: nat, b: seq<byte>)
      requires Sized() && o + |b| <= PAGE_SIZE
      modifies data
      ensures data[..] == Put(old(data[..]), o, b)
    {
      for k := 0 to |b|
        invariant forall j :: 0 <= j < PAGE_SIZE ==> data[j] == if o <= j < o + k then b[j - o] else old(data[j])
      {
        data[o + k] := b[k];
      }
    }

    function NextPageId(): PageId
      reads this, data
      requires data.Length == PAGE_SIZE
    {
      var v := LongAt(data[..], 0);
      if v < 0x8000_0000 then v else v - 0x1_0000_0000
    }

    method SetNextPageId(id: PageId)
      requires Sized() && -1 <= id < 0x8000_0000
      modifies data
      ensures data[..] == Put(old(data[..]), 0, Long(if id < 0 then id + 0x1_0000_0000 else id))
      ensures NextPageId() == id
      ensures old(Valid()) ==> Valid() && View() == old(View()) && Remaining(data[..]) == old(Remaining(data[..]))
    {
      if PageOk(data[..]) {
        LinkApart(data[..], if id < 0 then id + 0x1_0000_0000 else id);
      }
      PutLong(data[..], 0, if id < 0 then id + 0x1_0000_0000 else id);
      Write(0, Long(if id < 0 then id + 0x1_0000_0000 else id));
    }

    /** The number stored at `o`, read from the bytes. */
    method ReadWord(o: nat) returns (v: nat)
      requires Sized() && o + 2 <= PAGE_SIZE
      ensures v == WordAt(data[..], o)
    {
      var low: int, high: int := data[o], data[o + 1];
      v := low + 0x100 * high;
    }

    method ReadLong(o: nat) returns (v: nat)
      requires Sized() && o + 4 <= PAGE_SIZE
      ensures v == LongAt(data[..], o)
    {
      var low := ReadWord(o);
      var high := ReadWord(o + 2);
      v := low + 0x1_0000 * high;
    }

    method GetNumTuples() returns (n: nat)
      requires Valid()
      ensures n == |View()|
    {
      n := ReadLong(4);
    }

    method GetFreeSpaceRemaining() returns (size: nat)
      requires Valid()
      ensures size == Remaining(data[..])
    {
      var n := ReadLong(4);
      var pointer := ReadLong(8);
      size := pointer - (HEADER_SIZE + n * SLOT_SIZE);
    }

    method GetTupleSize(slot: nat) returns (size: nat)
      requires Valid() && slot < |View()|
      ensures size == |View()[slot]|
    {
      size := ReadWord(SlotAt(slot) + 2);
    }

    method GetTuple(slot: nat) returns (t: seq<byte>)
      requires Valid() && slot < |View()|
      ensures t == View()[slot]
    {
      assert SlotOk(data[..], slot);
      var offset := ReadWord(SlotAt(slot));
      var length := ReadWord(SlotAt(slot) + 2);
      t := [];
      if length == 0 {
        return;
      }
      for k := 0 to length
        invariant t == data[offset..offset + k]
      {
        t := t + [data[offset + k]];
      }
      assert data[..][offset..offset + length] == data[offset..offset + length];
    }

    /** Sets the slot's offset and length. */
    method SetSlot(slot: nat, offset: nat, length: nat)
      requires Sized() && HasSlot(slot) && offset < 0x1_0000 && length < 0x1_0000
      modifies data
      ensures data[..] == WithSlot(old(data[..]), slot, offset, length)
    {
      Write(SlotAt(slot), Word(offset));
      Write(SlotAt(slot) + 2, Word(length));
    }

    /** Moves the free-space pointer down and copies the tuple there. */
    method Allocate(t: seq<byte>) returns (at: nat)
      requires Sized() && |t| <= FreeSpacePointer(data[..]) <= PAGE_SIZE
      modifies data
      ensures data[..] == Allocated(old(data[..]), t) && at == old(FreeSpacePointer(data[..])) - |t|
    {
      var pointer := ReadLong(8);
      at := pointer - |t|;
      Write(8, Long(at));
      Write(at, t);
    }

    method InsertTuple(t: seq<byte>) returns (slot: Option<nat>)
      requires Valid()
      modifies data
      ensures Valid() && NextPageId() == old(NextPageId())
      ensures slot.Some? <==> |t| + SLOT_SIZE <= old(Remaining(data[..]))
      ensures slot.Some? ==> slot.value == |old(View())| && View() == old(View()) + [t]
      ensures slot.Some? ==> Remaining(data[..]) + |t| + SLOT_SIZE == old(Remaining(data[..]))
      ensures slot.None? ==> data[..] == old(data[..])
    {
      hide WithSlot, Allocated, PageOk, Tuples, Remaining, LongAt, Put;
      var room := GetFreeSpaceRemaining();
      if room < |t| + SLOT_SIZE {
        return None;
      }
      var n := ReadLong(4);
      InsertFacts(data[..], t);
      var at := Allocate(t);
      SetSlot(n, at, |t|);
      Write(4, Long(n + 1));
      return Some(n);
    }

    method DeleteTuple(slot: nat)
      requires Valid() && slot < |View()|
      modifies data
      ensures Valid() && NextPageId() == old(NextPageId()) && View() == old(View())[slot := []]
      ensures Remaining(data[..]) == old(Remaining(data[..]))
    {
      hide WithSlot, PageOk, Tuples, Remaining, LongAt;
      DeleteFacts(data[..], slot);
      SetSlot(slot, 0, 0);
    }

    /** The guard of an update: it compares the growth with the free space, not the size. */
    ghost predicate Refused(slot: nat, t: seq<byte>)
      reads this, data
      requires Valid() && slot < |View()|
    {
      |t| > |View()[slot]| && |t| - |View()[slot]| > Remaining(data[..])
    }

    /**
     Allocates new space for the tuple even when it has shrunk.  The guard lets updates through
     for which there is no room; what they do is described as far as they stay on the page.
     */
    method UpdateTuple(slot: nat, t: seq<byte>) returns (ok: bool)
      requires Valid() && slot < |View()| && (Refused(slot, t) || |t| <= FreeSpacePointer(data[..]))
      modifies data
      ensures Sized() && (ok <==> !old(Refused(slot, t)))
      ensures !ok ==> data[..] == old(data[..])
      ensures ok ==> FreeSpacePointer(Deleted(old(data[..]), slot)) == old(FreeSpacePointer(data[..]))
                     && data[..] == Updated(old(data[..]), slot, t)
      ensures ok && |t| <= old(Remaining(data[..])) ==>
                Valid() && NextPageId() == old(NextPageId()) && View() == old(View())[slot := t]
                && Remaining(data[..]) + |t| == old(Remaining(data[..]))
      ensures ok ==> (Valid() && View() == old(View())[slot := t] <==> |t| <= old(Remaining(data[..])))
      ensures ok && |t| <= old(FreeSpacePointer(data[..])) - HEADER_SIZE ==> (Valid() <==> |t| <= old(Remaining(data[..])))
    {
      hide Updated, PageOk, Tuples, Remaining, Deleted;
      var oldSize := GetTupleSize(slot);
      var room := GetFreeSpaceRemaining();
      if |t| > oldSize && |t| - oldSize > room {
        return false;
      }
      UpdateFacts(data[..], slot, t);
      Relocate(slot, t);
      return true;
    }

    /** An update that is refused or for which there is room, as its callers see it. */
    method UpdateInRoom(slot: nat, t: seq<byte>) returns (ok: bool)
      requires Valid() && slot < |View()| && (Refused(slot, t) || |t| <= Remaining(data[..]))
      modifies data
      ensures Valid() && NextPageId() == old(NextPageId()) && (ok <==> !old(Refused(slot, t)))
      ensures View() == if ok then old(View())[slot := t] else old(View())
      ensures Remaining(data[..]) == if ok then old(Remaining(data[..])) - |t| else old(Remaining(data[..]))
    {
      ok := UpdateTuple(slot, t);
    }

    method Relocate(slot: nat, t: seq<byte>)
      requires Sized() && HasSlot(slot) && |t| <= FreeSpacePointer(Deleted(data[..], slot)) <= PAGE_SIZE
      modifies data
      ensures data[..] == Updated(old(data[..]), slot, t)
    {
      SetSlot(slot, 0, 0);
      var at := Allocate(t);
      SetSlot(slot, at, |t|);
    }
  }

  /** All that an update does, with and without room for it. */
  lemma InsertFacts(s: PageData, t: seq<byte>)
    requires PageOk(s) && |t| + SLOT_SIZE <= Remaining(s)
    ensures HasSlot(NumTuples(s)) && |t| <= FreeSpacePointer(s) <= PAGE_SIZE && |Tuples(s)| == NumTuples(s)
    ensures var s' := Inserted(s, t);
            && PageOk(s') && Tuples(s') == Tuples(s) + [t] && LongAt(s', 0) == LongAt(s, 0)
            && Remaining(s') + |t| + SLOT_SIZE == Remaining(s)
  {
    InsertKeepsTuples(s, t);
    LinkKept(s, Inserted(s, t));
  }

  lemma DeleteFacts(s: PageData, i: nat)
    requires PageOk(s) && i < |Tuples(s)|
    ensures HasSlot(i)
    ensures var s' := Deleted(s, i);
            PageOk(s') && Tuples(s') == Tuples(s)[i := []] && LongAt(s', 0) == LongAt(s, 0) && Remaining(s') == Remaining(s)
  {
    DeleteKeepsTuples(s, i);
    LinkKept(s, Deleted(s, i));
  }

  lemma UpdateFacts(s: PageData, i: nat, t: seq<byte>)
    requires PageOk(s) && i < NumTuples(s) && |t| <= FreeSpacePointer(s)
    ensures HasSlot(i) && FreeSpacePointer(Deleted(s, i)) == FreeSpacePointer(s) <= PAGE_SIZE
    ensures var s' := Updated(s, i, t);
            && (|t| <= Remaining(s) ==> PageOk(s') && Tuples(s') == Tuples(s)[i := t] && LongAt(s', 0) == LongAt(s, 0)
                                        && Remaining(s') + |t| == Remaining(s))
            && (PageOk(s') && Tuples(s') == Tuples(s)[i := t] <==> |t| <= Remaining(s))
            && (|t| <= FreeSpacePointer(s) - HEADER_SIZE ==> (PageOk(s') <==> |t| <= Remaining(s)))
  {
    hide Updated, FreeSpacePointer, Tuples, Remaining, NumTuples, Deleted;
    UpdateInOrderExactly(s, i, t);
    if |t| <= Remaining(s) {
      UpdateKeepsTuples(s, i, t);
      UpdateKeepsLink(s, i, t);
    }
  }

  lemma UpdateKeepsLink(s: PageData, i: nat, t: seq<byte>)
    requires HeaderOk(s) && i < NumTuples(s) && |t| <= Remaining(s)
    ensures HasSlot(i) && FreeSpacePointer(Deleted(s, i)) == FreeSpacePointer(s)
    ensures LongAt(Updated(s, i, t), 0) == LongAt(s, 0)
  {
    WithSlotFields(s, i, 0, 0, i);
    LinkKept(s, Updated(s, i, t));
  }

  /** Edits above the first word of the header keep the link to the next page. */
  lemma LinkKept(s: PageData, s': PageData)
    requires forall k :: 0 <= k < 4 ==> s'[k] == s[k]
    ensures LongAt(s', 0) == LongAt(s, 0)
  {
  }

  // ---------- An update for which there is no room ----------

  /** On a full page with two slots, eight bytes of an update overwrite the entry of the other slot. */
  lemma UpdateOverDirectory(s: PageData)
    requires HeaderOk(s) && NumTuples(s) == 2 && Remaining(s) == 0
    ensures FreeSpacePointer(Deleted(s, 1)) == 24
    ensures Length(Updated(s, 1, Repeat(0, 8)), 0) == 0
  {
    var t := Repeat(0, 8);
    WithSlotFields(s, 1, 0, 0, 1);
    var s1 := Deleted(s, 1);
    var s2 := Allocated(s1, t);
    assert WordAt(s2, SlotAt(0) + 2) == 0;
    WithSlotFields(s2, 1, 16, 8, 0);
  }

  /** A page filled up by two tuples. */
  method FullPage(t: seq<byte>, u: seq<byte>) returns (page: TablePage)
    requires |t| + |u| == PAGE_SIZE - HEADER_SIZE - 2 * SLOT_SIZE
    ensures fresh(page) && fresh(page.data) && page.Valid() && page.View() == [t, u] && Remaining(page.data[..]) == 0
  {
    page := new TablePage(INVALID_PAGE_ID);
    var first := page.InsertTuple(t);
    var second := page.InsertTuple(u);
  }

  lemma FirstLength(s: PageData, t: seq<byte>, u: seq<byte>)
    requires PageOk(s) && Tuples(s) == [t, u] && |t| > 0
    ensures HeaderOk(s) && NumTuples(s) == 2 && Length(s, 0) == |t|
  {
    assert Tuples(s)[0] == t;
  }

  /** Shrinking one tuple of a full page succeeds, and afterwards the slot of the other reads as deleted. */
  method UpdateLosesNeighbour(t: seq<byte>, u: seq<byte>) returns (ok: bool, before: PageData, after: PageData)
    requires |t| + |u| == PAGE_SIZE - HEADER_SIZE - 2 * SLOT_SIZE && 0 < |t| && 8 <= |u|
    ensures PageOk(before) && Tuples(before) == [t, u]
    ensures ok && FreeSpacePointer(Deleted(before, 1)) == 24 && after == Updated(before, 1, Repeat(0, 8))
    ensures Length(before, 0) == |t| && Length(after, 0) == 0
  {
    hide PageOk, Tuples, Updated, Deleted, WithSlot, LongAt;
    var page := FullPage(t, u);
    before := page.data[..];
    FirstLength(before, t, u);
    UpdateOverDirectory(before);
    ok := page.UpdateTuple(1, Repeat(0, 8));
    after := page.data[..];
  }

  // ---------- Runs ----------

  datatype PageOp = InsertOp(t: seq<byte>) | DeleteOp(slot: nat) | UpdateOp(slot: nat, t: seq<byte>)

  datatype PageAnswer = Placed(slot: Option<nat>) | Rewritten(ok: bool) | Done

  /** A page as its clients see it: the tuples by slot, and the free space. */
  datatype PageModel = PageModel(tuples: seq<seq<byte>>, room: int)

  const EMPTY_PAGE: PageModel := PageModel([], PAGE_SIZE - HEADER_SIZE)

  /** The guard of an update: the growth of the tuple exceeds the free space. */
  predicate TooLarge(m: PageModel, slot: nat, t: seq<byte>)
    requires slot < |m.tuples|
  {
    |t| > |m.tuples[slot]| && |t| - |m.tuples[slot]| > m.room
  }

  function AfterOp(m: PageModel, op: PageOp): PageModel {
    match op
    case InsertOp(t) => if |t| + SLOT_SIZE <= m.room then PageModel(m.tuples + [t], m.room - |t| - SLOT_SIZE) else m
    case DeleteOp(slot) => if slot < |m.tuples| then m.(tuples := m.tuples[slot := []]) else m
    case UpdateOp(slot, t) =>
      if slot < |m.tuples| && !TooLarge(m, slot, t) then PageModel(m.tuples[slot := t], m.room - |t|) else m
  }

  function AnswerTo(m: PageModel, op: PageOp): PageAnswer {
    match op
    case InsertOp(t) => Placed(if |t| + SLOT_SIZE <= m.room then Some(|m.tuples|) else None)
    case DeleteOp(_) => Done
    case UpdateOp(slot, t) => Rewritten(slot < |m.tuples| && !TooLarge(m, slot, t))
  }

  function AfterOps(ops: seq<PageOp>): PageModel {
    if ops == [] then EMPTY_PAGE else AfterOp(AfterOps(ops[..|ops| - 1]), ops[|ops| - 1])
  }

  /** An update that the guard lets through has room. */
  predicate UpdateFits(m: PageModel, op: PageOp) {
    op.UpdateOp? && op.slot < |m.tuples| ==> TooLarge(m, op.slot, op.t) || |op.t| <= m.room
  }

  ghost predicate Shows(page: TablePage, m: PageModel)
    reads page, page.data
  {
    page.Valid() && page.View() == m.tuples && Remaining(page.data[..]) == m.room
  }

  method Perform(page: TablePage, op: PageOp, ghost m: PageModel) returns (answer: PageAnswer)
    requires Shows(page, m) && UpdateFits(m, op)
    modifies page.data
    ensures Shows(page, AfterOp(m, op)) && answer == AnswerTo(m, op)
  {
    var count := page.GetNumTuples();
    match op
    case InsertOp(t) =>
      var slot := page.InsertTuple(t);
      answer := Placed(slot);
    case DeleteOp(slot) =>
      if slot < count {
        page.DeleteTuple(slot);
      }
      answer := Done;
    case UpdateOp(slot, t) =>
      var ok := false;
      if slot < count {
        ok := page.UpdateInRoom(slot, t);
      }
      answer := Rewritten(ok);
  }

  /**
   Over any run of insertions, deletions and updates, refused ones included, the page answers as
   the list of tuples does, and every slot reads back what was last written to it.
   */
  method RunOps(ops: seq<PageOp>) returns (answers: seq<PageAnswer>, tuples: seq<seq<byte>>)
    requires forall i :: 0 <= i < |ops| ==> UpdateFits(AfterOps(ops[..i]), ops[i])
    ensures |answers| == |ops| && forall i :: 0 <= i < |ops| ==> answers[i] == AnswerTo(AfterOps(ops[..i]), ops[i])
    ensures tuples == AfterOps(ops).tuples
  {
    hide AfterOp, AnswerTo, UpdateFits, Shows;
    var page := EmptyPage();
    answers := [];
    assert ops[..0] == [] && ops[..|ops|] == ops;
    for n := 0 to |ops|
      invariant fresh(page) && fresh(page.data) && Shows(page, AfterOps(ops[..n]))
      invariant |answers| == n && forall i :: 0 <= i < n ==> answers[i] == AnswerTo(AfterOps(ops[..i]), ops[i])
    {
      assert ops[..n + 1][..n] == ops[..n];
      var answer := Perform(page, ops[n], AfterOps(ops[..n]));
      answers := answers + [answer];
    }
    tuples := ReadAll(page, AfterOps(ops));
  }

  method EmptyPage() returns (page: TablePage)
    ensures fresh(page) && fresh(page.data) && Shows(page, EMPTY_PAGE)
  {
    page := new TablePage(INVALID_PAGE_ID);
  }

  method ReadAll(page: TablePage, ghost m: PageModel) returns (tuples: seq<seq<byte>>)
    requires Shows(page, m)
    ensures tuples == m.tuples
  {
    tuples := [];
    var count := page.GetNumTuples();
    for i := 0 to count
      invariant tuples == page.View()[..i]
    {
      var t := page.GetTuple(i);
      tuples := tuples + [t];
    }
  }
}
