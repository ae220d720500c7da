/**
 The two kinds of B+ tree pages.  Each class keeps its entries in a fixed array that its
 methods shift in place, as the pages of the index do; `View` is the value a page denotes,
 and every method is proved against a function of that value.
 */
module TreePages {
  import opened Types

  datatype Entry<+V> = Entry(key: int32, value: V)

  /** The value of a page.  The key of slot 0 of an internal page carries no information. */
  datatype Node =
    | Leaf(parent: PageId, next: PageId, records: seq<Entry<Rid>>)
    | Internal(parent: PageId, slots: seq<Entry<PageId>>)
  {
    function Size(): nat {
      match this
      case Leaf(_, _, records) => |records|
      case Internal(_, slots) => |slots|
    }
  }

  // ---------- Sorted runs of entries ----------

  ghost predicate Ascending<V>(s: seq<Entry<V>>) {
    forall i, j :: 0 <= i < j < |s| ==> s[i].key < s[j].key
  }

  /** The number of leading entries whose key is below `key`. */
  function LowerBound<V>(s: seq<Entry<V>>, key: int): (n: nat)
    ensures n <= |s|
    ensures forall i :: 0 <= i < n ==> s[i].key < key
    ensures n < |s| ==> key <= s[n].key
  {
    if s == [] || key <= s[0].key then 0 else 1 + LowerBound(s[1..], key)
  }

  predicate HasKeyAt<V>(s: seq<Entry<V>>, n: nat, key: int) {
    n < |s| && s[n].key == key
  }

  function InsertRecord<V>(s: seq<Entry<V>>, e: Entry<V>): seq<Entry<V>> {
    var n := LowerBound(s, e.key);
    if HasKeyAt(s, n, e.key) then s else s[..n] + [e] + s[n..]
  }

  function RemoveRecord<V>(s: seq<Entry<V>>, key: int): seq<Entry<V>> {
    var n := LowerBound(s, key);
    if HasKeyAt(s, n, key) then s[..n] + s[n + 1..] else s
  }

  lemma InsertIntoEmpty<V>(e: Entry<V>)
    ensures InsertRecord([], e) == [e]
  {
  }

  lemma LowerBoundUnique<V>(s: seq<Entry<V>>, key: int, n: nat)
    requires Ascending(s) && n <= |s|
    requires forall i :: 0 <= i < n ==> s[i].key < key
    requires n < |s| ==> key <= s[n].key
    ensures n == LowerBound(s, key)
  {
    var m := LowerBound(s, key);
    if m < n {
      assert false;
    } else if n < m {
      assert false;
    }
  }

  lemma AbsentUnlessAtLowerBound<V>(s: seq<Entry<V>>, key: int)
    requires Ascending(s) && !HasKeyAt(s, LowerBound(s, key), key)
    ensures forall i :: 0 <= i < |s| ==> s[i].key != key
  {
    var n := LowerBound(s, key);
    assert n < |s| ==> key < s[n].key;
    assert forall i :: n < i < |s| ==> s[n].key < s[i].key;
  }

  // ---------- Routing in an internal page ----------

  /** The separators of an internal page, those of slots 1 and up, ascend. */
  ghost predicate Separated(s: seq<Entry<PageId>>) {
    forall i, j :: 1 <= i < j < |s| ==> s[i].key < s[j].key
  }

  /** Slot `i` is the one whose key range contains `key`. */
  ghost predicate Routes(s: seq<Entry<PageId>>, key: int, i: int) {
    && 0 <= i < |s|
    && (0 < i ==> s[i].key <= key)
    && (i + 1 < |s| ==> key < s[i + 1].key)
  }

  predicate IsChild(s: seq<Entry<PageId>>, child: PageId) {
    exists i :: 0 <= i < |s| && s[i].value == child
  }

  /** The first slot that points to `child`. */
  function ChildIndex(s: seq<Entry<PageId>>, child: PageId): (i: nat)
    requires IsChild(s, child)
    ensures i < |s| && s[i].value == child
    ensures forall j :: 0 <= j < i ==> s[j].value != child
  {
    if s[0].value == child then 0 else
      assert forall j :: 1 <= j < |s| ==> s[j] == s[1..][j - 1];
      1 + ChildIndex(s[1..], child)
  }

  function InsertSlot(s: seq<Entry<PageId>>, i: nat, e: Entry<PageId>): seq<Entry<PageId>>
    requires i <= |s|
  {
    s[..i] + [e] + s[i..]
  }

  function RemoveSlot(s: seq<Entry<PageId>>, i: nat): seq<Entry<PageId>>
    requires i < |s|
  {
    s[..i] + s[i + 1..]
  }

  function SetKey(s: seq<Entry<PageId>>, i: nat, key: int32): seq<Entry<PageId>>
    requires i < |s|
  {
    s[i := s[i].(key := key)]
  }

  /** The least size of a page that is not the root. */
  function MinSize(isLeaf: bool, maxSize: nat): nat {
    if isLeaf then maxSize / 2 else (maxSize + 1) / 2
  }

  // ---------- Shifting ----------

  lemma ShiftedRight<T>(before: seq<T>, after: seq<T>, index: nat, e: T)
    requires index <= |before| && |after| == |before| + 1 && after[index] == e
    requires forall j :: 0 <= j < index ==> after[j] == before[j]
    requires forall j :: index < j < |after| ==> after[j] == before[j - 1]
    ensures after == before[..index] + [e] + before[index..]
  {
  }

  lemma ShiftedLeft<T>(before: seq<T>, after: seq<T>, index: nat)
    requires index < |before| && |after| == |before| - 1
    requires forall j :: 0 <= j < index ==> after[j] == before[j]
    requires forall j :: index <= j < |after| ==> after[j] == before[j + 1]
    ensures after == before[..index] + before[index + 1..]
  {
  }

  lemma Appended<T>(left: seq<T>, right: seq<T>, after: seq<T>)
    requires |after| == |left| + |right|
    requires forall j :: 0 <= j < |left| ==> after[j] == left[j]
    requires forall j :: 0 <= j < |right| ==> after[|left| + j] == right[j]
    ensures after == left + right
  {
  }

  // ---------- Leaf pages ----------

  class LeafPage {
    var parentPageId: PageId
    var nextPageId: PageId
    var size: nat
    const maxSize: nat
    const data: array<Entry<Rid>>

    /** The page has room for one entry beyond `maxSize`: inserts come before splits. */
    ghost predicate Valid()
      reads this
    {
      size <= maxSize + 1 == data.Length
    }

    ghost function Records(): seq<Entry<Rid>>
      reads this, data
      requires Valid()
    {
      data[..size]
    }

    ghost function View(): Node
      reads this, data
      requires Valid()
    {
      Leaf(parentPageId, nextPageId, Records())
    }

    constructor (maxSize: nat)
      ensures Valid() && this.maxSize == maxSize && fresh(data)
      ensures View() == Leaf(INVALID_PAGE_ID, INVALID_PAGE_ID, [])
    {
      this.maxSize := maxSize;
      parentPageId, nextPageId, size := INVALID_PAGE_ID, INVALID_PAGE_ID, 0;
      data := new Entry<Rid>[maxSize + 1];
    }

    function GetMinSize(): nat {
      MinSize(true, maxSize)
    }

    method KeyIndex(key: int32) returns (index: nat)
      requires Valid() && Ascending(Records())
      ensures index == LowerBound(Records(), key)
    {
      var low: int, high: int := 0, size - 1;
      while low <= high
        invariant 0 <= low <= high + 1 <= size
        invariant forall i :: 0 <= i < low ==> data[i].key < key
        invariant forall i :: high < i < size ==> key <= data[i].key
      {
        var mid := (low + high) / 2;
        assert Records()[mid] == data[mid];
        if data[mid].key < key {
          forall i | 0 <= i <= mid ensures data[i].key < key {
            assert Records()[i] == data[i];
          }
          low := mid + 1;
        } else {
          forall i | mid <= i < size ensures key <= data[i].key {
            assert Records()[i] == data[i];
          }
          high := mid - 1;
        }
      }
      index := low;
      LowerBoundUnique(Records(), key, index);
    }

    method Lookup(key: int32) returns (value: Option<Rid>)
      requires Valid() && Ascending(Records())
      ensures value.Some? ==> Entry(key, value.value) in Records()
      ensures value.None? ==> forall i :: 0 <= i < |Records()| ==> Records()[i].key != key
    {
      var index := KeyIndex(key);
      if index < size && data[index].key == key {
        assert Records()[index] == Entry(key, data[index].value);
        value := Some(data[index].value);
      } else {
        AbsentUnlessAtLowerBound(Records(), key);
        value := None;
      }
    }

    method Insert(key: int32, value: Rid) returns (newSize: nat)
      requires Valid() && Ascending(Records()) && size <= maxSize
      modifies this`size, data
      ensures Valid() && newSize == size
      ensures Records() == InsertRecord(old(Records()), Entry(key, value))
    {
      var index := KeyIndex(key);
      if !(index < size && data[index].key == key) {
        ShiftRight(index, Entry(key, value));
      }
      return size;
    }

    method ShiftRight(index: nat, e: Entry<Rid>)
      requires Valid() && index <= size <= maxSize
      modifies this`size, data
      ensures Valid()
      ensures Records() == old(Records()[..index] + [e] + Records()[index..])
    {
      ghost var was := Records();
      var i := size;
      while i > index
        invariant index <= i <= size
        invariant forall j :: 0 <= j < i ==> data[j] == old(data[j])
        invariant forall j :: i < j <= size ==> data[j] == old(data[j - 1])
        modifies data
      {
        data[i] := data[i - 1];
        i := i - 1;
      }
      data[index] := e;
      size := size + 1;
      ShiftedRight(was, Records(), index, e);
    }

    method RemoveAndDeleteRecord(key: int32) returns (newSize: nat)
      requires Valid() && Ascending(Records())
      modifies this`size, data
      ensures Valid() && newSize == size
      ensures Records() == RemoveRecord(old(Records()), key)
    {
      var index := KeyIndex(key);
      if !(index >= size || data[index].key != key) {
        ShiftLeft(index);
      }
      return size;
    }

    method ShiftLeft(index: nat)
      requires Valid() && index < size
      modifies this`size, data
      ensures Valid()
      ensures Records() == old(Records()[..index] + Records()[index + 1..])
    {
      ghost var was := Records();
      var i := index;
      while i < size - 1
        invariant index <= i <= size - 1
        invariant forall j :: 0 <= j < index ==> data[j] == old(data[j])
        invariant forall j :: index <= j < i ==> data[j] == old(data[j + 1])
        invariant forall j :: i <= j < size ==> data[j] == old(data[j])
        modifies data
      {
        data[i] := data[i + 1];
        i := i + 1;
      }
      size := size - 1;
      ShiftedLeft(was, Records(), index);
    }

    method MoveHalfTo(recipient: LeafPage)
      requires Valid() && recipient.Valid() && recipient != this && recipient.data != data
      requires size <= recipient.data.Length
      modifies this`size, recipient`size, recipient.data
      ensures Valid() && recipient.Valid()
      ensures Records() == old(Records()[..size / 2])
      ensures recipient.Records() == old(Records()[size / 2..])
    {
      var split := size / 2;
      var i := split;
      while i < size
        invariant split <= i <= size
        invariant forall j :: split <= j < i ==> recipient.data[j - split] == data[j]
        modifies recipient.data
      {
        recipient.data[i - split] := data[i];
        i := i + 1;
      }
      recipient.size := size - split;
      size := split;
    }

    method MoveAllTo(recipient: LeafPage)
      requires Valid() && recipient.Valid() && recipient != this && recipient.data != data
      requires recipient.size + size <= recipient.data.Length
      modifies this`size, recipient`size, recipient`nextPageId, recipient.data
      ensures Valid() && recipient.Valid()
      ensures Records() == []
      ensures recipient.Records() == old(recipient.Records() + Records())
      ensures recipient.nextPageId == nextPageId
    {
      ghost var left, right := recipient.Records(), Records();
      var start := recipient.size;
      var i := 0;
      while i < size
        invariant 0 <= i <= size
        invariant forall j :: 0 <= j < start ==> recipient.data[j] == left[j]
        invariant forall j :: 0 <= j < i ==> recipient.data[start + j] == data[j]
        modifies recipient.data
      {
        recipient.data[start + i] := data[i];
        i := i + 1;
      }
      recipient.size := recipient.size + size;
      recipient.nextPageId := nextPageId;
      size := 0;
      Appended(left, right, recipient.Records());
    }

    method MoveFirstToEndOf(recipient: LeafPage)
      requires Valid() && recipient.Valid() && recipient != this && recipient.data != data
      requires 0 < size && recipient.size < recipient.data.Length
      modifies this`size, data, recipient`size, recipient.data
      ensures Valid() && recipient.Valid()
      ensures Records() == old(Records()[1..])
      ensures recipient.Records() == old(recipient.Records() + [Records()[0]])
    {
      recipient.data[recipient.size] := data[0];
      var i := 0;
      while i < size - 1
        invariant 0 <= i <= size - 1
        invariant forall j :: 0 <= j < i ==> data[j] == old(data[j + 1])
        invariant forall j :: i <= j < size ==> data[j] == old(data[j])
        invariant recipient.data[..recipient.size + 1] == old(recipient.Records() + [Records()[0]])
        modifies data
      {
        data[i] := data[i + 1];
        i := i + 1;
      }
      size := size - 1;
      recipient.size := recipient.size + 1;
    }

    method MoveLastToFrontOf(recipient: LeafPage)
      requires Valid() && recipient.Valid() && recipient != this && recipient.data != data
      requires 0 < size && recipient.size < recipient.data.Length
      modifies this`size, recipient`size, recipient.data
      ensures Valid() && recipient.Valid()
      ensures Records() == old(Records()[..size - 1])
      ensures recipient.Records() == old([Records()[size - 1]] + recipient.Records())
    {
      var i := recipient.size;
      while i > 0
        invariant 0 <= i <= recipient.size
        invariant recipient.data[..i] == old(recipient.data[..i])
        invariant forall j :: i < j <= recipient.size ==> recipient.data[j] == old(recipient.data[j - 1])
        modifies recipient.data
      {
        recipient.data[i] := recipient.data[i - 1];
        i := i - 1;
      }
      recipient.data[0] := data[size - 1];
      size := size - 1;
      recipient.size := recipient.size + 1;
    }
  }

  // ---------- Internal pages ----------

  class InternalPage {
    var parentPageId: PageId
    var size: nat
    const maxSize: nat
    const data: array<Entry<PageId>>

    ghost predicate Valid()
      reads this
    {
      size <= maxSize + 1 == data.Length
    }

    ghost function Slots(): seq<Entry<PageId>>
      reads this, data
      requires Valid()
    {
      data[..size]
    }

    ghost function View(): Node
      reads this, data
      requires Valid()
    {
      Internal(parentPageId, Slots())
    }

    constructor (maxSize: nat)
      ensures Valid() && this.maxSize == maxSize && fresh(data)
      ensures View() == Internal(INVALID_PAGE_ID, [])
    {
      this.maxSize := maxSize;
      parentPageId, size := INVALID_PAGE_ID, 0;
      data := new Entry<PageId>[maxSize + 1];
    }

    function GetMinSize(): nat {
      MinSize(false, maxSize)
    }

    method ValueIndex(value: PageId) returns (index: int)
      requires Valid()
      ensures IsChild(Slots(), value) ==> index == ChildIndex(Slots(), value)
      ensures !IsChild(Slots(), value) ==> index == -1
    {
      ghost var slots := Slots();
      for i := 0 to size
        invariant forall j :: 0 <= j < i ==> slots[j].value != value
      {
        if data[i].value == value {
          assert slots[i].value == value;
          return i;
        }
      }
      return -1;
    }

    method Lookup(key: int32) returns (child: PageId)
      requires Valid() && 0 < size && Separated(Slots())
      ensures exists i :: Routes(Slots(), key, i) && Slots()[i].value == child
    {
      ghost var slots := Slots();
      var low: int, high: int := 1, size - 1;
      var index := 0;
      while low <= high
        invariant 1 <= low <= high + 1 <= size
        invariant index == low - 1
        invariant 0 < index ==> slots[index].key <= key
        invariant high + 1 < size ==> key < slots[high + 1].key
      {
        var mid := (low + high) / 2;
        if key < data[mid].key {
          high := mid - 1;
        } else {
          index := mid;
          low := mid + 1;
        }
      }
      assert Routes(slots, key, index);
      child := data[index].value;
    }

    method PopulateNewRoot(oldValue: PageId, key: int32, newValue: PageId)
      requires Valid() && 2 <= data.Length
      modifies this`size, data
      ensures Valid() && size == 2
      ensures Slots() == [Entry(old(data[0]).key, oldValue), Entry(key, newValue)]
    {
      data[0] := Entry(data[0].key, oldValue);
      data[1] := Entry(key, newValue);
      size := 2;
    }

    method InsertNodeAfter(oldValue: PageId, key: int32, newValue: PageId) returns (newSize: nat)
      requires Valid() && size <= maxSize && IsChild(Slots(), oldValue)
      modifies this`size, data
      ensures Valid() && newSize == size
      ensures Slots() == InsertSlot(old(Slots()), ChildIndex(old(Slots()), oldValue) + 1, Entry(key, newValue))
    {
      var idx := ValueIndex(oldValue);
      ShiftRight(idx + 1, Entry(key, newValue));
      return size;
    }

    method ShiftRight(index: nat, e: Entry<PageId>)
      requires Valid() && index <= size <= maxSize
      modifies this`size, data
      ensures Valid() && size == old(size) + 1
      ensures Slots() == InsertSlot(old(Slots()), index, e)
    {
      ghost var was := Slots();
      var i := size;
      while i > index
        invariant index <= i <= size
        invariant forall j :: 0 <= j < i ==> data[j] == old(data[j])
        invariant forall j :: i < j <= size ==> data[j] == old(data[j - 1])
        modifies data
      {
        data[i] := data[i - 1];
        i := i - 1;
      }
      data[index] := e;
      size := size + 1;
      ShiftedRight(was, Slots(), index, e);
    }

    method Remove(index: nat)
      requires Valid() && index < size
      modifies this`size, data
      ensures Valid()
      ensures Slots() == RemoveSlot(old(Slots()), index)
    {
      ghost var was := Slots();
      var i := index;
      while i < size - 1
        invariant index <= i <= size - 1
        invariant forall j :: 0 <= j < index ==> data[j] == old(data[j])
        invariant forall j :: index <= j < i ==> data[j] == old(data[j + 1])
        invariant forall j :: i <= j < size ==> data[j] == old(data[j])
        modifies data
      {
        data[i] := data[i + 1];
        i := i + 1;
      }
      size := size - 1;
      ShiftedLeft(was, Slots(), index);
    }

    method SetKeyAt(index: nat, key: int32)
      requires Valid() && index < size
      modifies data
      ensures Valid()
      ensures Slots() == SetKey(old(Slots()), index, key)
    {
      data[index] := data[index].(key := key);
    }

    method RemoveAndReturnOnlyChild() returns (child: PageId)
      requires Valid()
      modifies this`size
      ensures Valid()
      ensures old(size) != 1 ==> child == INVALID_PAGE_ID && size == old(size)
      ensures old(size) == 1 ==> child == old(Slots()[0].value) && size == 0
    {
      if size != 1 {
        return INVALID_PAGE_ID;
      }
      child := data[0].value;
      size := 0;
    }

    method MoveHalfTo(recipient: InternalPage)
      requires Valid() && recipient.Valid() && recipient != this && recipient.data != data
      requires recipient.size == 0 && size <= recipient.data.Length
      modifies this`size, recipient`size, recipient.data
      ensures Valid() && recipient.Valid()
      ensures Slots() == old(Slots()[..size / 2])
      ensures recipient.Slots() == old(Slots()[size / 2..])
    {
      var split := size / 2;
      var move := size - split;
      var i := 0;
      while i < move
        invariant 0 <= i <= move
        invariant forall j :: 0 <= j < i ==> recipient.data[j] == data[split + j]
        modifies recipient.data
      {
        recipient.data[i] := data[split + i];
        i := i + 1;
      }
      recipient.size := recipient.size + move;
      size := size - move;
    }

    method MoveAllTo(recipient: InternalPage, middleKey: int32)
      requires Valid() && recipient.Valid() && recipient != this && recipient.data != data
      requires 0 < size && recipient.size + size <= recipient.data.Length
      modifies this`size, recipient`size, recipient.data
      ensures Valid() && recipient.Valid()
      ensures Slots() == []
      ensures recipient.Slots() == old(recipient.Slots() + SetKey(Slots(), 0, middleKey))
    {
      ghost var left, right := recipient.Slots(), SetKey(Slots(), 0, middleKey);
      var start := recipient.size;
      recipient.data[start] := Entry(middleKey, data[0].value);
      var i := 1;
      while i < size
        invariant 1 <= i <= size
        invariant forall j :: 0 <= j < start ==> recipient.data[j] == left[j]
        invariant recipient.data[start] == Entry(middleKey, data[0].value)
        invariant forall j :: 1 <= j < i ==> recipient.data[start + j] == data[j]
        modifies recipient.data
      {
        recipient.data[start + i] := data[i];
        i := i + 1;
      }
      recipient.size := recipient.size + size;
      size := 0;
      Appended(left, right, recipient.Slots());
    }

    method MoveFirstToEndOf(recipient: InternalPage, middleKey: int32)
      requires Valid() && recipient.Valid() && recipient != this && recipient.data != data
      requires 1 < size && recipient.size < recipient.data.Length
      modifies this`size, data, recipient`size, recipient.data
      ensures Valid() && recipient.Valid()
      ensures Slots() == old([Slots()[1].(key := Slots()[0].key)] + Slots()[2..])
      ensures recipient.Slots() == old(recipient.Slots() + [Slots()[0].(key := middleKey)])
    {
      recipient.data[recipient.size] := Entry(middleKey, data[0].value);
      data[0] := Entry(data[0].key, data[1].value);
      var i := 1;
      while i < size - 1
        invariant 1 <= i <= size - 1
        invariant data[0] == old(data[1].(key := data[0].key))
        invariant forall j :: 1 <= j < i ==> data[j] == old(data[j + 1])
        invariant forall j :: i <= j < size ==> data[j] == old(data[j])
        invariant recipient.data[..recipient.size + 1] == old(recipient.Slots() + [Slots()[0].(key := middleKey)])
        modifies data
      {
        data[i] := data[i + 1];
        i := i + 1;
      }
      size := size - 1;
      recipient.size := recipient.size + 1;
    }

    method MoveLastToFrontOf(recipient: InternalPage, middleKey: int32)
      requires Valid() && recipient.Valid() && recipient != this && recipient.data != data
      requires 0 < size && 0 < recipient.size < recipient.data.Length
      modifies this`size, recipient`size, recipient.data
      ensures Valid() && recipient.Valid()
      ensures Slots() == old(Slots()[..size - 1])
      ensures recipient.Slots() ==
              old([Slots()[size - 1].(key := recipient.Slots()[0].key)] + SetKey(recipient.Slots(), 0, middleKey))
    {
      var i := recipient.size;
      while i > 0
        invariant 0 <= i <= recipient.size
        invariant recipient.data[..i] == old(recipient.data[..i])
        invariant forall j :: i < j <= recipient.size ==> recipient.data[j] == old(recipient.data[j - 1])
        invariant recipient.data[0] == old(recipient.data[0])
        modifies recipient.data
      {
        recipient.data[i] := recipient.data[i - 1];
        i := i - 1;
      }
      recipient.data[0] := Entry(recipient.data[0].key, data[size - 1].value);
      recipient.data[1] := Entry(middleKey, recipient.data[1].value);
      size := size - 1;
      recipient.size := recipient.size + 1;
    }
  }
}
