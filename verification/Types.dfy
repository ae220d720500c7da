/** Identifiers and small datatypes shared by the storage and execution modules. */
module Types {
  /** Key type of the index instantiation, `int` in the source. */
  type int32 = x: int | -0x8000_0000 <= x < 0x8000_0000

  const INT32_MIN: int := -0x8000_0000
  const INT32_LIMIT: int := 0x8000_0000

  type PageId = int
  type FrameId = int

  const INVALID_PAGE_ID: PageId := -1

  const PAGE_SIZE: nat := 4096

  /** The header of a table page, and one entry of its slot directory. */
  const HEADER_SIZE: nat := 16
  const SLOT_SIZE: nat := 4

  type byte = x: int | 0 <= x < 256

  function Repeat(b: byte, n: nat): seq<byte> {
    seq(n, _ => b)
  }

  const ZEROS: seq<byte> := Repeat(0, PAGE_SIZE)

  /** The bytes of one page. */
  type PageData = s: seq<byte> | |s| == PAGE_SIZE witness ZEROS

  /** A record identifier: a page and a slot on that page. */
  datatype Rid = Rid(pageId: PageId, slot: nat)

  datatype Option<+T> = None | Some(value: T)

  ghost predicate Distinct<T(!new)>(s: seq<T>) {
    forall i, j :: 0 <= i < j < |s| ==> s[i] != s[j]
  }

  lemma EmptyWithoutMembers<T>(s: set<T>)
    ensures (forall x :: x !in s) ==> s == {}
  {
    if forall x :: x !in s {
      assert s == {};
    }
  }

  lemma SomeMember<T>(s: set<T>) returns (x: T)
    requires s != {}
    ensures x in s
  {
    EmptyWithoutMembers(s);
    x :| x in s;
  }

  /** Some member; loops over a container without an order take their elements this way. */
  method AnyOf<T>(s: set<T>) returns (x: T)
    requires s != {}
    ensures x in s
  {
    EmptyWithoutMembers(s);
    x :| x in s;
  }
}
