/**
 The pages on disk, as a plain store: a page that was never written reads as zeros.  The file that
 holds them answers in the same way until a page is read that lies past its end.
 */
module DiskManagers {
  import opened Types

  function BlockIn(blocks: map<PageId, PageData>, id: PageId): PageData {
    if id in blocks then blocks[id] else ZEROS
  }

  // ---------- Runs ----------

  datatype DiskOp = ReadBlock(id: nat) | WriteBlock(id: nat, data: PageData)

  /** The pages as a plain map. */
  function BlocksAfter(ops: seq<DiskOp>): map<PageId, PageData> {
    if ops == [] then map[] else
      var n := |ops| - 1;
      match ops[n]
      case WriteBlock(id, data) => BlocksAfter(ops[..n])[id := data]
      case ReadBlock(_) => BlocksAfter(ops[..n])
  }

  /** How many pages the writes make the file hold. */
  function PagesAfter(ops: seq<DiskOp>): nat {
    if ops == [] then 0 else
      var n := |ops| - 1;
      var before := PagesAfter(ops[..n]);
      if ops[n].WriteBlock? && before <= ops[n].id then ops[n].id + 1 else before
  }

  /** Some operation has read a page past the end of the file. */
  predicate ShortRead(ops: seq<DiskOp>) {
    ops != [] &&
    var n := |ops| - 1;
    ShortRead(ops[..n]) || (ops[n].ReadBlock? && PagesAfter(ops[..n]) <= ops[n].id)
  }

  /** What the file answers: the page last written, or zeros once a read was short. */
  function Answer(ops: seq<DiskOp>, id: nat): PageData {
    if ShortRead(ops) then ZEROS else BlockIn(BlocksAfter(ops), id)
  }

  lemma AfterNext(ops: seq<DiskOp>, op: DiskOp)
    ensures BlocksAfter(ops + [op]) == if op.WriteBlock? then BlocksAfter(ops)[op.id := op.data] else BlocksAfter(ops)
    ensures PagesAfter(ops + [op]) == if op.WriteBlock? && PagesAfter(ops) <= op.id then op.id + 1 else PagesAfter(ops)
    ensures ShortRead(ops + [op]) <==> ShortRead(ops) || (op.ReadBlock? && PagesAfter(ops) <= op.id)
  {
    assert (ops + [op])[..|ops|] == ops;
  }

  /** The file has every page that was written. */
  lemma {:induction false} WrittenHeld(ops: seq<DiskOp>, id: PageId)
    requires id in BlocksAfter(ops)
    ensures 0 <= id < PagesAfter(ops)
    decreases |ops|
  {
    var n := |ops| - 1;
    if !(ops[n].WriteBlock? && ops[n].id == id) {
      WrittenHeld(ops[..n], id);
    }
  }

  // ---------- The disk manager ----------

  class DiskManager {
    var blocks: map<PageId, PageData>
    var nextPageId: PageId
    ghost var ops: seq<DiskOp>            // all reads and writes so far

    ghost predicate Valid()
      reads this
    {
      0 <= nextPageId && blocks == BlocksAfter(ops) && forall id :: id in blocks ==> 0 <= id < nextPageId
    }

    constructor ()
      ensures Valid() && blocks == map[] && nextPageId == 0 && ops == []
    {
      blocks, nextPageId, ops := map[], 0, [];
    }

    function Block(id: PageId): PageData
      reads this`blocks
    {
      BlockIn(blocks, id)
    }

    /** The file gives the same bytes, as long as no read has been short; that of a page once written is not. */
    method ReadPage(id: PageId) returns (data: PageData)
      requires Valid() && 0 <= id
      modifies this`ops
      ensures Valid() && ops == old(ops) + [ReadBlock(id)] && data == Block(id)
      ensures !ShortRead(ops) ==> data == Answer(old(ops), id)
      ensures ShortRead(ops) ==> old(ShortRead(ops)) || id !in blocks
    {
      AfterNext(ops, ReadBlock(id));
      if id in blocks {
        WrittenHeld(ops, id);
      }
      data := Block(id);
      ops := ops + [ReadBlock(id)];
    }

    method WritePage(id: PageId, data: PageData)
      requires Valid() && 0 <= id < nextPageId
      modifies this`blocks, this`ops
      ensures Valid() && ops == old(ops) + [WriteBlock(id, data)] && blocks == old(blocks)[id := data]
      ensures forall i :: Block(i) == if i == id then data else old(Block(i))
      ensures ShortRead(ops) <==> old(ShortRead(ops))
    {
      AfterNext(ops, WriteBlock(id, data));
      blocks := blocks[id := data];
      ops := ops + [WriteBlock(id, data)];
    }

    method AllocatePage() returns (id: PageId)
      requires Valid()
      modifies this`nextPageId
      ensures Valid() && id == old(nextPageId) && nextPageId == id + 1
    {
      id := nextPageId;
      nextPageId := nextPageId + 1;
    }
  }
}
