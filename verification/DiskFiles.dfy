/**
 The file under the disk manager: bytes, and the fail bit of the stream.  Reading a page past the
 end of the file sets that bit, and nothing clears it: from then on nothing is read or written.
 */
module DiskFiles {
  import opened Types
  import opened DiskManagers

  // ---------- Bytes ----------

  /** The byte at `p`; past the end of the file, what a short read is filled up with. */
  function ByteAt(file: seq<byte>, p: nat): byte {
    if p < |file| then file[p] else 0
  }

  function BytesFrom(file: seq<byte>, offset: nat, n: nat): (bytes: seq<byte>)
    ensures |bytes| == n && forall k :: 0 <= k < n ==> bytes[k] == ByteAt(file, offset + k)
  {
    if n == 0 then [] else BytesFrom(file, offset, n - 1) + [ByteAt(file, offset + n - 1)]
  }

  /** The page as the file has it. */
  function PageIn(file: seq<byte>, id: nat): PageData {
    BytesFrom(file, id * PAGE_SIZE, PAGE_SIZE)
  }

  lemma NothingInEmpty(id: nat)
    ensures PageIn([], id) == ZEROS
  {
    forall k | 0 <= k < PAGE_SIZE ensures PageIn([], id)[k] == ZEROS[k] {
      assert PageIn([], id)[k] == ByteAt([], id * PAGE_SIZE + k);
    }
  }

  /** The file after a write at `offset`; a gap before it reads as zeros. */
  function Overwritten(file: seq<byte>, offset: nat, data: seq<byte>): seq<byte> {
    var base := if |file| < offset then file + Repeat(0, offset - |file|) else file;
    base[..offset] + data + if offset + |data| < |base| then base[offset + |data|..] else []
  }

  lemma OverwrittenByte(file: seq<byte>, offset: nat, data: seq<byte>, p: nat)
    ensures ByteAt(Overwritten(file, offset, data), p) ==
            if offset <= p < offset + |data| then data[p - offset] else ByteAt(file, p)
  {
  }

  /** A page that was written reads back, and all others are as they were. */
  lemma ReadsBack(file: seq<byte>, id: nat, data: PageData, i: nat)
    ensures PageIn(Overwritten(file, id * PAGE_SIZE, data), i) == if i == id then data else PageIn(file, i)
  {
    var file' := Overwritten(file, id * PAGE_SIZE, data);
    forall k | 0 <= k < PAGE_SIZE
      ensures PageIn(file', i)[k] == if i == id then data[k] else PageIn(file, i)[k]
    {
      OverwrittenByte(file, id * PAGE_SIZE, data, i * PAGE_SIZE + k);
    }
  }

  // ---------- The stream ----------

  class DiskFile {
    var file: seq<byte>
    var failed: bool

    constructor ()
      ensures file == [] && !failed
    {
      file, failed := [], false;
    }

    method ReadPage(id: nat) returns (data: PageData)
      modifies this`failed
      ensures data == if old(failed) then ZEROS else PageIn(file, id)
      ensures failed <==> old(failed) || |file| < (id + 1) * PAGE_SIZE
    {
      var offset := id * PAGE_SIZE;
      var read: seq<byte> := [];
      if !failed {
        read := if offset + PAGE_SIZE <= |file| then file[offset..offset + PAGE_SIZE]
                else if offset < |file| then file[offset..] else [];
        failed := |read| < PAGE_SIZE;
      }
      data := read + Repeat(0, PAGE_SIZE - |read|);
      forall k | 0 <= k < PAGE_SIZE && !old(failed) ensures data[k] == PageIn(file, id)[k] {
        assert PageIn(file, id)[k] == ByteAt(file, offset + k);
      }
      assert !old(failed) ==> data == PageIn(file, id);
    }

    method WritePage(id: nat, data: PageData)
      modifies this`file
      ensures file == if failed then old(file) else Overwritten(old(file), id * PAGE_SIZE, data)
    {
      if !failed {
        file := Overwritten(file, id * PAGE_SIZE, data);
      }
    }
  }

  // ---------- Whole runs ----------

  ghost predicate Answered(ops: seq<DiskOp>, answers: seq<Option<PageData>>) {
    && |answers| == |ops|
    && forall i :: 0 <= i < |ops| ==> answers[i] == if ops[i].ReadBlock? then Some(Answer(ops[..i], ops[i].id)) else None
  }

  ghost predicate InStep(disk: DiskFile, ops: seq<DiskOp>)
    reads disk
  {
    && (disk.failed <==> ShortRead(ops))
    && (!disk.failed ==> |disk.file| == PagesAfter(ops) * PAGE_SIZE)
    && (!disk.failed ==> forall id: nat :: PageIn(disk.file, id) == BlockIn(BlocksAfter(ops), id))
  }

  method Perform(disk: DiskFile, op: DiskOp, ghost ops: seq<DiskOp>) returns (answer: Option<PageData>)
    requires InStep(disk, ops)
    modifies disk
    ensures InStep(disk, ops + [op])
    ensures answer == if op.ReadBlock? then Some(Answer(ops, op.id)) else None
  {
    AfterNext(ops, op);
    match op
    case ReadBlock(id) =>
      var data := disk.ReadPage(id);
      answer := Some(data);
    case WriteBlock(id, data) =>
      ghost var file := disk.file;
      disk.WritePage(id, data);
      answer := None;
      forall i: nat | !disk.failed ensures PageIn(disk.file, i) == BlockIn(BlocksAfter(ops + [op]), i) {
        ReadsBack(file, id, data, i);
      }
  }

  /** Every run of the disk manager on a new file. */
  method Run(ops: seq<DiskOp>) returns (answers: seq<Option<PageData>>)
    ensures Answered(ops, answers)
  {
    var disk := new DiskFile();
    answers := [];
    forall id: nat ensures PageIn([], id) == ZEROS {
      NothingInEmpty(id);
    }
    for n := 0 to |ops|
      invariant Answered(ops[..n], answers) && InStep(disk, ops[..n])
    {
      var answer := Perform(disk, ops[n], ops[..n]);
      assert ops[..n + 1] == ops[..n] + [ops[n]];
      forall i | 0 <= i < n ensures ops[..n + 1][..i] == ops[..n][..i] {
      }
      answers := answers + [answer];
    }
    assert ops[..|ops|] == ops;
  }

  /** One short read, and a page that is written afterwards reads as zeros. */
  lemma ShortReadLosesWrite(data: PageData)
    ensures var ops := [ReadBlock(0), WriteBlock(0, data)];
            Answer(ops, 0) == ZEROS && BlockIn(BlocksAfter(ops), 0) == data
  {
    var ops := [ReadBlock(0), WriteBlock(0, data)];
    assert ops[..1] == [ReadBlock(0)] && ops[..1][..0] == [];
    assert ShortRead(ops[..1]);
  }
}
