/** What BaseRecordsFile's operations guarantee, stated over the functions in
    module Storage: where the allocator places blocks, that a payload written
    to its blocks reads back unchanged and touches nothing else, how the
    index changes on append and on swap-delete, when the index grows, what
    path lookup finds, and what creating a database and inserting a record
    leave in the file. */
module StorageProperties {
  import opened Bytes
  import opened Io
  import opened RecordHeaders
  import opened Storage

  function Min(a: int, b: int): int { if a <= b then a else b }

  // ---------------------------------------------------------------------
  // Allocation

  /** allocateRecord puts block i at oldLength + 64*i and grows the file by
      exactly childCount * 64 bytes, so the new blocks lie beyond every byte
      that existed before, and those bytes are kept. (A payload of 2^31 - 64
      bytes or more overflows the int product and is not covered.) */
  lemma {:induction false} AllocateRecordPlacesBlocksAtEnd(s: Store, name: seq<byte>, isDir: bool, dataLength: int)
    requires 0 <= dataLength < TWO_31 - DATA_ENTRY_LENGTH
    ensures var o := AllocateRecord(s, name, isDir, dataLength);
            o.result.Ok? && o.store.dataStartPtr == s.dataStartPtr &&
            |o.store.file| == |s.file| + DATA_ENTRY_LENGTH * o.result.value.childCount &&
            o.store.file[..|s.file|] == s.file &&
            (forall i :: 0 <= i < o.result.value.childCount ==>
               o.result.value.childs[i] == |s.file| + DATA_ENTRY_LENGTH * i &&
               o.result.value.childs[i] + DATA_ENTRY_LENGTH <= |o.store.file|)
  {
    var h := Allocation(name, isDir, |s.file|, dataLength);
    assert h.childCount * DATA_ENTRY_LENGTH < TWO_31;
  }

  // ---------------------------------------------------------------------
  // Payload blocks

  /** Each transfer of the block loops moves between 0 and 64 bytes and ends
      within the payload; when the payload is an exact multiple of 64
      (including 0) the last block moves nothing. */
  lemma {:induction false} BlockTransfersInRange(dataLength: nat, i: nat)
    requires i < dataLength / DATA_ENTRY_LENGTH + 1
    ensures 0 <= BlockLength(dataLength, i) <= DATA_ENTRY_LENGTH
    ensures DATA_ENTRY_LENGTH * i + BlockLength(dataLength, i) <= dataLength
    ensures i == dataLength / DATA_ENTRY_LENGTH ==> BlockLength(dataLength, i) == dataLength % DATA_ENTRY_LENGTH
  {
  }

  /** The blocks of a contiguous layout receive the payload as one
      contiguous write. */
  lemma {:induction false} WriteBlocksContiguous(s: Store, p: nat, childs: seq<int>, data: seq<byte>, k: nat, n: int)
    requires k <= |childs| && k <= |data| / DATA_ENTRY_LENGTH + 1
    requires forall i :: 0 <= i < |childs| ==> childs[i] == p + DATA_ENTRY_LENGTH * i
    requires p + |data| <= |s.file| && n == Min(DATA_ENTRY_LENGTH * k, |data|)
    ensures 0 <= n <= |data|
    ensures WriteBlocks(s, childs, data, k) == Outcome(s.(file := Overwrite(s.file, p, data[..n])), Ok(()))
  {
    if k == 0 {
      WriteNothing(s, p, data, n);
    } else {
      var m := DATA_ENTRY_LENGTH * (k - 1);
      var len := BlockLength(|data|, k - 1);
      BlockTransfersInRange(|data|, k - 1);
      WriteBlocksContiguous(s, p, childs, data, k - 1, m);
      assert childs[k - 1] == p + m;
      WriteBlockJoins(s, p, childs, data, k - 1, m, len, n);
    }
  }

  /** The step of WriteBlocksContiguous: the next block's write joins the
      bytes already written. */
  lemma {:induction false} WriteBlockJoins(s: Store, p: nat, childs: seq<int>, data: seq<byte>, i: nat, m: nat, len: nat, n: int)
    requires i < |childs| && childs[i] == p + m && m == DATA_ENTRY_LENGTH * i && len == BlockLength(|data|, i)
    requires m + len <= |data| && p + |data| <= |s.file| && n == m + len
    requires WriteBlocks(s, childs, data, i) == Outcome(s.(file := Overwrite(s.file, p, data[..m])), Ok(()))
    ensures WriteBlocks(s, childs, data, i + 1) == Outcome(s.(file := Overwrite(s.file, p, data[..n])), Ok(()))
  {
    var prev := s.(file := Overwrite(s.file, p, data[..m]));
    WriteBlocksNext(s, childs, data, i, prev, p + m, m, len);
    JoinWrites(s, prev, p, data, m, len, n);
  }

  /** Writing no bytes leaves the state as it is. */
  lemma {:induction false} WriteNothing(s: Store, p: nat, data: seq<byte>, n: int)
    requires n == 0
    ensures s == s.(file := Overwrite(s.file, p, data[..n]))
  {
    assert data[..n] == [];
  }

  /** Once an iteration of writeRecordData's loop throws, the loop has
      ended: the later iterations change nothing. */
  lemma {:induction false} WriteBlocksStopAtError(s: Store, childs: seq<int>, data: seq<byte>, j: nat, k: nat)
    requires j <= k <= |childs| && WriteBlocks(s, childs, data, j).result.Err?
    ensures WriteBlocks(s, childs, data, k) == WriteBlocks(s, childs, data, j)
  {
    if k > j {
      WriteBlocksStopAtError(s, childs, data, j, k - 1);
    }
  }

  /** Once an iteration of readRecordData's loop throws, the later
      iterations do not run. */
  lemma {:induction false} ReadBlocksStopAtError(f: seq<byte>, childs: seq<int>, dataCount: nat, j: nat, k: nat)
    requires j <= k <= |childs| && ReadBlocks(f, childs, dataCount, j).Err?
    ensures ReadBlocks(f, childs, dataCount, k) == ReadBlocks(f, childs, dataCount, j)
  {
    if k > j {
      ReadBlocksStopAtError(f, childs, dataCount, j, k - 1);
    }
  }

  /** An iteration of writeRecordData's loop whose seek and write succeed:
      the bytes [from, from + len) of the payload go to offset `at`. */
  lemma {:induction false} WriteBlocksNext(s: Store, childs: seq<int>, data: seq<byte>, i: nat, prev: Store, at: int, from: int, len: int)
    requires i < |childs| && childs[i] == at && WriteBlocks(s, childs, data, i) == Outcome(prev, Ok(()))
    requires 0 <= at && from == DATA_ENTRY_LENGTH * i && len == BlockLength(|data|, i) && 0 <= len
    ensures 0 <= from && from + len <= |data|
    ensures WriteBlocks(s, childs, data, i + 1) == Outcome(prev.(file := Overwrite(prev.file, at, data[from..from + len])), Ok(()))
  {
  }

  /** An iteration of writeRecordData's loop whose seek or write throws. */
  lemma {:induction false} WriteBlocksFail(s: Store, childs: seq<int>, data: seq<byte>, i: nat, prev: Store, at: int, len: int)
    requires i < |childs| && childs[i] == at && WriteBlocks(s, childs, data, i) == Outcome(prev, Ok(()))
    requires len == BlockLength(|data|, i) && (at < 0 || len < 0)
    ensures WriteBlocks(s, childs, data, i + 1) ==
            Outcome(prev, Err(if at < 0 then NegativeSeekOffset else IndexOutOfBounds))
  {
  }

  /** An iteration of readRecordData's loop whose seek succeeds and whose
      length is not negative: it copies len bytes of the file at `at` into
      the buffer at `from`, or throws at the end of the file. */
  lemma {:induction false} ReadBlocksNext(f: seq<byte>, childs: seq<int>, dataCount: nat, i: nat, buf: seq<byte>, at: int, from: int, len: int)
    requires i < |childs| && childs[i] == at && ReadBlocks(f, childs, dataCount, i) == Ok(buf)
    requires 0 <= at && from == DATA_ENTRY_LENGTH * i && len == BlockLength(dataCount, i) && 0 <= len
    ensures 0 <= from && from + len <= |buf| == dataCount
    ensures len == 0 ==> ReadBlocks(f, childs, dataCount, i + 1) == Ok(buf)
    ensures len > 0 && at + len > |f| ==> ReadBlocks(f, childs, dataCount, i + 1) == Err(EndOfFile)
    ensures len > 0 && at + len <= |f| ==>
              ReadBlocks(f, childs, dataCount, i + 1) == Ok(buf[..from] + f[at..at + len] + buf[from + len..])
  {
  }

  /** An iteration of readRecordData's loop whose seek offset or length is
      negative. */
  lemma {:induction false} ReadBlocksFail(f: seq<byte>, childs: seq<int>, dataCount: nat, i: nat, buf: seq<byte>, at: int, len: int)
    requires i < |childs| && childs[i] == at && ReadBlocks(f, childs, dataCount, i) == Ok(buf)
    requires len == BlockLength(dataCount, i) && (at < 0 || len < 0)
    ensures ReadBlocks(f, childs, dataCount, i + 1) == Err(if at < 0 then NegativeSeekOffset else IndexOutOfBounds)
  {
  }

  /** Writing the payload's first m bytes and then the next len bytes just
      after them is one write of its first m + len bytes. */
  lemma {:induction false} JoinWrites(s: Store, prev: Store, p: nat, data: seq<byte>, m: nat, len: nat, n: int)
    requires m + len <= |data| && p + |data| <= |s.file| && n == m + len
    requires prev == s.(file := Overwrite(s.file, p, data[..m]))
    ensures prev.(file := Overwrite(prev.file, p + m, data[m..m + len])) == s.(file := Overwrite(s.file, p, data[..n]))
  {
    OverwriteAdjacent(s.file, p, data[..m], data[m..m + len]);
    assert data[..m] + data[m..m + len] == data[..n];
  }

  /** The blocks of a contiguous layout read back the bytes they cover, and
      what the loop has not reached yet is still zero. */
  lemma {:induction false} ReadBlocksContiguous(f: seq<byte>, p: nat, childs: seq<int>, dataCount: nat, k: nat, n: int)
    requires k <= |childs| && k <= dataCount / DATA_ENTRY_LENGTH + 1
    requires forall i :: 0 <= i < |childs| ==> childs[i] == p + DATA_ENTRY_LENGTH * i
    requires p + dataCount <= |f| && n == Min(DATA_ENTRY_LENGTH * k, dataCount)
    ensures 0 <= n <= dataCount
    ensures ReadBlocks(f, childs, dataCount, k) == Ok(f[p..p + n] + Zeros(dataCount - n))
  {
    if k == 0 {
      assert f[p..p] + Zeros(dataCount) == Zeros(dataCount);
    } else {
      var m := DATA_ENTRY_LENGTH * (k - 1);
      BlockTransfersInRange(dataCount, k - 1);
      ReadBlocksContiguous(f, p, childs, dataCount, k - 1, m);
      assert childs[k - 1] == p + m;
      ReadBlockJoins(f, p, childs, dataCount, k - 1, m, n);
    }
  }

  /** The step of ReadBlocksContiguous: the next block's read extends the
      bytes already read. */
  lemma {:induction false} ReadBlockJoins(f: seq<byte>, p: nat, childs: seq<int>, dataCount: nat, i: nat, m: nat, n: int)
    requires i < |childs| && childs[i] == p + m && m == DATA_ENTRY_LENGTH * i && i <= dataCount / DATA_ENTRY_LENGTH
    requires p + dataCount <= |f| && m <= dataCount && n == Min(m + DATA_ENTRY_LENGTH, dataCount)
    requires ReadBlocks(f, childs, dataCount, i) == Ok(f[p..p + m] + Zeros(dataCount - m))
    ensures ReadBlocks(f, childs, dataCount, i + 1) == Ok(f[p..p + n] + Zeros(dataCount - n))
  {
    ReadBlockExtends(f, p, dataCount, i);
  }

  /** Block i of a contiguous layout extends the bytes already read by the
      bytes it covers. */
  lemma {:induction false} ReadBlockExtends(f: seq<byte>, p: nat, dataCount: nat, i: nat)
    requires i <= dataCount / DATA_ENTRY_LENGTH
    requires p + dataCount <= |f|
    ensures var m := DATA_ENTRY_LENGTH * i;
            var m' := Min(m + DATA_ENTRY_LENGTH, dataCount);
            m <= dataCount &&
            ReadBlock(f, f[p..p + m] + Zeros(dataCount - m), p + m, i) == Ok(f[p..p + m'] + Zeros(dataCount - m'))
  {
    var m := DATA_ENTRY_LENGTH * i;
    assert m <= dataCount;
    var buf := f[p..p + m] + Zeros(dataCount - m);
    var len := BlockLength(dataCount, i);
    var m' := Min(m + DATA_ENTRY_LENGTH, dataCount);
    assert m' == m + len;
    if len > 0 {
      assert buf[..m] == f[p..p + m];
      assert buf[m + len..] == Zeros(dataCount - m');
      assert f[p..p + m] + f[p + m..p + m'] == f[p..p + m'];
    } else {
      assert f[p..p + m'] + Zeros(dataCount - m') == buf;
    }
  }

  /** writeRecordData on the blocks the allocator gives a file entry writes
      exactly the payload at the first block, sets dataCount to its length,
      and leaves every other byte of the file as it was. */
  lemma {:induction false} WriteRecordDataIsOneWrite(s: Store, name: seq<byte>, p: nat, data: seq<byte>)
    requires p + |data| <= |s.file|
    ensures var h := Allocation(name, false, p, |data|);
            var o := WriteRecordData(s, h, data);
            o == Outcome(s.(file := Overwrite(s.file, p, data)), Ok(h.(dataCount := |data|))) &&
            |o.store.file| == |s.file| &&
            o.store.file[p..p + |data|] == data &&
            forall i :: 0 <= i < |s.file| && !(p <= i < p + |data|) ==> o.store.file[i] == s.file[i]
  {
    var h := Allocation(name, false, p, |data|);
    WriteBlocksContiguous(s, p, h.childs, data, h.childCount, |data|);
    assert data[..|data|] == data;
  }

  /** readRecordData on a contiguous layout with the allocator's block count
      returns the dataCount bytes starting at the first block. */
  lemma {:induction false} ReadRecordDataContiguous(f: seq<byte>, h: HeaderFields, p: nat)
    requires h.dataCount >= 0 && h.childCount == h.dataCount / DATA_ENTRY_LENGTH + 1 == |h.childs|
    requires forall i :: 0 <= i < |h.childs| ==> h.childs[i] == p + DATA_ENTRY_LENGTH * i
    requires p + h.dataCount <= |f|
    ensures ReadRecordData(f, h) == Ok(f[p..p + h.dataCount])
  {
    ReadBlocksContiguous(f, p, h.childs, h.dataCount, h.childCount, h.dataCount);
    assert Zeros(0) == [];
    assert f[p..p + h.dataCount] + [] == f[p..p + h.dataCount];
  }

  /** readRecordData after writeRecordData returns exactly the payload. */
  lemma {:induction false} WriteThenReadRecordData(s: Store, name: seq<byte>, p: nat, data: seq<byte>)
    requires p + |data| <= |s.file|
    ensures var o := WriteRecordData(s, Allocation(name, false, p, |data|), data);
            o.result.Ok? && o.result.value.dataCount == |data| &&
            ReadRecordData(o.store.file, o.result.value) == Ok(data)
  {
    WriteRecordDataIsOneWrite(s, name, p, data);
    var o := WriteRecordData(s, Allocation(name, false, p, |data|), data);
    ReadRecordDataContiguous(o.store.file, o.result.value, p);
  }

  /** A directory header has no blocks to write (childCount is 0), so its
      payload is dropped: the file is unchanged and reading it back gives
      dataCount zero bytes. */
  lemma {:induction false} DirectoryPayloadIsDropped(s: Store, name: seq<byte>, p: int, data: seq<byte>)
    ensures var o := WriteRecordData(s, Allocation(name, true, p, |data|), data);
            o.store == s && o.result.Ok? &&
            ReadRecordData(s.file, o.result.value) == Ok(Zeros(|data|))
  {
  }
}
