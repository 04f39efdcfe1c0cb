/** What each operation of BaseRecordsFile does to the database, as a
    function of the file's bytes and the cached data-start pointer. The class
    in records_file.dfy performs these operations step by step and is proved
    to agree with them; the lemmas at the end of this module state what the
    operations guarantee. */
module Storage {
  import opened Bytes
  import opened Io
  import opened RecordHeaders

  /** Layout constants of the file. */
  const FILE_HEADERS_REGION_LENGTH: int := 16
  const INDEX_ENTRY_LENGTH: int := 64
  const NUM_RECORDS_HEADER_LOCATION: int := 0
  const DATA_START_HEADER_LOCATION: int := 4
  const ROOT_POSITION: int := 0
  /** File.separator, fixed to '/'. */
  const SEPARATOR: byte := 47
  const ROOT_KEY: seq<byte> := [SEPARATOR]
  /** Index positions whose slot offset 16 + 64*pos does not overflow the
      int multiplication that computes it. */
  const MAX_SLOTS: int := 0x200_0000

  /** The value handed to insertRecord: a name, a directory flag and a payload. */
  datatype Entry = Entry(name: seq<byte>, isDir: bool, data: seq<byte>)

  /** Entry(name, isDir): an entry with an empty payload. */
  function EmptyEntry(name: seq<byte>, isDir: bool): Entry { Entry(name, isDir, []) }

  /** The engine's state: the file contents and the field dataStartPtr. */
  datatype Store = Store(file: seq<byte>, dataStartPtr: int)

  /** The state an operation leaves and how it ended. On an error the state
      is the one at the moment the exception was thrown. */
  datatype Outcome<T> = Outcome(store: Store, result: Result<T>)

  // ---------------------------------------------------------------------
  // File header and index slots

  /** indexPositionToRecordHeaderFp: 16 + 64 * pos, where the product is
      computed in 32-bit int arithmetic. */
  function IndexPositionToRecordHeaderFp(pos: int): (fp: int)
    ensures 0 <= pos < MAX_SLOTS ==> fp == FILE_HEADERS_REGION_LENGTH + INDEX_ENTRY_LENGTH * pos
    ensures IsInt32(fp - FILE_HEADERS_REGION_LENGTH)
  {
    FILE_HEADERS_REGION_LENGTH + Wrap32(INDEX_ENTRY_LENGTH * pos)
  }

  /** seek(off) followed by readInt. */
  function ReadIntAt(f: seq<byte>, off: int): (r: Result<int>)
    ensures r.Ok? ==> IsInt32(r.value)
    ensures r.Ok? <==> 0 <= off && off + 4 <= |f|
  {
    if off < 0 then Err(NegativeSeekOffset)
    else var p :- ReadInt(From(f, off)); Ok(p.value)
  }

  /** seek(off) followed by readLong. */
  function ReadLongAt(f: seq<byte>, off: int): (r: Result<int>)
    ensures r.Ok? ==> IsInt64(r.value)
    ensures r.Ok? <==> 0 <= off && off + 8 <= |f|
  {
    if off < 0 then Err(NegativeSeekOffset)
    else var p :- ReadLong(From(f, off)); Ok(p.value)
  }

  /** readNumRecordsHeader: the signed big-endian int in bytes 0..4. */
  function ReadNumRecordsHeader(f: seq<byte>): (r: Result<int>)
    ensures r.Ok? <==> 4 <= |f|
    ensures r.Err? ==> r.error == EndOfFile
    ensures r.Ok? ==> IsInt32(r.value) && r.value == FromBESigned(f[..4])
  {
    ReadIntAt(f, NUM_RECORDS_HEADER_LOCATION)
  }

  /** readDataStartHeader: the signed big-endian long in bytes 4..12. */
  function ReadDataStartHeader(f: seq<byte>): (r: Result<int>)
    ensures r.Ok? <==> 12 <= |f|
    ensures r.Err? ==> r.error == EndOfFile
    ensures r.Ok? ==> IsInt64(r.value) && r.value == FromBESigned(f[4..12])
  {
    assert 12 <= |f| ==> From(f, DATA_START_HEADER_LOCATION)[..8] == f[4..12];
    ReadLongAt(f, DATA_START_HEADER_LOCATION)
  }

  /** writeNumRecordsHeader: the count becomes the first four bytes, and
      the rest of the file (if any) follows unchanged. */
  function WriteNumRecordsHeader(s: Store, numRecords: int): (t: Store)
    ensures t.dataStartPtr == s.dataStartPtr
    ensures t.file == EncodeInt32(numRecords) + From(s.file, 4)
  {
    s.(file := Overwrite(s.file, NUM_RECORDS_HEADER_LOCATION, EncodeInt32(numRecords)))
  }

  /** writeDataStartPtrHeader: the pointer becomes bytes 4..12, between the
      count and the rest of the file. */
  function WriteDataStartPtrHeader(s: Store, dataStartPtr: int): (t: Store)
    ensures t.dataStartPtr == s.dataStartPtr
    ensures |t.file| == if |s.file| < 12 then 12 else |s.file|
    ensures 4 <= |s.file| ==> t.file == s.file[..4] + EncodeInt64(dataStartPtr) + From(s.file, 12)
  {
    s.(file := Overwrite(s.file, DATA_START_HEADER_LOCATION, EncodeInt64(dataStartPtr)))
  }

  /** setFileLength: a negative length throws; any other truncates the file
      or extends it with zeros, byte by byte. */
  function SetFileLength(s: Store, n: int): (o: Outcome<()>)
    ensures n < 0 ==> o == Outcome(s, Err(NegativeLength))
    ensures n >= 0 ==> o.result.Ok? && o.store.dataStartPtr == s.dataStartPtr && |o.store.file| == n
    ensures n >= 0 ==> forall i :: 0 <= i < n ==> o.store.file[i] == ByteAt(s.file, i)
  {
    if n < 0 then Outcome(s, Err(NegativeLength)) else Outcome(s.(file := Resize(s.file, n)), Ok(()))
  }

  /** seek(off) followed by RecordHeader.read: the header stored at `off`. */
  function DecodeAt(f: seq<byte>, off: int): (r: Result<HeaderFields>)
    ensures r.Ok? ==> Decodable(r.value)
  {
    if off < 0 then Err(NegativeSeekOffset)
    else var p :- Decode(From(f, off)); Ok(p.value)
  }

  /** readRecordHeaderFromIndex: what slot `position` decodes to; a
      negative position fails at the seek. */
  function ReadRecordHeaderFromIndex(f: seq<byte>, position: int): (r: Result<HeaderFields>)
    ensures r.Ok? ==> Decodable(r.value)
    ensures -MAX_SLOTS <= position < 0 ==> r == Err(NegativeSeekOffset)
  {
    assert -MAX_SLOTS <= position < 0 ==> IsInt32(INDEX_ENTRY_LENGTH * position);
    DecodeAt(f, IndexPositionToRecordHeaderFp(position))
  }

  /** seek(off) followed by RecordHeader.write: the encoding replaces the
      bytes at off, the bytes before and after it stay. A negative offset or
      an over-long name throws, and neither error changes the file. */
  function WriteHeaderAt(s: Store, off: int, h: HeaderFields): (o: Outcome<()>)
    requires h.childCount <= |h.childs|
    ensures o.store.dataStartPtr == s.dataStartPtr
    ensures o.result.Err? <==> off < 0 || |h.name| > MAX_UTF_LENGTH
    ensures o.result.Err? ==> o.store == s
    ensures o.result.Err? ==> o.result.error == if off < 0 then NegativeSeekOffset else UtfDataFormat
    ensures o.result.Ok? ==>
              |o.store.file| == (if off + EncodedSize(h) <= |s.file| then |s.file| else off + EncodedSize(h)) &&
              o.store.file[off..off + EncodedSize(h)] == Encode(h).value
    ensures o.result.Ok? && off <= |s.file| ==> o.store.file[..off] == s.file[..off]
    ensures o.result.Ok? && off + EncodedSize(h) <= |s.file| ==>
              o.store.file[off + EncodedSize(h)..] == s.file[off + EncodedSize(h)..]
  {
    if off < 0 then Outcome(s, Err(NegativeSeekOffset))
    else match Encode(h)
      case Err(e) => Outcome(s, Err(e))
      case Ok(bytes) => Outcome(s.(file := Overwrite(s.file, off, bytes)), Ok(()))
  }

  /** writeRecordHeaderToIndex: the header goes to the slot of its indexPosition. */
  function WriteRecordHeaderToIndex(s: Store, h: HeaderFields, indexPosition: int): (o: Outcome<()>)
    requires h.childCount <= |h.childs|
    ensures o.store.dataStartPtr == s.dataStartPtr
    ensures o.result.Err? ==> o.store == s
    ensures 0 <= indexPosition < MAX_SLOTS ==> (o.result.Ok? <==> |h.name| <= MAX_UTF_LENGTH)
    ensures 0 <= indexPosition < MAX_SLOTS && o.result.Ok? ==>
              var at := FILE_HEADERS_REGION_LENGTH + INDEX_ENTRY_LENGTH * indexPosition;
              at + EncodedSize(h) <= |o.store.file| && o.store.file[at..at + EncodedSize(h)] == Encode(h).value
  {
    WriteHeaderAt(s, IndexPositionToRecordHeaderFp(indexPosition), h)
  }

  /** addEntryToIndex: write the header at slot currentNumRecords, then store
      currentNumRecords + 1 as the count; the result is the header's new
      indexPosition. */
  function AddEntryToIndex(s: Store, h: HeaderFields, currentNumRecords: int): (o: Outcome<int>)
    requires h.childCount <= |h.childs|
    ensures o.store.dataStartPtr == s.dataStartPtr
    ensures o.result.Err? ==> o.store == s
    ensures o.result.Ok? ==> o.result.value == currentNumRecords
    ensures o.result.Ok? ==> 4 <= |o.store.file| && o.store.file[..4] == EncodeInt32(Wrap32(currentNumRecords + 1))
    ensures 0 <= currentNumRecords < MAX_SLOTS ==> (o.result.Ok? <==> |h.name| <= MAX_UTF_LENGTH)
  {
    var w := WriteHeaderAt(s, IndexPositionToRecordHeaderFp(currentNumRecords), h);
    if w.result.Err? then Outcome(w.store, Err(w.result.error))
    else Outcome(WriteNumRecordsHeader(w.store, Wrap32(currentNumRecords + 1)), Ok(currentNumRecords))
  }

  /** deleteEntryFromIndex: unless the target is the last slot, the last
      header is read and rewritten at the target's slot; then the count
      becomes currentNumRecords - 1. */
  function DeleteEntryFromIndex(s: Store, target: int, currentNumRecords: int): (o: Outcome<()>)
    ensures o.store.dataStartPtr == s.dataStartPtr
    ensures o.result.Err? ==> o.store == s
    ensures target == Wrap32(currentNumRecords - 1) ==> o.result.Ok?
    ensures o.result.Ok? ==> 4 <= |o.store.file| && o.store.file[..4] == EncodeInt32(Wrap32(currentNumRecords - 1))
  {
    var lastPos := Wrap32(currentNumRecords - 1);
    if target != lastPos then
      match ReadRecordHeaderFromIndex(s.file, lastPos)
      case Err(e) => Outcome(s, Err(e))
      case Ok(last) =>
        var w := WriteHeaderAt(s, IndexPositionToRecordHeaderFp(target), last);
        if w.result.Err? then w
        else Outcome(WriteNumRecordsHeader(w.store, lastPos), Ok(()))
    else Outcome(WriteNumRecordsHeader(s, lastPos), Ok(()))
  }

  /** insureIndexSpace: only an empty index is ever grown; with records
      present nothing happens, whatever the space. */
  function InsureIndexSpace(s: Store, requiredNumRecords: int): (o: Outcome<()>)
    ensures o.result.Ok? <==> 4 <= |s.file|
    ensures o.result.Err? ==> o.store == s
    ensures o.store != s ==>
              ReadNumRecordsHeader(s.file) == Ok(0) &&
              o.store.dataStartPtr == IndexPositionToRecordHeaderFp(requiredNumRecords) > |s.file|
    ensures o.store != s && 0 <= requiredNumRecords < MAX_SLOTS ==> |o.store.file| == o.store.dataStartPtr
  {
    match ReadNumRecordsHeader(s.file)
    case Err(e) => Outcome(s, Err(e))
    case Ok(currentNumRecords) =>
      var endIndexPtr := IndexPositionToRecordHeaderFp(requiredNumRecords);
      if endIndexPtr > |s.file| && currentNumRecords == 0 then
        var grown := Store(Resize(s.file, endIndexPtr), endIndexPtr);
        Outcome(WriteDataStartPtrHeader(grown, endIndexPtr), Ok(()))
      else Outcome(s, Ok(()))
  }

  // ---------------------------------------------------------------------
  // Data blocks

  /** allocateRecord: the header's blocks start at the current end of file,
      which then grows by childCount * 64 (an int product). */
  function AllocateRecord(s: Store, name: seq<byte>, isDir: bool, dataLength: int): (o: Outcome<HeaderFields>)
    requires 0 <= dataLength < TWO_31
    ensures o.store.dataStartPtr == s.dataStartPtr
    ensures o.result.Err? ==> o == Outcome(s, Err(NegativeLength))
    ensures o.result.Ok? ==> var h := o.result.value;
              h.name == name && h.isDir == isDir && h.dataCount == 0 && h.childCount <= |h.childs| &&
              |h.childs| > 0 && h.childs[0] == |s.file|
    ensures isDir ==> o.result.Ok? && o.store == s
  {
    var fp := |s.file|;
    var h := Allocation(name, isDir, fp, dataLength);
    var grown := SetFileLength(s, fp + Wrap32(h.childCount * DATA_ENTRY_LENGTH));
    Outcome(grown.store, if grown.result.Err? then Err(grown.result.error) else Ok(h))
  }

  /** left, or DATA_ENTRY_LENGTH: the number of bytes moved to or from block i. */
  function BlockLength(dataCount: int, i: nat): int
  {
    var left := dataCount - DATA_ENTRY_LENGTH * i;
    if left < DATA_ENTRY_LENGTH then left else DATA_ENTRY_LENGTH
  }

  /** One iteration of writeRecordData's loop: seek(at) then
      write(data, 64 * i, len). */
  function WriteBlock(s: Store, at: int, data: seq<byte>, i: nat): Outcome<()>
  {
    var from := DATA_ENTRY_LENGTH * i;
    var len := BlockLength(|data|, i);
    if at < 0 then Outcome(s, Err(NegativeSeekOffset))
    else if len < 0 then Outcome(s, Err(IndexOutOfBounds))
    else Outcome(s.(file := Overwrite(s.file, at, data[from..from + len])), Ok(()))
  }

  /** The first k iterations of writeRecordData's loop. */
  function WriteBlocks(s: Store, childs: seq<int>, data: seq<byte>, k: nat): (o: Outcome<()>)
    requires k <= |childs|
    ensures o.store.dataStartPtr == s.dataStartPtr
    ensures |o.store.file| >= |s.file|
    ensures o.result.Err? ==> o.result.error == NegativeSeekOffset || o.result.error == IndexOutOfBounds
  {
    if k == 0 then Outcome(s, Ok(()))
    else
      var o := WriteBlocks(s, childs, data, k - 1);
      if o.result.Err? then o else WriteBlock(o.store, childs[k - 1], data, k - 1)
  }

  /** The number of iterations of a loop `for (i = 0; i < childCount; i++)`. */
  function Iterations(h: HeaderFields): (n: nat)
    requires h.childCount <= |h.childs|
    ensures n <= |h.childs|
  {
    if h.childCount <= 0 then 0 else h.childCount
  }

  /** writeRecordData: sets dataCount to the payload length (the new header
      is the result), then writes the payload block by block. No check that
      the payload fits the blocks. */
  function WriteRecordData(s: Store, h: HeaderFields, data: seq<byte>): (o: Outcome<HeaderFields>)
    requires h.childCount <= |h.childs|
    ensures o.store.dataStartPtr == s.dataStartPtr && |o.store.file| >= |s.file|
    ensures o.result.Ok? ==> o.result.value == h.(dataCount := |data|)
    ensures Iterations(h) == 0 ==> o == Outcome(s, Ok(h.(dataCount := |data|)))
  {
    var o := WriteBlocks(s, h.childs, data, Iterations(h));
    Outcome(o.store, if o.result.Err? then Err(o.result.error) else Ok(h.(dataCount := |data|)))
  }

  /** One iteration of readRecordData's loop: seek(at) then
      readFully(buf, 64 * i, len). */
  function ReadBlock(f: seq<byte>, buf: seq<byte>, at: int, i: nat): (r: Result<seq<byte>>)
    ensures r.Ok? ==> |r.value| == |buf|
  {
    var from := DATA_ENTRY_LENGTH * i;
    var len := BlockLength(|buf|, i);
    if at < 0 then Err(NegativeSeekOffset)
    else if len < 0 then Err(IndexOutOfBounds)
    else if len == 0 then Ok(buf)
    else if at + len > |f| then Err(EndOfFile)
    else Ok(buf[..from] + f[at..at + len] + buf[from + len..])
  }

  /** The buffer after the first k iterations of readRecordData's loop. */
  function ReadBlocks(f: seq<byte>, childs: seq<int>, dataCount: nat, k: nat): (r: Result<seq<byte>>)
    requires k <= |childs|
    ensures r.Ok? ==> |r.value| == dataCount
  {
    if k == 0 then Ok(Zeros(dataCount))
    else
      var buf :- ReadBlocks(f, childs, dataCount, k - 1);
      ReadBlock(f, buf, childs[k - 1], k - 1)
  }

  /** readRecordData(RecordHeader): a buffer of dataCount bytes filled from
      the header's blocks. */
  function ReadRecordData(f: seq<byte>, h: HeaderFields): (r: Result<seq<byte>>)
    requires h.childCount <= |h.childs|
    ensures r.Ok? ==> |r.value| == h.dataCount
    ensures h.dataCount < 0 ==> r == Err(NegativeArraySize)
  {
    if h.dataCount < 0 then Err(NegativeArraySize)
    else ReadBlocks(f, h.childs, h.dataCount, Iterations(h))
  }

  // ---------------------------------------------------------------------
  // Path resolution

  /** parts[0] of path.split("/"), or None when split returns no parts
      (a non-empty path made only of separators). */
  function FirstComponent(path: seq<byte>): (r: Option<seq<byte>>)
    ensures r.None? <==> |path| > 0 && forall i :: 0 <= i < |path| ==> path[i] == SEPARATOR
    ensures r.Some? ==> SEPARATOR !in r.value && r.value <= path
    ensures r.Some? && |r.value| < |path| ==> path[|r.value|] == SEPARATOR
  {
    if path == [] then Some([])
    else if path[0] == SEPARATOR then
      if forall i :: 0 <= i < |path| ==> path[i] == SEPARATOR then None else Some([])
    else
      var tail := FirstComponent(path[1..]);
      match tail
      case Some(c) => Some([path[0]] + c)
      case None => Some([path[0]])
  }

  /** getChildRecordHeader's loop over the given child offsets: the first
      header, read at one of them, whose name is `dir`. */
  function SearchChildren(f: seq<byte>, offsets: seq<int>, dir: seq<byte>): (r: Result<Option<HeaderFields>>)
    ensures r.Ok? && r.value.Some? ==> r.value.value.name == dir
  {
    if offsets == [] then Ok(None)
    else
      var h :- DecodeAt(f, offsets[0]);
      if h.name == dir then Ok(Some(h)) else SearchChildren(f, offsets[1..], dir)
  }

  /** The search reports "absent" exactly when every child reads back under
      another name. */
  lemma {:induction false} SearchChildrenAbsent(f: seq<byte>, offsets: seq<int>, dir: seq<byte>)
    ensures SearchChildren(f, offsets, dir) == Ok(None) <==> PrecedingMiss(f, offsets, dir, |offsets|)
  {
    if offsets != [] {
      SearchChildrenAbsent(f, offsets[1..], dir);
      var d := DecodeAt(f, offsets[0]);
      if d.Ok? && d.value.name != dir {
        MissShift(f, offsets, dir, |offsets|);
      }
    }
  }

  /** A header the search returns is the first child named `dir`. */
  lemma {:induction false} SearchChildrenFindsFirst(f: seq<byte>, offsets: seq<int>, dir: seq<byte>)
    requires SearchChildren(f, offsets, dir).Ok? && SearchChildren(f, offsets, dir).value.Some?
    ensures exists i :: 0 <= i < |offsets| && DecodeAt(f, offsets[i]) == Ok(SearchChildren(f, offsets, dir).value.value) &&
                        PrecedingMiss(f, offsets, dir, i)
  {
    var h := SearchChildren(f, offsets, dir).value.value;
    var d := DecodeAt(f, offsets[0]);
    if d.Ok? && d.value.name != dir {
      SearchChildrenFindsFirst(f, offsets[1..], dir);
      var i :| 0 <= i < |offsets| - 1 && DecodeAt(f, offsets[1..][i]) == Ok(h) && PrecedingMiss(f, offsets[1..], dir, i);
      MissShift(f, offsets, dir, i + 1);
      assert offsets[1..][i] == offsets[i + 1];
    } else {
      assert PrecedingMiss(f, offsets, dir, 0);
    }
  }

  /** The search fails only on a child that cannot be read, all earlier ones
      having been read under other names. */
  lemma {:induction false} SearchChildrenFails(f: seq<byte>, offsets: seq<int>, dir: seq<byte>)
    requires SearchChildren(f, offsets, dir).Err?
    ensures exists i :: 0 <= i < |offsets| && DecodeAt(f, offsets[i]).Err? && PrecedingMiss(f, offsets, dir, i)
  {
    var d := DecodeAt(f, offsets[0]);
    if d.Ok? {
      SearchChildrenFails(f, offsets[1..], dir);
      var i :| 0 <= i < |offsets| - 1 && DecodeAt(f, offsets[1..][i]).Err? && PrecedingMiss(f, offsets[1..], dir, i);
      MissShift(f, offsets, dir, i + 1);
      assert offsets[1..][i] == offsets[i + 1];
    } else {
      assert PrecedingMiss(f, offsets, dir, 0);
    }
  }

  /** Children read under other names are skipped: the search over all
      of them goes on as the search from position i. */
  lemma {:induction false} SearchChildrenSkips(f: seq<byte>, offsets: seq<int>, dir: seq<byte>, i: int)
    requires 0 <= i <= |offsets| && PrecedingMiss(f, offsets, dir, i)
    ensures SearchChildren(f, offsets, dir) == SearchChildren(f, offsets[i..], dir)
  {
    if i == 0 {
      assert offsets[0..] == offsets;
    } else {
      SearchChildrenSkips(f, offsets, dir, i - 1);
      var tail := offsets[i - 1..];
      assert tail[0] == offsets[i - 1];
      SkipFirst(f, tail, dir);
      assert tail[1..] == offsets[i..];
    }
  }

  /** A child named `dir`, every earlier child being read under another
      name, is what the search returns. */
  lemma {:induction false} SearchChildrenFindsAt(f: seq<byte>, offsets: seq<int>, dir: seq<byte>, i: int)
    requires 0 <= i < |offsets| && DecodeAt(f, offsets[i]).Ok? && DecodeAt(f, offsets[i]).value.name == dir
    requires PrecedingMiss(f, offsets, dir, i)
    ensures SearchChildren(f, offsets, dir) == Ok(Some(DecodeAt(f, offsets[i]).value))
  {
    SearchChildrenSkips(f, offsets, dir, i);
    assert offsets[i..][0] == offsets[i];
  }

  /** An unreadable child, every earlier child being read under another
      name, ends the search with that child's error. */
  lemma {:induction false} SearchChildrenFailsAt(f: seq<byte>, offsets: seq<int>, dir: seq<byte>, i: int)
    requires 0 <= i < |offsets| && DecodeAt(f, offsets[i]).Err?
    requires PrecedingMiss(f, offsets, dir, i)
    ensures SearchChildren(f, offsets, dir) == Err(DecodeAt(f, offsets[i]).error)
  {
    SearchChildrenSkips(f, offsets, dir, i);
    assert offsets[i..][0] == offsets[i];
  }

  /** A first child read under another name is skipped. */
  lemma {:induction false} SkipFirst(f: seq<byte>, offsets: seq<int>, dir: seq<byte>)
    requires offsets != [] && DecodeAt(f, offsets[0]).Ok? && DecodeAt(f, offsets[0]).value.name != dir
    ensures SearchChildren(f, offsets, dir) == SearchChildren(f, offsets[1..], dir)
  {
  }

  lemma {:induction false} MissShift(f: seq<byte>, offsets: seq<int>, dir: seq<byte>, i: int)
    requires 1 <= i <= |offsets|
    requires DecodeAt(f, offsets[0]).Ok? && DecodeAt(f, offsets[0]).value.name != dir
    ensures PrecedingMiss(f, offsets, dir, i) <==> PrecedingMiss(f, offsets[1..], dir, i - 1)
  {
    forall j | 1 <= j < i ensures offsets[j] == offsets[1..][j - 1] { }
  }

  /** Every child before position i reads back under a name other than `dir`. */
  ghost predicate PrecedingMiss(f: seq<byte>, offsets: seq<int>, dir: seq<byte>, i: int)
    requires 0 <= i <= |offsets|
  {
    forall j :: 0 <= j < i ==> DecodeAt(f, offsets[j]).Ok? && DecodeAt(f, offsets[j]).value.name != dir
  }

  /** getChildRecordHeader(rootHeader, dir) */
  function GetChildRecordHeader(f: seq<byte>, root: HeaderFields, dir: seq<byte>): (r: Result<Option<HeaderFields>>)
    requires root.childCount <= |root.childs|
    ensures r.Ok? && r.value.Some? ==> r.value.value.name == dir
    ensures root.childCount <= 0 ==> r == Ok(None)
  {
    SearchChildren(f, Emitted(root), dir)
  }

  /** PathParser.parse: "/" is whatever slot 0 holds; any other path is
      looked up, by its first component only, among slot 0's children. */
  function Parse(f: seq<byte>, path: seq<byte>): (r: Result<Option<HeaderFields>>)
    ensures ReadRecordHeaderFromIndex(f, ROOT_POSITION).Err? ==> r.Err?
    ensures path == ROOT_KEY && ReadRecordHeaderFromIndex(f, ROOT_POSITION).Ok? ==>
              r == Ok(Some(ReadRecordHeaderFromIndex(f, ROOT_POSITION).value))
    ensures path != ROOT_KEY && r.Ok? && r.value.Some? ==> FirstComponent(path) == Some(r.value.value.name)
    ensures path != ROOT_KEY && FirstComponent(path).None? && ReadRecordHeaderFromIndex(f, ROOT_POSITION).Ok? ==>
              r == Ok(None)
  {
    var root :- ReadRecordHeaderFromIndex(f, ROOT_POSITION);
    if path == ROOT_KEY then Ok(Some(root))
    else match FirstComponent(path)
      case None => Ok(None)
      case Some(dir) => GetChildRecordHeader(f, root, dir)
  }

  /** recordExists: "/" exists whenever slot 0 can be read. */
  function RecordExists(f: seq<byte>, name: seq<byte>): (r: Result<bool>)
    ensures r.Ok? <==> Parse(f, name).Ok?
    ensures r == Ok(true) <==> Parse(f, name).Ok? && Parse(f, name).value.Some?
    ensures name == ROOT_KEY ==> (r.Ok? <==> ReadRecordHeaderFromIndex(f, ROOT_POSITION).Ok?) && (r.Ok? ==> r.value)
  {
    var h :- Parse(f, name);
    Ok(h.Some?)
  }

  // ---------------------------------------------------------------------
  // Insertion and creation

  /** insertRecord: refuse an existing key, make index room, allocate
      blocks, write the payload, append the header to the index. */
  function InsertRecord(s: Store, e: Entry): (o: Outcome<()>)
    requires |e.data| < TWO_31
    ensures RecordExists(s.file, e.name) == Ok(true) ==> o == Outcome(s, Err(KeyExists(e.name)))
    ensures RecordExists(s.file, e.name).Err? ==> o == Outcome(s, Err(RecordExists(s.file, e.name).error))
    ensures o.result.Ok? ==> RecordExists(s.file, e.name) == Ok(false)
  {
    match RecordExists(s.file, e.name)
    case Err(err) => Outcome(s, Err(err))
    case Ok(found) =>
      if found then Outcome(s, Err(KeyExists(e.name)))
      else InsertNew(s, e)
  }

  /** insertRecord after the duplicate check. The data start pointer moves
      only when the index was empty. */
  function InsertNew(s: Store, e: Entry): (o: Outcome<()>)
    requires |e.data| < TWO_31
    ensures ReadNumRecordsHeader(s.file).Err? ==> o == Outcome(s, Err(EndOfFile))
    ensures ReadNumRecordsHeader(s.file).Ok? && ReadNumRecordsHeader(s.file).value != 0 ==>
              o.store.dataStartPtr == s.dataStartPtr
  {
    match ReadNumRecordsHeader(s.file)
    case Err(err) => Outcome(s, Err(err))
    case Ok(n) =>
      var o1 := InsureIndexSpace(s, Wrap32(n + 1));
      if o1.result.Err? then o1
      else
        var o2 := AllocateRecord(o1.store, e.name, e.isDir, |e.data|);
        if o2.result.Err? then Outcome(o2.store, Err(o2.result.error))
        else
          var o3 := WriteRecordData(o2.store, o2.result.value, e.data);
          if o3.result.Err? then Outcome(o3.store, Err(o3.result.error))
          else
            match ReadNumRecordsHeader(o3.store.file)
            case Err(err) => Outcome(o3.store, Err(err))
            case Ok(n2) =>
              var o4 := AddEntryToIndex(o3.store, o3.result.value, n2);
              Outcome(o4.store, if o4.result.Err? then Err(o4.result.error) else Ok(()))
  }

  /** The creating constructor up to its root insert: a file of
      16 + 64 * initialSize bytes with numRecords 0 and that data start. */
  function CreateHeaders(initialSize: int): (o: Outcome<()>)
    ensures o.result.Ok? <==> IndexPositionToRecordHeaderFp(initialSize) >= 0
    ensures o.result.Err? ==> o.result.error == NegativeLength
    ensures o.store.dataStartPtr == IndexPositionToRecordHeaderFp(initialSize)
  {
    var dataStartPtr := IndexPositionToRecordHeaderFp(initialSize);
    var sized := SetFileLength(Store([], dataStartPtr), dataStartPtr);
    if sized.result.Err? then sized
    else Outcome(WriteDataStartPtrHeader(WriteNumRecordsHeader(sized.store, 0), dataStartPtr), Ok(()))
  }

  /** BaseRecordsFile(dbPath, initialSize), on a path with no file yet. It
      never succeeds: its root insert finds "/" already present whenever
      slot 0 can be read. */
  function Create(initialSize: int): (o: Outcome<()>)
    ensures o.result.Err?
  {
    var o := CreateHeaders(initialSize);
    if o.result.Err? then o else InsertRecord(o.store, EmptyEntry(ROOT_KEY, true))
  }
}
