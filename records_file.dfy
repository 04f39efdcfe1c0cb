/** BaseRecordsFile as an object: the bytes of its RandomAccessFile and the
    cached data-start pointer, both updated in place. Each method takes the
    steps of the Java method it is named after, and its contract states that
    it ends in the state, with the result, that the matching function of
    module Storage gives; what those functions guarantee is proved in
    StorageProperties, IndexProperties and DatabaseProperties. */
module RecordsFiles {
  import opened Bytes
  import opened Io
  import opened RecordHeaders
  import opened Storage
  import opened StorageProperties

  class RecordsFile {
    /** The contents of the database file. */
    var file: seq<byte>
    /** Current file pointer to the start of the record data. */
    var dataStartPtr: int

    /** The engine state the functions of module Storage act on. */
    function State(): Store
      reads this
    {
      Store(file, dataStartPtr)
    }

    /** An engine on a file with the given contents, before any header is read. */
    constructor OnFile(contents: seq<byte>)
      ensures file == contents && dataStartPtr == 0
    {
      file := contents;
      dataStartPtr := 0;
    }

    /** BaseRecordsFile(dbPath, initialSize), on a path with no file yet: size
        the file to the index, write both file headers, insert the root. */
    static method Create(initialSize: int) returns (db: RecordsFile, r: Result<()>)
      ensures fresh(db)
      ensures db.State() == Storage.Create(initialSize).store && r == Storage.Create(initialSize).result
    {
      db := new RecordsFile.OnFile([]);
      db.dataStartPtr := IndexPositionToRecordHeaderFp(initialSize);
      r := db.SetFileLength(db.dataStartPtr);
      if r.Err? {
        return;
      }
      db.WriteNumRecordsHeader(0);
      db.WriteDataStartPtrHeader(db.dataStartPtr);
      r := db.InsertRecord(EmptyEntry(ROOT_KEY, true));
    }

    /** BaseRecordsFile(dbPath, accessFlags), on an existing file with the
        given contents: dataStartPtr is read from the file header. */
    static method Open(contents: seq<byte>) returns (db: RecordsFile, r: Result<()>)
      ensures fresh(db) && db.file == contents
      ensures var p := Storage.ReadDataStartHeader(contents);
              (p.Ok? ==> r == Ok(()) && db.dataStartPtr == p.value) &&
              (p.Err? ==> r == Err(p.error))
    {
      db := new RecordsFile.OnFile(contents);
      var p := db.ReadDataStartHeader();
      if p.Err? {
        return db, Err(p.error);
      }
      db.dataStartPtr := p.value;
      r := Ok(());
    }

    method GetFileLength() returns (n: int)
      ensures n == |file|
    {
      n := |file|;
    }

    method SetFileLength(l: int) returns (r: Result<()>)
      modifies this
      ensures State() == Storage.SetFileLength(old(State()), l).store
      ensures r == Storage.SetFileLength(old(State()), l).result
    {
      if l < 0 {
        return Err(NegativeLength);
      }
      file := Resize(file, l);
      r := Ok(());
    }

    method ReadNumRecordsHeader() returns (r: Result<int>)
      ensures r == Storage.ReadNumRecordsHeader(file)
    {
      var p := ReadInt(From(file, NUM_RECORDS_HEADER_LOCATION));
      if p.Err? {
        return Err(p.error);
      }
      r := Ok(p.value.value);
    }

    method WriteNumRecordsHeader(numRecords: int)
      modifies this
      ensures State() == Storage.WriteNumRecordsHeader(old(State()), numRecords)
    {
      file := Overwrite(file, NUM_RECORDS_HEADER_LOCATION, EncodeInt32(numRecords));
    }

    method ReadDataStartHeader() returns (r: Result<int>)
      ensures r == Storage.ReadDataStartHeader(file)
    {
      var p := ReadLong(From(file, DATA_START_HEADER_LOCATION));
      if p.Err? {
        return Err(p.error);
      }
      r := Ok(p.value.value);
    }

    method WriteDataStartPtrHeader(dataStartPtr: int)
      modifies this
      ensures State() == Storage.WriteDataStartPtrHeader(old(State()), dataStartPtr)
    {
      file := Overwrite(file, DATA_START_HEADER_LOCATION, EncodeInt64(dataStartPtr));
    }

    /** getRecordAt: a new header object read at `headerPointer`. */
    method GetRecordAt(headerPointer: int) returns (r: Result<RecordHeader>)
      ensures var d := DecodeAt(file, headerPointer);
              (d.Err? ==> r == Err(d.error)) &&
              (d.Ok? ==> r.Ok? && fresh(r.value) && r.value.Valid() && r.value.Fields() == d.value)
    {
      if headerPointer < 0 {
        return Err(NegativeSeekOffset);
      }
      var h := new RecordHeader.Empty();
      var rest := h.Read(From(file, headerPointer));
      if rest.Err? {
        return Err(rest.error);
      }
      r := Ok(h);
    }

    method ReadRecordHeaderFromIndex(position: int) returns (r: Result<RecordHeader>)
      ensures var d := Storage.ReadRecordHeaderFromIndex(file, position);
              (d.Err? ==> r == Err(d.error)) &&
              (d.Ok? ==> r.Ok? && fresh(r.value) && r.value.Valid() && r.value.Fields() == d.value)
    {
      r := GetRecordAt(IndexPositionToRecordHeaderFp(position));
    }

    /** seek(off) followed by header.write(file). */
    method WriteHeader(off: int, header: RecordHeader) returns (r: Result<()>)
      requires header.Valid()
      modifies this
      ensures var o := WriteHeaderAt(old(State()), off, header.Fields());
              State() == o.store && r == o.result
    {
      if off < 0 {
        return Err(NegativeSeekOffset);
      }
      var bytes := header.Write();
      if bytes.Err? {
        return Err(bytes.error);
      }
      file := Overwrite(file, off, bytes.value);
      r := Ok(());
    }

    method WriteRecordHeaderToIndex(header: RecordHeader) returns (r: Result<()>)
      requires header.Valid()
      modifies this
      ensures var o := Storage.WriteRecordHeaderToIndex(old(State()), header.Fields(), header.indexPosition);
              State() == o.store && r == o.result
    {
      r := WriteHeader(IndexPositionToRecordHeaderFp(header.indexPosition), header);
    }

    /** addEntryToIndex: on success the header object learns its position. */
    method AddEntryToIndex(newRecord: RecordHeader, currentNumRecords: int) returns (r: Result<()>)
      requires newRecord.Valid()
      modifies this, newRecord`indexPosition
      ensures var o := Storage.AddEntryToIndex(old(State()), newRecord.Fields(), currentNumRecords);
              State() == o.store && r == if o.result.Ok? then Ok(()) else Err(o.result.error)
      ensures newRecord.Fields() == old(newRecord.Fields())
      ensures newRecord.indexPosition == if r.Ok? then currentNumRecords else old(newRecord.indexPosition)
    {
      r := WriteHeader(IndexPositionToRecordHeaderFp(currentNumRecords), newRecord);
      if r.Err? {
        return;
      }
      newRecord.SetIndexPosition(currentNumRecords);
      WriteNumRecordsHeader(Wrap32(currentNumRecords + 1));
    }

    method DeleteEntryFromIndex(header: RecordHeader, currentNumRecords: int) returns (r: Result<()>)
      modifies this
      ensures var o := Storage.DeleteEntryFromIndex(old(State()), header.indexPosition, currentNumRecords);
              State() == o.store && r == o.result
    {
      var lastPos := Wrap32(currentNumRecords - 1);
      if header.indexPosition != lastPos {
        var read := ReadRecordHeaderFromIndex(lastPos);
        if read.Err? {
          return Err(read.error);
        }
        var last := read.value;
        last.SetIndexPosition(header.indexPosition);
        r := WriteHeader(IndexPositionToRecordHeaderFp(last.indexPosition), last);
        if r.Err? {
          return;
        }
      }
      WriteNumRecordsHeader(lastPos);
      r := Ok(());
    }

    method InsureIndexSpace(requiredNumRecords: int) returns (r: Result<()>)
      modifies this
      ensures var o := Storage.InsureIndexSpace(old(State()), requiredNumRecords);
              State() == o.store && r == o.result
    {
      var currentNumRecords := ReadNumRecordsHeader();
      if currentNumRecords.Err? {
        return Err(currentNumRecords.error);
      }
      var endIndexPtr := IndexPositionToRecordHeaderFp(requiredNumRecords);
      var length := GetFileLength();
      if endIndexPtr > length && currentNumRecords.value == 0 {
        r := SetFileLength(endIndexPtr);
        dataStartPtr := endIndexPtr;
        WriteDataStartPtrHeader(dataStartPtr);
        return;
      }
      r := Ok(());
    }

    /** allocateRecord: a new header whose blocks start at the end of file. */
    method AllocateRecord(key: seq<byte>, isDir: bool, dataLength: int) returns (r: Result<RecordHeader>)
      requires 0 <= dataLength < TWO_31
      modifies this
      ensures var o := Storage.AllocateRecord(old(State()), key, isDir, dataLength);
              State() == o.store && (o.result.Err? ==> r == Err(o.result.error)) &&
              (o.result.Ok? ==> r.Ok? && fresh(r.value) && r.value.Valid() && r.value.Fields() == o.result.value)
    {
      var fp := GetFileLength();
      var newRecord := new RecordHeader(key, isDir, fp, dataLength);
      var grown := SetFileLength(fp + Wrap32(newRecord.childCount * DATA_ENTRY_LENGTH));
      if grown.Err? {
        return Err(grown.error);
      }
      r := Ok(newRecord);
    }

    /** writeRecordData: dataCount is set first, whatever the loop then does. */
    method WriteRecordData(header: RecordHeader, data: seq<byte>) returns (r: Result<()>)
      requires header.Valid()
      modifies this, header`dataCount
      ensures var o := Storage.WriteRecordData(old(State()), old(header.Fields()), data);
              State() == o.store && r == if o.result.Ok? then Ok(()) else Err(o.result.error)
      ensures header.Fields() == old(header.Fields()).(dataCount := |data|)
    {
      header.dataCount := |data|;
      ghost var s0 := State();
      ghost var h := header.Fields();
      var i := 0;
      while i < header.childCount
        invariant 0 <= i <= Iterations(h)
        invariant header.Fields() == h
        invariant WriteBlocks(s0, h.childs, data, i) == Outcome(State(), Ok(()))
      {
        var at := header.childs[i];
        var from := i * DATA_ENTRY_LENGTH;
        var left := header.dataCount - from;
        var len := if left < DATA_ENTRY_LENGTH then left else DATA_ENTRY_LENGTH;
        if at < 0 || len < 0 {
          WriteBlocksFail(s0, h.childs, data, i, State(), at, len);
          WriteBlocksStopAtError(s0, h.childs, data, i + 1, Iterations(h));
          return Err(if at < 0 then NegativeSeekOffset else IndexOutOfBounds);
        }
        WriteBlocksNext(s0, h.childs, data, i, State(), at, from, len);
        file := Overwrite(file, at, data[from..from + len]);
        i := i + 1;
      }
      r := Ok(());
    }

    /** seek(at) then readFully(buf, from, len): fails at the end of file
        unless len is 0. */
    method ReadFully(buf: array<byte>, from: int, at: int, len: int) returns (r: Result<()>)
      requires 0 <= from && 0 <= at && 0 <= len && from + len <= buf.Length
      modifies buf
      ensures len == 0 ==> r == Ok(()) && buf[..] == old(buf[..])
      ensures len > 0 && at + len > |file| ==> r == Err(EndOfFile)
      ensures len > 0 && at + len <= |file| ==>
                r == Ok(()) && buf[..] == old(buf[..])[..from] + file[at..at + len] + old(buf[..])[from + len..]
    {
      if len == 0 {
        return Ok(());
      }
      if at + len > |file| {
        return Err(EndOfFile);
      }
      ghost var before := buf[..];
      var j := 0;
      while j < len
        invariant 0 <= j <= len
        invariant forall k :: 0 <= k < buf.Length ==>
                    buf[k] == if from <= k < from + j then file[at + k - from] else before[k]
      {
        buf[from + j] := file[at + j];
        j := j + 1;
      }
      assert buf[..] == before[..from] + file[at..at + len] + before[from + len..];
      r := Ok(());
    }

    /** readRecordData(RecordHeader): a buffer of dataCount bytes filled
        block by block. */
    method ReadRecordData(header: RecordHeader) returns (r: Result<seq<byte>>)
      requires header.Valid()
      ensures r == Storage.ReadRecordData(file, header.Fields())
    {
      var dataCount, childCount, childs := header.dataCount, header.childCount, header.childs;
      if dataCount < 0 {
        return Err(NegativeArraySize);
      }
      var buf := new byte[dataCount](_ => 0);
      ghost var h := header.Fields();
      assert buf[..] == Zeros(dataCount);
      var i := 0;
      while i < childCount
        invariant 0 <= i <= Iterations(h)
        invariant ReadBlocks(file, childs, dataCount, i) == Ok(buf[..])
      {
        var read := ReadBlockInto(buf, childs, i);
        if read.Err? {
          ReadBlocksStopAtError(file, childs, dataCount, i + 1, Iterations(h));
          return Err(read.error);
        }
        i := i + 1;
      }
      r := Ok(buf[..]);
    }

    /** One iteration of readRecordData's loop: seek to block i and read
        its share of the buffer into place. */
    method ReadBlockInto(buf: array<byte>, childs: seq<int>, i: nat) returns (r: Result<()>)
      requires i < |childs| && ReadBlocks(file, childs, buf.Length, i) == Ok(buf[..])
      modifies buf
      ensures r.Ok? ==> ReadBlocks(file, childs, buf.Length, i + 1) == Ok(buf[..])
      ensures r.Err? ==> ReadBlocks(file, childs, buf.Length, i + 1) == Err(r.error)
    {
      var at := childs[i];
      var from := i * DATA_ENTRY_LENGTH;
      var left := buf.Length - from;
      var len := if left < DATA_ENTRY_LENGTH then left else DATA_ENTRY_LENGTH;
      if at < 0 || len < 0 {
        ReadBlocksFail(file, childs, buf.Length, i, buf[..], at, len);
        return Err(if at < 0 then NegativeSeekOffset else IndexOutOfBounds);
      }
      ReadBlocksNext(file, childs, buf.Length, i, buf[..], at, from, len);
      r := ReadFully(buf, from, at, len);
    }

    /** getChildRecordHeader: the first of the root's children whose name is
        `dir`, read as a new header object. */
    method GetChildRecordHeader(rootHeader: RecordHeader, dir: seq<byte>) returns (r: Result<Option<RecordHeader>>)
      requires rootHeader.Valid()
      ensures var c := Storage.GetChildRecordHeader(file, rootHeader.Fields(), dir);
              (c.Err? ==> r == Err(c.error)) &&
              (c.Ok? ==> r.Ok? && (r.value.Some? <==> c.value.Some?) &&
                         (r.value.Some? ==> fresh(r.value.value) && r.value.value.Valid() &&
                                            r.value.value.Fields() == c.value.value))
    {
      ghost var offsets := Emitted(rootHeader.Fields());
      var i := 0;
      while i < rootHeader.childCount
        invariant 0 <= i <= |offsets|
        invariant SearchChildren(file, offsets[i..], dir) == SearchChildren(file, offsets, dir)
      {
        assert offsets[i..][1..] == offsets[i + 1..];
        var h := GetRecordAt(rootHeader.childs[i]);
        if h.Err? {
          return Err(h.error);
        }
        if h.value.name == dir {
          return Ok(Some(h.value));
        }
        i := i + 1;
      }
      r := Ok(None);
    }

    /** PathParser.parse */
    method Parse(path: seq<byte>) returns (r: Result<Option<RecordHeader>>)
      ensures var p := Storage.Parse(file, path);
              (p.Err? ==> r == Err(p.error)) &&
              (p.Ok? ==> r.Ok? && (r.value.Some? <==> p.value.Some?) &&
                         (r.value.Some? ==> fresh(r.value.value) && r.value.value.Valid() &&
                                            r.value.value.Fields() == p.value.value))
    {
      var parts := FirstComponent(path);
      var rootHeader := ReadRecordHeaderFromIndex(ROOT_POSITION);
      if rootHeader.Err? {
        return Err(rootHeader.error);
      }
      if path == ROOT_KEY {
        return Ok(Some(rootHeader.value));
      }
      if parts.Some? {
        r := GetChildRecordHeader(rootHeader.value, parts.value);
        if r.Err? || r.value.Some? {
          return;
        }
      }
      r := Ok(None);
    }

    method RecordExists(name: seq<byte>) returns (r: Result<bool>)
      ensures r == Storage.RecordExists(file, name)
    {
      var header := Parse(name);
      if header.Err? {
        return Err(header.error);
      }
      r := Ok(header.value.Some?);
    }

    method InsertRecord(entry: Entry) returns (r: Result<()>)
      requires |entry.data| < TWO_31
      modifies this
      ensures var o := Storage.InsertRecord(old(State()), entry);
              State() == o.store && r == o.result
    {
      var found := RecordExists(entry.name);
      if found.Err? {
        return Err(found.error);
      }
      if found.value {
        return Err(KeyExists(entry.name));
      }
      r := InsertNew(entry);
    }

    /** insertRecord after the duplicate check: grow the index, allocate and
        fill the data blocks, then add the header to the index. */
    method InsertNew(entry: Entry) returns (r: Result<()>)
      requires |entry.data| < TWO_31
      modifies this
      ensures var o := Storage.InsertNew(old(State()), entry);
              State() == o.store && r == o.result
    {
      var numRecords := ReadNumRecordsHeader();
      if numRecords.Err? {
        return Err(numRecords.error);
      }
      r := InsureIndexSpace(Wrap32(numRecords.value + 1));
      if r.Err? {
        return;
      }
      var newRecord := AllocateRecord(entry.name, entry.isDir, |entry.data|);
      if newRecord.Err? {
        return Err(newRecord.error);
      }
      r := WriteRecordData(newRecord.value, entry.data);
      if r.Err? {
        return;
      }
      var currentNumRecords := ReadNumRecordsHeader();
      if currentNumRecords.Err? {
        return Err(currentNumRecords.error);
      }
      r := AddEntryToIndex(newRecord.value, currentNumRecords.value);
    }
  }
}
