/** What the creating constructor, insureIndexSpace, insertRecord and path
    lookup leave in the database file. */
module DatabaseProperties {
  import opened Bytes
  import opened Io
  import opened RecordHeaders
  import opened Storage
  import opened StorageProperties
  import opened IndexProperties

  /** The header a run of zero bytes decodes to: empty name, no data, not a
      directory, no children. */
  function BlankHeader(): HeaderFields { HeaderFields([], 0, false, 0, []) }

  predicate AllZero(z: seq<byte>) { forall i :: 0 <= i < |z| ==> z[i] == 0 }

  // ---------------------------------------------------------------------
  // Reading fields that a write did not touch

  /** readInt at `off` sees only the four bytes there. */
  lemma {:induction false} ReadIntAtSame(f: seq<byte>, g: seq<byte>, off: nat)
    requires off + 4 <= |f| && off + 4 <= |g| && f[off..off + 4] == g[off..off + 4]
    ensures ReadIntAt(f, off) == ReadIntAt(g, off)
  {
    assert From(f, off)[..4] == f[off..off + 4];
    assert From(g, off)[..4] == g[off..off + 4];
  }

  /** readLong at `off` sees only the eight bytes there. */
  lemma {:induction false} ReadLongAtSame(f: seq<byte>, g: seq<byte>, off: nat)
    requires off + 8 <= |f| && off + 8 <= |g| && f[off..off + 8] == g[off..off + 8]
    ensures ReadLongAt(f, off) == ReadLongAt(g, off)
  {
    assert From(f, off)[..8] == f[off..off + 8];
    assert From(g, off)[..8] == g[off..off + 8];
  }

  /** readLong returns the long just written inside the file. */
  lemma {:induction false} LongWrite(f: seq<byte>, off: nat, x: int)
    requires IsInt64(x) && off + 8 <= |f|
    ensures var g := Overwrite(f, off, EncodeInt64(x));
            |g| == |f| && ReadLongAt(g, off) == Ok(x)
  {
    var g := Overwrite(f, off, EncodeInt64(x));
    OverwriteReadBack(f, off, EncodeInt64(x));
    assert From(g, off)[..8] == EncodeInt64(x);
    Int64RoundTrip(x);
  }

  // ---------------------------------------------------------------------
  // Zero bytes

  lemma {:induction false} FromBEZeros(z: seq<byte>)
    requires AllZero(z)
    ensures FromBE(z) == 0
  {
    if z != [] {
      FromBEZeros(z[..|z| - 1]);
    }
  }

  /** A slot of zero bytes reads as the blank header. */
  lemma {:induction false} DecodeZeros(z: seq<byte>)
    requires |z| >= 11 && AllZero(z)
    ensures Decode(z) == Ok(Parsed(BlankHeader(), z[11..]))
  {
    FromBEZeros(z[..2]);
    FromBEZeros(z[2..6]);
    FromBEZeros(z[7..11]);
    assert z[2..][..4] == z[2..6];
    assert z[7..][..4] == z[7..11];
    assert z[2..][4..][1..] == z[7..];
    assert z[7..][4..] == z[11..];
  }

  // ---------------------------------------------------------------------
  // insureIndexSpace

  /** insureIndexSpace grows the file only when the index is empty and the
      end of the required index lies past the end of the file: then the file
      is extended with zeros to exactly that end, which becomes the data
      start pointer (field and header), and nothing else changes. In every
      other case, whatever the space, it does nothing. */
  lemma {:induction false} InsureIndexSpaceGrowsOnlyAnEmptyIndex(s: Store, r: int)
    requires 0 <= r < MAX_SLOTS
    ensures var o := InsureIndexSpace(s, r);
            var count := ReadNumRecordsHeader(s.file);
            var end := SlotStart(r);
            (count.Err? ==> o == Outcome(s, Err(count.error))) &&
            (count.Ok? && (count.value != 0 || end <= |s.file|) ==> o == Outcome(s, Ok(()))) &&
            (count == Ok(0) && end > |s.file| ==>
               o.result == Ok(()) && o.store.dataStartPtr == end && |o.store.file| == end &&
               ReadDataStartHeader(o.store.file) == Ok(end) &&
               ReadNumRecordsHeader(o.store.file) == Ok(0) &&
               forall i :: 0 <= i < end && !(DATA_START_HEADER_LOCATION <= i < DATA_START_HEADER_LOCATION + 8) ==>
                 o.store.file[i] == ByteAt(s.file, i))
  {
    var end := SlotStart(r);
    assert IndexPositionToRecordHeaderFp(r) == end;
    if ReadNumRecordsHeader(s.file) == Ok(0) && end > |s.file| {
      var grown := Resize(s.file, end);
      var g := Overwrite(grown, DATA_START_HEADER_LOCATION, EncodeInt64(end));
      LongWrite(grown, DATA_START_HEADER_LOCATION, end);
      assert g[0..4] == s.file[0..4];
      ReadIntAtSame(s.file, g, 0);
    }
  }

  // ---------------------------------------------------------------------
  // The creating constructor

  /** The creating constructor lays out a file of exactly
      16 + 64 * initialSize bytes: numRecords 0, the data start pointer just
      past the index (in the header and in the field), and zeros from byte
      12 on. */
  lemma {:induction false} CreateLayout(initialSize: int)
    requires 0 <= initialSize < MAX_SLOTS
    ensures var o := CreateHeaders(initialSize);
            var dataStart := SlotStart(initialSize);
            o.result.Ok? && o.store.dataStartPtr == dataStart && |o.store.file| == dataStart &&
            ReadNumRecordsHeader(o.store.file) == Ok(0) &&
            ReadDataStartHeader(o.store.file) == Ok(dataStart) &&
            forall i :: 12 <= i < dataStart ==> o.store.file[i] == 0
  {
    var d := SlotStart(initialSize);
    assert IndexPositionToRecordHeaderFp(initialSize) == d;
    var z := Resize([], d);
    var f1 := Overwrite(z, NUM_RECORDS_HEADER_LOCATION, EncodeInt32(0));
    var f2 := Overwrite(f1, DATA_START_HEADER_LOCATION, EncodeInt64(d));
    CountWrite(z, 0);
    LongWrite(f1, DATA_START_HEADER_LOCATION, d);
    assert f2[0..4] == f1[0..4];
    ReadIntAtSame(f1, f2, 0);
  }

  /** On a new file the constructor's own insert of the root directory "/"
      always fails: with room for at least one record, slot 0 holds zeros,
      which read as a blank header, so "/" already exists. */
  lemma {:induction false} CreateRejectsItsOwnRoot(initialSize: int)
    requires 1 <= initialSize < MAX_SLOTS
    ensures Create(initialSize) == Outcome(CreateHeaders(initialSize).store, Err(KeyExists(ROOT_KEY)))
  {
    CreateLayout(initialSize);
    var s := CreateHeaders(initialSize).store;
    var w := Window(s.file, ROOT_POSITION);
    assert AllZero(w);
    DecodeZeros(w);
    SlotRead(s.file, ROOT_POSITION);
    assert RecordExists(s.file, ROOT_KEY) == Ok(true);
  }

  /** With no room for any record, slot 0 lies past the end of the file and
      the root insert fails at end of file. */
  lemma {:induction false} CreateWithoutIndexRoomFails()
    ensures Create(0) == Outcome(CreateHeaders(0).store, Err(EndOfFile))
  {
    CreateLayout(0);
    var s := CreateHeaders(0).store;
    assert From(s.file, FILE_HEADERS_REGION_LENGTH) == [];
    assert RecordExists(s.file, ROOT_KEY) == Err(EndOfFile);
  }

  // ---------------------------------------------------------------------
  // Path lookup

  /** Only "/" can be found while the root record has no children, and a
      directory record is always written with none. */
  lemma {:induction false} ChildlessRootFindsOnlyItself(f: seq<byte>, path: seq<byte>)
    requires ReadRecordHeaderFromIndex(f, ROOT_POSITION).Ok?
    requires ReadRecordHeaderFromIndex(f, ROOT_POSITION).value.childCount == 0
    requires path != ROOT_KEY
    ensures Parse(f, path) == Ok(None)
    ensures RecordExists(f, path) == Ok(false)
  {
  }

  /** The root record read from slot 0, and its children as offsets. */
  function Root(f: seq<byte>): (root: HeaderFields)
    requires ReadRecordHeaderFromIndex(f, ROOT_POSITION).Ok?
    ensures Decodable(root) && Emitted(root) == root.childs
  {
    ReadRecordHeaderFromIndex(f, ROOT_POSITION).value
  }

  /** Any path but "/" resolves to h exactly when h is the first child of
      the root, in childs order, that is named after the path's first
      component; recordExists is true exactly when there is such a child. */
  lemma {:induction false} ParseFindsFirstChild(f: seq<byte>, path: seq<byte>, d: seq<byte>, h: HeaderFields)
    requires path != ROOT_KEY && ReadRecordHeaderFromIndex(f, ROOT_POSITION).Ok? && FirstComponent(path) == Some(d)
    ensures var cs := Root(f).childs;
            Parse(f, path) == Ok(Some(h)) <==>
              exists i :: 0 <= i < |cs| && DecodeAt(f, cs[i]) == Ok(h) && h.name == d && PrecedingMiss(f, cs, d, i)
    ensures var cs := Root(f).childs;
            RecordExists(f, path) == Ok(true) <==>
              exists i :: 0 <= i < |cs| && DecodeAt(f, cs[i]).Ok? && DecodeAt(f, cs[i]).value.name == d &&
                          PrecedingMiss(f, cs, d, i)
  {
    var cs := Root(f).childs;
    assert Parse(f, path) == SearchChildren(f, cs, d);
    if Parse(f, path) == Ok(Some(h)) {
      SearchChildrenFindsFirst(f, cs, d);
    }
    if exists i :: 0 <= i < |cs| && DecodeAt(f, cs[i]) == Ok(h) && h.name == d && PrecedingMiss(f, cs, d, i) {
      var i :| 0 <= i < |cs| && DecodeAt(f, cs[i]) == Ok(h) && h.name == d && PrecedingMiss(f, cs, d, i);
      SearchChildrenFindsAt(f, cs, d, i);
    }
    if RecordExists(f, path) == Ok(true) {
      SearchChildrenFindsFirst(f, cs, d);
    }
    if exists i :: 0 <= i < |cs| && DecodeAt(f, cs[i]).Ok? && DecodeAt(f, cs[i]).value.name == d &&
                   PrecedingMiss(f, cs, d, i) {
      var i :| 0 <= i < |cs| && DecodeAt(f, cs[i]).Ok? && DecodeAt(f, cs[i]).value.name == d &&
               PrecedingMiss(f, cs, d, i);
      SearchChildrenFindsAt(f, cs, d, i);
    }
  }

  /** Any path but "/" resolves to null, and recordExists is false, exactly
      when every child of the root reads back under another name than the
      path's first component. */
  lemma {:induction false} ParseAbsent(f: seq<byte>, path: seq<byte>, d: seq<byte>)
    requires path != ROOT_KEY && ReadRecordHeaderFromIndex(f, ROOT_POSITION).Ok? && FirstComponent(path) == Some(d)
    ensures Parse(f, path) == Ok(None) <==> PrecedingMiss(f, Root(f).childs, d, |Root(f).childs|)
    ensures RecordExists(f, path) == Ok(false) <==> PrecedingMiss(f, Root(f).childs, d, |Root(f).childs|)
  {
    var cs := Root(f).childs;
    assert Parse(f, path) == SearchChildren(f, cs, d);
    SearchChildrenAbsent(f, cs, d);
  }

  /** Any path but "/" fails to resolve exactly when a child of the root
      cannot be read before one named after the first component is found,
      and then with that child's error. */
  lemma {:induction false} ParseFails(f: seq<byte>, path: seq<byte>, d: seq<byte>)
    requires path != ROOT_KEY && ReadRecordHeaderFromIndex(f, ROOT_POSITION).Ok? && FirstComponent(path) == Some(d)
    ensures var cs := Root(f).childs;
            Parse(f, path).Err? <==> exists i :: 0 <= i < |cs| && DecodeAt(f, cs[i]).Err? && PrecedingMiss(f, cs, d, i)
    ensures RecordExists(f, path).Err? <==> Parse(f, path).Err?
    ensures var cs := Root(f).childs;
            forall i :: 0 <= i < |cs| && DecodeAt(f, cs[i]).Err? && PrecedingMiss(f, cs, d, i) ==>
              Parse(f, path) == Err(DecodeAt(f, cs[i]).error)
  {
    var cs := Root(f).childs;
    assert Parse(f, path) == SearchChildren(f, cs, d);
    if Parse(f, path).Err? {
      SearchChildrenFails(f, cs, d);
    }
    forall i | 0 <= i < |cs| && DecodeAt(f, cs[i]).Err? && PrecedingMiss(f, cs, d, i)
      ensures Parse(f, path) == Err(DecodeAt(f, cs[i]).error)
    {
      SearchChildrenFailsAt(f, cs, d, i);
    }
  }

  // ---------------------------------------------------------------------
  // insertRecord

  /** A write inside the file leaves a range it does not overlap. */
  lemma {:induction false} OverwriteOutside(f: seq<byte>, off: nat, bytes: seq<byte>, lo: nat, hi: nat)
    requires off + |bytes| <= |f| && lo <= hi <= |f|
    requires off + |bytes| <= lo || hi <= off
    ensures |Overwrite(f, off, bytes)| == |f| && Overwrite(f, off, bytes)[lo..hi] == f[lo..hi]
  {
    OverwriteReadBack(f, off, bytes);
  }

  /** A file that keeps f as its prefix keeps the slots inside f and the count. */
  lemma {:induction false} PrefixKeepsIndex(f: seq<byte>, g: seq<byte>, n: int)
    requires 0 <= n < MAX_SLOTS && SlotStart(n) <= |f| <= |g| && g[..|f|] == f
    ensures forall q :: 0 <= q < n ==> Window(g, q) == Window(f, q)
    ensures ReadNumRecordsHeader(g) == ReadNumRecordsHeader(f)
  {
    forall q | 0 <= q < n ensures Window(g, q) == Window(f, q) {
      assert g[SlotStart(q)..SlotStart(q) + INDEX_ENTRY_LENGTH] == f[SlotStart(q)..SlotStart(q) + INDEX_ENTRY_LENGTH];
    }
    assert g[0..4] == f[0..4];
    ReadIntAtSame(f, g, 0);
  }

  /** The header insertRecord appends for a file entry: blocks from the old
      end of file, dataCount the payload length. */
  function InsertedHeader(s: Store, e: Entry): HeaderFields
  {
    Allocation(e.name, false, |s.file|, |e.data|).(dataCount := |e.data|)
  }

  /** The file after allocation and the payload write: the old file, then
      the payload, then the rest of the blocks. */
  lemma {:induction false} PayloadStep(s: Store, e: Entry)
    requires !e.isDir && |e.data| < TWO_31 - DATA_ENTRY_LENGTH
    ensures var o2 := AllocateRecord(s, e.name, false, |e.data|);
            var o3 := WriteRecordData(o2.store, o2.result.value, e.data);
            var L := |s.file|;
            o2.result == Ok(Allocation(e.name, false, L, |e.data|)) &&
            o3.result == Ok(InsertedHeader(s, e)) && o3.store.dataStartPtr == s.dataStartPtr &&
            |o3.store.file| == L + DATA_ENTRY_LENGTH * (|e.data| / DATA_ENTRY_LENGTH + 1) &&
            o3.store.file[..L] == s.file && o3.store.file[L..L + |e.data|] == e.data
  {
    var L := |s.file|;
    AllocateRecordPlacesBlocksAtEnd(s, e.name, false, |e.data|);
    var o2 := AllocateRecord(s, e.name, false, |e.data|);
    WriteRecordDataIsOneWrite(o2.store, e.name, L, e.data);
    var f3 := WriteRecordData(o2.store, o2.result.value, e.data).store.file;
    assert f3[..L] == s.file by {
      forall i | 0 <= i < L ensures f3[i] == s.file[i] {
        assert o2.store.file[..L][i] == s.file[i];
      }
    }
  }

  /** The file insertRecord has written before it adds the index entry. */
  function PayloadFile(s: Store, e: Entry): seq<byte>
    requires |e.data| < TWO_31 - DATA_ENTRY_LENGTH
  {
    var o2 := AllocateRecord(s, e.name, false, |e.data|);
    WriteRecordData(o2.store, Allocation(e.name, false, |s.file|, |e.data|), e.data).store.file
  }

  /** What the insert lemmas assume: a new file entry, an index with room
      for one more slot, and a header that fits its slot. */
  predicate InsertFits(s: Store, e: Entry)
  {
    RecordExists(s.file, e.name) == Ok(false) && InsertRoom(s, e)
  }

  /** The part of InsertFits that does not depend on the index contents. */
  predicate InsertRoom(s: Store, e: Entry)
  {
    !e.isDir && |e.data| < TWO_31 - DATA_ENTRY_LENGTH && |s.file| < TWO_63 - TWO_31 &&
    ReadNumRecordsHeader(s.file).Ok? &&
    0 <= ReadNumRecordsHeader(s.file).value < MAX_SLOTS - 1 &&
    SlotStart(ReadNumRecordsHeader(s.file).value + 1) <= |s.file| &&
    EncodedSize(Allocation(e.name, false, |s.file|, |e.data|)) <= INDEX_ENTRY_LENGTH
  }

  /** The header insertRecord appends encodes into its slot and reads back unchanged. */
  lemma {:induction false} InsertedHeaderFits(s: Store, e: Entry)
    requires InsertRoom(s, e)
    ensures var h := InsertedHeader(s, e);
            h.childCount <= |h.childs| && Decodable(h) && Stored(h) == h && EncodedSize(h) <= INDEX_ENTRY_LENGTH &&
            Encode(h).Ok? && |Encode(h).value| <= INDEX_ENTRY_LENGTH
  {
    var h := InsertedHeader(s, e);
    assert Decodable(h) && Stored(h) == h;
  }

  /** The payload file extends the old file and holds the payload just past it. */
  lemma {:induction false} PayloadFileFacts(s: Store, e: Entry)
    requires !e.isDir && |e.data| < TWO_31 - DATA_ENTRY_LENGTH
    ensures var f3 := PayloadFile(s, e);
            |s.file| + |e.data| <= |f3| && f3[..|s.file|] == s.file && f3[|s.file|..|s.file| + |e.data|] == e.data
  {
    PayloadStep(s, e);
  }

  /** The pieces of a successful insertRecord of a new file entry: the old
      count n, the file f3 after the payload write, the appended header h
      and its encoding. */
  predicate InsertParts(s: Store, e: Entry, n: int, f3: seq<byte>, h: HeaderFields, bytes: seq<byte>)
  {
    InsertRoom(s, e) && ReadNumRecordsHeader(s.file) == Ok(n) && f3 == PayloadFile(s, e) &&
    h == InsertedHeader(s, e) && Encode(h) == Ok(bytes)
  }

  /** Under InsertFits, insertRecord writes the payload at the end of the
      file and then appends the header at slot n, the old count. */
  lemma {:induction false} InsertShape(s: Store, e: Entry) returns (n: int, f3: seq<byte>, h: HeaderFields, bytes: seq<byte>)
    requires InsertFits(s, e)
    ensures InsertParts(s, e, n, f3, h, bytes)
    ensures InsertRecord(s, e) == Outcome(Store(AppendedFile(f3, bytes, n), s.dataStartPtr), Ok(()))
  {
    var f := s.file;
    n := ReadNumRecordsHeader(f).value;
    h := InsertedHeader(s, e);
    InsertedHeaderFits(s, e);
    bytes := Encode(h).value;
    f3 := PayloadFile(s, e);
    InsureIndexSpaceGrowsOnlyAnEmptyIndex(s, n + 1);
    assert Wrap32(n + 1) == n + 1;
    PayloadStep(s, e);
    var o2 := AllocateRecord(s, e.name, false, |e.data|);
    var o3 := WriteRecordData(o2.store, o2.result.value, e.data);
    PrefixKeepsIndex(f, o3.store.file, n);
    AddEntryShape(o3.store, h, n);
  }

  /** Appending to a file that extends f keeps f's first n slots and stores the count n + 1. */
  lemma {:induction false} AppendedOverPrefix(f: seq<byte>, f3: seq<byte>, bytes: seq<byte>, n: int)
    requires 0 <= n < MAX_SLOTS - 1 && SlotStart(n) + INDEX_ENTRY_LENGTH <= |f| <= |f3| && f3[..|f|] == f
    requires |bytes| <= INDEX_ENTRY_LENGTH
    ensures var g := AppendedFile(f3, bytes, n);
            ReadNumRecordsHeader(g) == Ok(n + 1) &&
            forall q :: 0 <= q < n ==> Window(g, q) == Window(f, q)
  {
    PrefixKeepsIndex(f, f3, n);
    AppendedCount(f3, bytes, n);
    AppendedKeeps(f3, bytes, n);
  }

  /** Appending to the index leaves the bytes past the index. */
  lemma {:induction false} AppendedKeepsPayload(f3: seq<byte>, bytes: seq<byte>, n: int, p: nat, data: seq<byte>)
    requires 0 <= n < MAX_SLOTS - 1 && SlotStart(n) + INDEX_ENTRY_LENGTH <= p && p + |data| <= |f3|
    requires |bytes| <= INDEX_ENTRY_LENGTH && f3[p..p + |data|] == data
    ensures AppendedFile(f3, bytes, n)[p..p + |data|] == data
  {
    var f4 := Overwrite(f3, SlotStart(n), bytes);
    OverwriteOutside(f3, SlotStart(n), bytes, p, p + |data|);
    OverwriteOutside(f4, NUM_RECORDS_HEADER_LOCATION, EncodeInt32(n + 1), p, p + |data|);
  }

  /** The appended payload file holds the count n + 1. */
  lemma {:induction false} InsertedFileCount(s: Store, e: Entry, n: int, f3: seq<byte>, h: HeaderFields, bytes: seq<byte>)
    requires InsertParts(s, e, n, f3, h, bytes)
    ensures ReadNumRecordsHeader(AppendedFile(f3, bytes, n)) == Ok(n + 1)
  {
    InsertedHeaderFits(s, e);
    PayloadFileFacts(s, e);
    AppendedOverPrefix(s.file, f3, bytes, n);
  }

  /** The appended payload file keeps slots 0 to n - 1. */
  lemma {:induction false} InsertedFileKeeps(s: Store, e: Entry, n: int, f3: seq<byte>, h: HeaderFields, bytes: seq<byte>)
    requires InsertParts(s, e, n, f3, h, bytes)
    ensures forall q :: 0 <= q < n ==> Window(AppendedFile(f3, bytes, n), q) == Window(s.file, q)
  {
    InsertedHeaderFits(s, e);
    PayloadFileFacts(s, e);
    AppendedOverPrefix(s.file, f3, bytes, n);
  }

  /** Slot n of the appended payload file reads back the inserted header. */
  lemma {:induction false} InsertedFileReadsBack(s: Store, e: Entry, n: int, f3: seq<byte>, h: HeaderFields, bytes: seq<byte>)
    requires InsertParts(s, e, n, f3, h, bytes)
    ensures ReadRecordHeaderFromIndex(AppendedFile(f3, bytes, n), n) == Ok(h)
  {
    InsertedHeaderFits(s, e);
    PayloadFileFacts(s, e);
    AppendedSlot(f3, h, n);
    SlotRead(AppendedFile(f3, bytes, n), n);
  }

  /** The appended payload file holds the payload at the inserted header's blocks. */
  lemma {:induction false} InsertedFilePayload(s: Store, e: Entry, n: int, f3: seq<byte>, h: HeaderFields, bytes: seq<byte>)
    requires InsertParts(s, e, n, f3, h, bytes)
    ensures ReadRecordData(AppendedFile(f3, bytes, n), h) == Ok(e.data)
  {
    InsertedHeaderFits(s, e);
    PayloadFileFacts(s, e);
    InsertedHeaderLayout(s, e);
    AppendedKeepsPayload(f3, bytes, n, |s.file|, e.data);
    PayloadReadBack(AppendedFile(f3, bytes, n), h, |s.file|, e.data);
  }

  /** The appended payload file extends a valid index view by the inserted header. */
  lemma {:induction false} InsertedFileAppends(s: Store, e: Entry, n: int, f3: seq<byte>, h: HeaderFields, bytes: seq<byte>)
    requires InsertParts(s, e, n, f3, h, bytes) && IndexValid(s.file, n)
    ensures var g := AppendedFile(f3, bytes, n);
            IndexValid(g, n + 1) && IndexView(g, n + 1) == IndexView(s.file, n) + [h]
  {
    InsertedHeaderFits(s, e);
    PayloadFileFacts(s, e);
    AppendedOverPrefix(s.file, f3, bytes, n);
    AppendedSlot(f3, h, n);
    AppendView(s.file, AppendedFile(f3, bytes, n), n, h);
  }

  /** A contiguous layout over bytes that hold the payload reads the payload back. */
  lemma {:induction false} PayloadReadBack(g: seq<byte>, h: HeaderFields, p: nat, data: seq<byte>)
    requires h.dataCount == |data| && h.childCount == h.dataCount / DATA_ENTRY_LENGTH + 1 == |h.childs|
    requires forall i :: 0 <= i < |h.childs| ==> h.childs[i] == p + DATA_ENTRY_LENGTH * i
    requires p + |data| <= |g| && g[p..p + |data|] == data
    ensures ReadRecordData(g, h) == Ok(data)
  {
    ReadRecordDataContiguous(g, h, p);
  }

  /** The inserted header's blocks are contiguous from the old end of file. */
  lemma {:induction false} InsertedHeaderLayout(s: Store, e: Entry)
    requires InsertRoom(s, e)
    ensures var h := InsertedHeader(s, e);
            h.dataCount == |e.data| && h.childCount == h.dataCount / DATA_ENTRY_LENGTH + 1 == |h.childs| &&
            forall i :: 0 <= i < |h.childs| ==> h.childs[i] == |s.file| + DATA_ENTRY_LENGTH * i
  {
  }

  /** insertRecord of a new file entry, where InsertFits, succeeds and
      keeps the data start pointer. */
  lemma {:induction false} InsertRecordSucceeds(s: Store, e: Entry)
    requires InsertFits(s, e)
    ensures var o := InsertRecord(s, e);
            o.result == Ok(()) && o.store.dataStartPtr == s.dataStartPtr
  {
    var n, f3, h, bytes := InsertShape(s, e);
  }

  /** insertRecord writes the new header over slot n whatever those bytes
      held. Nothing compares the slot with the data start pointer, which
      stays where it was: when slot n lies at or past it, as insureIndexSpace
      allows once the index is not empty, the header replaces bytes of data
      stored there. */
  lemma {:induction false} InsertRecordOverwritesSlot(s: Store, e: Entry) returns (n: int, bytes: seq<byte>)
    requires InsertFits(s, e)
    ensures n == ReadNumRecordsHeader(s.file).value && Encode(InsertedHeader(s, e)) == Ok(bytes)
    ensures InsertRecord(s, e).store.dataStartPtr == s.dataStartPtr
    ensures var g := InsertRecord(s, e).store.file;
            SlotStart(n) + |bytes| <= |g| && g[SlotStart(n)..SlotStart(n) + |bytes|] == bytes
  {
    var f3, h;
    n, f3, h, bytes := InsertShape(s, e);
    InsertedFileSlot(s, e, n, f3, h, bytes);
  }

  /** The appended payload file holds the inserted header's encoding at slot n. */
  lemma {:induction false} InsertedFileSlot(s: Store, e: Entry, n: int, f3: seq<byte>, h: HeaderFields, bytes: seq<byte>)
    requires InsertParts(s, e, n, f3, h, bytes)
    ensures var g := AppendedFile(f3, bytes, n);
            SlotStart(n) + |bytes| <= |g| && g[SlotStart(n)..SlotStart(n) + |bytes|] == bytes
  {
    InsertedHeaderFits(s, e);
    PayloadFileFacts(s, e);
    var f4 := Overwrite(f3, SlotStart(n), bytes);
    OverwriteReadBack(f3, SlotStart(n), bytes);
    OverwriteOutside(f4, NUM_RECORDS_HEADER_LOCATION, EncodeInt32(n + 1), SlotStart(n), SlotStart(n) + |bytes|);
  }

  /** insertRecord of a new file entry, where InsertFits, stores the count n + 1. */
  lemma {:induction false} InsertRecordCounts(s: Store, e: Entry)
    requires InsertFits(s, e)
    ensures ReadNumRecordsHeader(InsertRecord(s, e).store.file).Ok?
    ensures ReadNumRecordsHeader(InsertRecord(s, e).store.file).value == ReadNumRecordsHeader(s.file).value + 1
  {
    var n, f3, h, bytes := InsertShape(s, e);
    InsertedFileCount(s, e, n, f3, h, bytes);
  }

  /** insertRecord of a new file entry, where InsertFits, keeps slots 0 to n - 1. */
  lemma {:induction false} InsertRecordKeepsIndex(s: Store, e: Entry)
    requires InsertFits(s, e)
    ensures var n := ReadNumRecordsHeader(s.file).value;
            forall q :: 0 <= q < n ==> Window(InsertRecord(s, e).store.file, q) == Window(s.file, q)
  {
    var n, f3, h, bytes := InsertShape(s, e);
    InsertedFileKeeps(s, e, n, f3, h, bytes);
  }

  /** After insertRecord of a new file entry, where InsertFits, slot n
      reads back a header with the entry's name and payload length. */
  lemma {:induction false} InsertRecordReadsBack(s: Store, e: Entry)
    requires InsertFits(s, e)
    ensures var n := ReadNumRecordsHeader(s.file).value;
            var h := InsertedHeader(s, e);
            ReadRecordHeaderFromIndex(InsertRecord(s, e).store.file, n) == Ok(h) &&
            h.name == e.name && !h.isDir && h.dataCount == |e.data|
  {
    var n, f3, h, bytes := InsertShape(s, e);
    InsertedFileReadsBack(s, e, n, f3, h, bytes);
  }

  /** The header insertRecord stores reads back the entry's payload. */
  lemma {:induction false} InsertRecordStoresPayload(s: Store, e: Entry)
    requires InsertFits(s, e)
    ensures ReadRecordData(InsertRecord(s, e).store.file, InsertedHeader(s, e)) == Ok(e.data)
  {
    var n, f3, h, bytes := InsertShape(s, e);
    InsertedFilePayload(s, e, n, f3, h, bytes);
  }

  /** insertRecord of a new file entry, where InsertFits, appends its
      header to a valid index view. */
  lemma {:induction false} InsertRecordAppends(s: Store, e: Entry)
    requires InsertFits(s, e)
    requires IndexValid(s.file, ReadNumRecordsHeader(s.file).value)
    ensures var n := ReadNumRecordsHeader(s.file).value;
            var g := InsertRecord(s, e).store.file;
            IndexValid(g, n + 1) && IndexView(g, n + 1) == IndexView(s.file, n) + [InsertedHeader(s, e)]
  {
    var n, f3, h, bytes := InsertShape(s, e);
    InsertedFileAppends(s, e, n, f3, h, bytes);
  }
}
