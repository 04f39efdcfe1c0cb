# A verified model of volyx/random-access-file

`BaseRecordsFile` stores named records in a single `RandomAccessFile`. The file has three regions:

- A 16-byte file header: the record count (a Java `int`) at offset 0 and the data-start pointer (a `long`) at offset 4.
- An index of 64-byte slots from offset 16. Slot `i` holds the `RecordHeader` of record `i`.
- The record data, in 64-byte blocks appended at the end of the file.

A `RecordHeader` carries these fields:

- `name`, written with `writeUTF`
- `dataCount`
- `isDir`
- `childCount`
- `childCount` block offsets (`childs`)
- an `indexPosition` that lives only in memory

A path is resolved by `PathParser.parse`. The path `"/"` is whatever slot 0 holds. Any other path is looked up by its first component among the children of slot 0's header.

The model has the source's two layers.

- **Pure specification layer.**
  - `Bytes` models Java's big-endian `DataInput`/`DataOutput` integers and 32-bit wrap-around.
  - `Io` models the file as a `seq<byte>`: seek, read, write past the end, and `setLength`. It also holds the `Result` error type.
  - `RecordHeaders` holds the header codec (`Encode`/`Decode`) and the block layout the data constructor computes (`Allocation`).
  - `Storage` states every step of `BaseRecordsFile` as a function from a `Store` to an `Outcome`. A `Store` is the file bytes plus the cached `dataStartPtr`. An `Outcome` is the new store plus a result or the exception thrown.
- **Imperative layer.**
  - `RecordHeaders.RecordHeader` is a class with the Java fields. Its constructors, `Read`, `Write` and the index-position accessors update them in place.
  - `RecordsFiles.RecordsFile` is a class with the fields `file` and `dataStartPtr`.
  - Every method takes the Java method's steps, loops included. Its contract says it ends in exactly the state, with exactly the result, that the matching `Storage` function gives for the old state.
- **Property modules.** `StorageProperties`, `IndexProperties` and `DatabaseProperties` prove what those functions guarantee:
  - block placement and the payload round trip
  - slot frames and the index as a list of headers
  - append and swap-remove
  - the creation layout
  - the effect of `insertRecord`

Choices the code makes and the model follows:

- **Create always fails.** The creating constructor cannot succeed on a fresh file. `insertRecord(new Entry("/", true))` first asks `recordExists("/")`, and `parse("/")` returns whatever slot 0 decodes to. With room for a record, slot 0 is zero bytes, which decode as a blank header, so the insert throws "Key exists". With no room, reading slot 0 hits the end of the file. `Storage.Create`'s contract states the failure for every initialSize, and `DatabaseProperties.CreateRejectsItsOwnRoot` and `DatabaseProperties.CreateWithoutIndexRoomFails` say which exception.
- **`insureIndexSpace` compares with the file length.** It compares the end of the required index with the file length, not with `dataStartPtr`, and grows only an empty index. With records present it does nothing, whatever the space. So slot n can lie past `dataStartPtr`, and `addEntryToIndex` then writes the new header over record data stored there. `DatabaseProperties.InsertRecordOverwritesSlot` states where the header lands.
- **A header is not bounded to its slot.** `write` fails only on a name longer than 65535 bytes. A header longer than 64 bytes runs into the next slot, and the model writes exactly what `write` emits. The index lemmas assume a header that fits.
- **Integers keep their Java types.** Counts are signed Java `int`s, and the slot offset `16 + 64 * pos` and the allocation growth `childCount * 64` wrap around in 32 bits.
- **A directory gets no blocks.** A directory header gets `childCount` 0 and the single child `dataPointer`, which is never written out. So a directory's payload is not stored.
- **An exact multiple of 64 gets one block too many.** A file payload gets `dataLength / 64 + 1` blocks, so a payload that is an exact multiple of 64 (including 0) gets one block more than it needs, and the last loop iteration moves 0 bytes.
- **Files grow with zeros.** A write past the end of the file, or a `setLength` that grows it, fills the gap with zero bytes. Java leaves the contents of a grown file undefined.
- **Names are bytes.** Names are the bytes `writeUTF` emits after its two-byte length. The separator is the byte `'/'` (47).

## Model

| member | source | states |
|---|---|---|
| RecordsFiles.RecordsFile.Create | src/main/java/io/github/volyx/BaseRecordsFile.java:28-40 | ends in Storage.Create's state and result: file sized to slot initialSize, count 0 and data-start written, then the root directory inserted |
| RecordsFiles.RecordsFile.Open | src/main/java/io/github/volyx/BaseRecordsFile.java:50-57 | the file is kept as given; dataStartPtr is the long at offset 4, or the read error is returned |
| RecordsFiles.RecordsFile.GetFileLength | src/main/java/io/github/volyx/BaseRecordsFile.java:59-61 | returns the number of bytes in the file |
| RecordsFiles.RecordsFile.SetFileLength | src/main/java/io/github/volyx/BaseRecordsFile.java:62-64 | a negative length throws and changes nothing; otherwise the file is truncated or zero-extended to that length |
| RecordsFiles.RecordsFile.ReadNumRecordsHeader | src/main/java/io/github/volyx/BaseRecordsFile.java:68-71 | returns the int at offset 0, or end-of-file |
| RecordsFiles.RecordsFile.WriteNumRecordsHeader | src/main/java/io/github/volyx/BaseRecordsFile.java:75-78 | bytes 0..4 become the big-endian count; nothing else changes |
| RecordsFiles.RecordsFile.ReadDataStartHeader | src/main/java/io/github/volyx/BaseRecordsFile.java:82-85 | returns the long at offset 4, or end-of-file |
| RecordsFiles.RecordsFile.WriteDataStartPtrHeader | src/main/java/io/github/volyx/BaseRecordsFile.java:89-92 | bytes 4..12 become the big-endian pointer; nothing else changes |
| RecordsFiles.RecordsFile.GetRecordAt | src/main/java/io/github/volyx/BaseRecordsFile.java:163-168 | a fresh header object whose fields are what is decoded at the offset, or the error (negative seek, end of file, negative childCount) |
| RecordsFiles.RecordsFile.ReadRecordHeaderFromIndex | src/main/java/io/github/volyx/BaseRecordsFile.java:104-109 | a fresh header object holding what slot `position` decodes to, or the error |
| RecordsFiles.RecordsFile.WriteHeader | src/main/java/io/github/volyx/BaseRecordsFile.java:121-122 | seek then write: the encoding is written at the offset, or the seek or name-length error is returned with the file unchanged |
| RecordsFiles.RecordsFile.WriteRecordHeaderToIndex | src/main/java/io/github/volyx/BaseRecordsFile.java:113-116 | the header's encoding goes to the slot of its indexPosition |
| RecordsFiles.RecordsFile.AddEntryToIndex | src/main/java/io/github/volyx/BaseRecordsFile.java:120-125 | ends in Storage.AddEntryToIndex's state; on success the header object's indexPosition becomes currentNumRecords; its encoded fields are kept |
| RecordsFiles.RecordsFile.DeleteEntryFromIndex | src/main/java/io/github/volyx/BaseRecordsFile.java:130-138 | ends in Storage.DeleteEntryFromIndex's state and result (last header moved into the target's slot unless the target is last, count decremented) |
| RecordsFiles.RecordsFile.InsureIndexSpace | src/main/java/io/github/volyx/BaseRecordsFile.java:289-297 | ends in Storage.InsureIndexSpace's state and result, whose three cases DatabaseProperties.InsureIndexSpaceGrowsOnlyAnEmptyIndex states |
| RecordsFiles.RecordsFile.AllocateRecord | src/main/java/io/github/volyx/BaseRecordsFile.java:325-330 | a fresh header whose blocks start at the old end of file, and the file grown as Storage.AllocateRecord says |
| RecordsFiles.RecordsFile.WriteRecordData | src/main/java/io/github/volyx/BaseRecordsFile.java:228-247 | dataCount becomes the payload length even when a write throws; the file is the one Storage.WriteRecordData gives after the loop's writes |
| RecordsFiles.RecordsFile.ReadFully | src/main/java/io/github/volyx/BaseRecordsFile.java:213-217 | readFully: zero bytes do nothing; past the end of file it throws; otherwise buf[from..from+len) receives the file's bytes at `at` and the rest of buf is kept |
| RecordsFiles.RecordsFile.ReadBlockInto | src/main/java/io/github/volyx/BaseRecordsFile.java:209-218 | one loop iteration of readRecordData: the buffer after it equals Storage.ReadBlocks after i + 1 iterations, or the error matches |
| RecordsFiles.RecordsFile.ReadRecordData | src/main/java/io/github/volyx/BaseRecordsFile.java:205-222 | returns the buffer Storage.ReadRecordData specifies: dataCount bytes filled block by block, or the exception |
| RecordsFiles.RecordsFile.GetChildRecordHeader | src/main/java/io/github/volyx/BaseRecordsFile.java:356-364 | returns the first child named dir (as a fresh object) exactly when Storage.GetChildRecordHeader finds one, null when none is found, and the read error otherwise |
| RecordsFiles.RecordsFile.Parse | src/main/java/io/github/volyx/BaseRecordsFile.java:334-352 | returns what Storage.Parse gives, as a fresh header object or null |
| RecordsFiles.RecordsFile.RecordExists | src/main/java/io/github/volyx/BaseRecordsFile.java:152-156 | true exactly when parse returns a header; parse's errors propagate |
| RecordsFiles.RecordsFile.InsertRecord | src/main/java/io/github/volyx/BaseRecordsFile.java:142-150 | ends in Storage.InsertRecord's state and result, so a duplicate key throws "Key exists" with the state unchanged |
| RecordsFiles.RecordsFile.InsertNew | src/main/java/io/github/volyx/BaseRecordsFile.java:146-149 | the steps after the duplicate check end in Storage.InsertNew's state and result |
| RecordHeaders.RecordHeader.Empty | src/main/java/io/github/volyx/RecordHeader.java:33-34 | the blank header: zero counts and position 0; Java's null name and childs are modelled as empty sequences |
| RecordHeaders.RecordHeader.constructor | src/main/java/io/github/volyx/RecordHeader.java:35-49 | the fields are Allocation(name, isDir, dataPointer, dataLength), and indexPosition is 0 |
| RecordHeaders.RecordHeader.GetIndexPosition | src/main/java/io/github/volyx/RecordHeader.java:50-52 | returns the indexPosition field |
| RecordHeaders.RecordHeader.SetIndexPosition | src/main/java/io/github/volyx/RecordHeader.java:53-55 | sets indexPosition and leaves every encoded field as it was |
| RecordHeaders.RecordHeader.Read | src/main/java/io/github/volyx/RecordHeader.java:57-66 | on a decodable stream the fields become the decoded header (so childs has exactly childCount entries) and the rest of the stream is returned; otherwise the decode error |
| RecordHeaders.RecordHeader.ReadChilds | src/main/java/io/github/volyx/RecordHeader.java:62-65 | the childCount readLong calls give what ReadLongs specifies: count longs and the rest, or end-of-file |
| RecordHeaders.RecordHeader.Write | src/main/java/io/github/volyx/RecordHeader.java:67-76 | emits exactly Encode of the fields: name, dataCount, isDir, childCount, then childs[0..childCount) |
| RecordHeaders.ReadLongs | src/main/java/io/github/volyx/RecordHeader.java:62-65 | succeeds exactly when 8 * count bytes are there, then with count 64-bit values, consuming 8 * count bytes; otherwise end-of-file |
| RecordHeaders.Encode | src/main/java/io/github/volyx/RecordHeader.java:67-76 | fails, with UTFDataFormatException, exactly when the name is longer than 65535 bytes; otherwise has length 2 + name + 4 + 1 + 4 + 8 * childCount |
| RecordHeaders.Decode | src/main/java/io/github/volyx/RecordHeader.java:57-66 | whatever is decoded has every field in its Java range and exactly childCount children, and consumes exactly its encoded size |
| RecordHeaders.Stored | src/main/java/io/github/volyx/RecordHeader.java:67-76 | what a header reads back as: its childs cut to the emitted children, and the header itself when it has exactly childCount children |
| RecordHeaders.DecodeEncode | src/main/java/io/github/volyx/RecordHeader.java:57-76 | read after write of a decodable header returns that header and leaves the bytes that follow (indexPosition is not part of the encoding) |
| RecordHeaders.DecodeEncodeStored | src/main/java/io/github/volyx/RecordHeader.java:57-76 | read after write of any header with a writable name returns the header with childs cut to childCount |
| RecordHeaders.DecodeExtend | src/main/java/io/github/volyx/RecordHeader.java:57-66 | read does not depend on the bytes past the header it consumes |
| RecordHeaders.Allocation | src/main/java/io/github/volyx/RecordHeader.java:35-49 | a file gets dataLength/64 + 1 contiguous blocks from dataPointer, with (childCount - 1) * 64 <= dataLength < childCount * 64; a directory gets childCount 0 and the single child dataPointer; dataCount is 0 |
| RecordHeaders.AllocationBlocksDisjoint | src/main/java/io/github/volyx/RecordHeader.java:42-46 | a file entry's blocks are increasing and 64 bytes apart, so no two overlap |
| Bytes.Int32RoundTrip | src/main/java/io/github/volyx/RecordHeader.java:59-61 | readInt after writeInt returns the int |
| Bytes.Int64RoundTrip | src/main/java/io/github/volyx/RecordHeader.java:64 | readLong after writeLong returns the long |
| Bytes.UInt16RoundTrip | src/main/java/io/github/volyx/RecordHeader.java:58 | the unsigned-short length prefix of writeUTF reads back |
| Bytes.Wrap32 | src/main/java/io/github/volyx/BaseRecordsFile.java:98 | the Java int result: in the int range, equal to the value whenever it fits, and congruent to it modulo 2^32 |
| Storage.IndexPositionToRecordHeaderFp | src/main/java/io/github/volyx/BaseRecordsFile.java:97-99 | 16 + 64 * pos for every position whose product fits an int; in general 16 plus an int |
| Storage.ReadIntAt | src/main/java/io/github/volyx/BaseRecordsFile.java:69-70 | seek then readInt: succeeds exactly when four bytes are there, with an int |
| Storage.ReadLongAt | src/main/java/io/github/volyx/BaseRecordsFile.java:83-84 | seek then readLong: succeeds exactly when eight bytes are there, with a long |
| Storage.ReadRecordData | src/main/java/io/github/volyx/BaseRecordsFile.java:205-206 | a negative dataCount throws NegativeArraySizeException; a result has exactly dataCount bytes |
| Storage.FirstComponent | src/main/java/io/github/volyx/BaseRecordsFile.java:335-346 | parts[0] of split("/"): absent exactly when the path is non-empty and all separators; otherwise a separator-free prefix of the path that ends at a separator or at the end |
| Storage.SearchChildren | src/main/java/io/github/volyx/BaseRecordsFile.java:357-362 | a header found has the name looked for |
| Storage.SearchChildrenAbsent | src/main/java/io/github/volyx/BaseRecordsFile.java:356-364 | null is returned exactly when every child reads back under another name |
| Storage.SearchChildrenFindsFirst | src/main/java/io/github/volyx/BaseRecordsFile.java:356-364 | a header returned is the one read at some child i, and every earlier child reads under another name |
| Storage.SearchChildrenFails | src/main/java/io/github/volyx/BaseRecordsFile.java:356-364 | an exception comes from a child that cannot be read, every earlier child reading under another name |
| Storage.Parse | src/main/java/io/github/volyx/BaseRecordsFile.java:334-352 | a failing root read fails the parse; "/" gives the root header; any other path gives, if anything, a header named after its first component |
| Storage.InsertRecord | src/main/java/io/github/volyx/BaseRecordsFile.java:142-145 | an existing key throws "Key exists" and leaves the state unchanged; a failing existence check also changes nothing; success implies the key did not exist |
| Storage.SetFileLength | src/main/java/io/github/volyx/BaseRecordsFile.java:62-64 | a negative length throws NegativeLength and changes nothing; otherwise the file has exactly that length, keeps its bytes below it and reads zero past the old end; the data-start field is kept |
| Storage.ReadNumRecordsHeader | src/main/java/io/github/volyx/BaseRecordsFile.java:68-71 | succeeds exactly when the file has 4 bytes, with the signed big-endian int of bytes 0..4; otherwise end-of-file (IndexProperties.CountWrite reads back a write) |
| Storage.WriteNumRecordsHeader | src/main/java/io/github/volyx/BaseRecordsFile.java:75-78 | the file becomes the 4-byte big-endian count followed by the old bytes from offset 4; the data-start field is kept (IndexProperties.CountWrite is its read-back partner) |
| Storage.ReadDataStartHeader | src/main/java/io/github/volyx/BaseRecordsFile.java:82-85 | succeeds exactly when the file has 12 bytes, with the signed big-endian long of bytes 4..12; otherwise end-of-file |
| Storage.WriteDataStartPtrHeader | src/main/java/io/github/volyx/BaseRecordsFile.java:89-92 | the file becomes bytes 0..4, the 8-byte big-endian pointer, and the old bytes from offset 12, at least 12 bytes long; the cached field is not touched |
| Storage.DecodeAt | src/main/java/io/github/volyx/BaseRecordsFile.java:163-168 | a header decoded at an offset is decodable: fields in their Java ranges and exactly childCount children |
| Storage.ReadRecordHeaderFromIndex | src/main/java/io/github/volyx/BaseRecordsFile.java:104-109 | a header read from a slot is decodable; a negative position in the int range fails with a negative seek (IndexProperties.IndexViewReads gives its value on a valid index) |
| Storage.WriteHeaderAt | src/main/java/io/github/volyx/BaseRecordsFile.java:121-122 | fails exactly on a negative offset or a name over 65535 bytes, changing nothing; otherwise the encoding lies at the offset, the bytes before it and after it are kept, and the file grows only to the header's end |
| Storage.WriteRecordHeaderToIndex | src/main/java/io/github/volyx/BaseRecordsFile.java:113-116 | for an in-range position succeeds exactly when the name is writable, with the encoding at 16 + 64 * position; an error changes nothing (IndexProperties.WriteIntoSlot reads it back) |
| Storage.AddEntryToIndex | src/main/java/io/github/volyx/BaseRecordsFile.java:120-125 | returns currentNumRecords and sets bytes 0..4 to the int count + 1; for an in-range count it succeeds exactly when the name is writable; an error changes nothing (partners: IndexProperties.AddEntryToIndexCounts, AddEntryToIndexReadsBack, AddEntryToIndexAppends) |
| Storage.DeleteEntryFromIndex | src/main/java/io/github/volyx/BaseRecordsFile.java:130-138 | deleting the last entry always succeeds; a success sets bytes 0..4 to the int count - 1; an error changes nothing (partners: IndexProperties.DeleteEntryFromIndexCounts, DeleteEntryFromIndexSwapsInLast, DeleteEntryFromIndexRemovesOne) |
| Storage.InsureIndexSpace | src/main/java/io/github/volyx/BaseRecordsFile.java:289-297 | succeeds exactly when the count can be read; it changes the store only on an empty index whose required end lies past the file, and then the data start becomes that end and the file exactly that long (DatabaseProperties.InsureIndexSpaceGrowsOnlyAnEmptyIndex) |
| Storage.AllocateRecord | src/main/java/io/github/volyx/BaseRecordsFile.java:325-330 | the header has the given name and kind, dataCount 0, and its first child is the old end of file; a directory changes nothing; a failure changes nothing (StorageProperties.AllocateRecordPlacesBlocksAtEnd gives the blocks) |
| Storage.WriteBlocks | src/main/java/io/github/volyx/BaseRecordsFile.java:235-244 | the loop's writes never shrink the file or touch the data-start field, and fail only on a negative seek or an out-of-range slice (StorageProperties.WriteBlocksContiguous gives the bytes) |
| Storage.WriteRecordData | src/main/java/io/github/volyx/BaseRecordsFile.java:228-247 | a success returns the header with dataCount set to the payload length; with no loop iterations nothing but dataCount changes; the file never shrinks (StorageProperties.WriteRecordDataIsOneWrite) |
| Storage.ReadBlocks | src/main/java/io/github/volyx/BaseRecordsFile.java:209-219 | a filled buffer has exactly dataCount bytes (StorageProperties.ReadBlocksContiguous gives its contents) |
| Storage.GetChildRecordHeader | src/main/java/io/github/volyx/BaseRecordsFile.java:356-364 | a header found is named dir; a root with childCount 0 or less gives null (DatabaseProperties.ParseFindsFirstChild, ParseAbsent and ParseFails give the search) |
| Storage.RecordExists | src/main/java/io/github/volyx/BaseRecordsFile.java:152-156 | succeeds exactly when parse does, and is true exactly when parse returns a header; for "/" it succeeds exactly when slot 0 can be read, and is then true |
| Storage.InsertNew | src/main/java/io/github/volyx/BaseRecordsFile.java:146-149 | a count-read failure throws end-of-file and changes nothing; with records present the data-start field is kept (DatabaseProperties.InsertRecord* give the successful insert) |
| Storage.CreateHeaders | src/main/java/io/github/volyx/BaseRecordsFile.java:28-37 | succeeds exactly when 16 + 64 * initialSize (as an int) is not negative, failing with NegativeLength otherwise; the data start is that offset (DatabaseProperties.CreateLayout gives the bytes) |
| Storage.Create | src/main/java/io/github/volyx/BaseRecordsFile.java:28-40 | the creating constructor fails for every initialSize (DatabaseProperties.CreateRejectsItsOwnRoot and CreateWithoutIndexRoomFails say with which error) |
| Storage.SearchChildrenSkips | src/main/java/io/github/volyx/BaseRecordsFile.java:356-364 | after i children that all read under another name, the search goes on exactly as a search of the remaining children |
| Storage.SearchChildrenFindsAt | src/main/java/io/github/volyx/BaseRecordsFile.java:356-364 | if child i reads as a header named dir and every earlier child reads under another name, that header is returned |
| Storage.SearchChildrenFailsAt | src/main/java/io/github/volyx/BaseRecordsFile.java:356-364 | if child i cannot be read and every earlier child reads under another name, the search throws child i's error |
| StorageProperties.AllocateRecordPlacesBlocksAtEnd | src/main/java/io/github/volyx/BaseRecordsFile.java:325-330 | block i is at the old length + 64 * i, the file grows by exactly childCount * 64 bytes, and the old bytes are kept |
| StorageProperties.BlockTransfersInRange | src/main/java/io/github/volyx/BaseRecordsFile.java:237-243 | each block transfer moves between 0 and 64 bytes and stays inside the payload; the last one moves dataLength mod 64 bytes |
| StorageProperties.WriteBlocksContiguous | src/main/java/io/github/volyx/BaseRecordsFile.java:235-244 | over contiguous blocks the first k iterations write the payload's first min(64k, length) bytes as one write |
| StorageProperties.ReadBlocksContiguous | src/main/java/io/github/volyx/BaseRecordsFile.java:209-219 | over contiguous blocks the first k iterations fill the buffer's first min(64k, dataCount) bytes from the file and leave the rest zero |
| StorageProperties.WriteRecordDataIsOneWrite | src/main/java/io/github/volyx/BaseRecordsFile.java:228-247 | on the allocator's blocks the payload lands at the first block, dataCount becomes its length, and every other byte is kept |
| StorageProperties.ReadRecordDataContiguous | src/main/java/io/github/volyx/BaseRecordsFile.java:205-222 | on the allocator's blocks the result is the dataCount bytes at the first block |
| StorageProperties.WriteThenReadRecordData | src/main/java/io/github/volyx/BaseRecordsFile.java:205-247 | readRecordData after writeRecordData on freshly allocated blocks returns exactly the payload |
| StorageProperties.DirectoryPayloadIsDropped | src/main/java/io/github/volyx/BaseRecordsFile.java:228-247 | a directory header has no blocks: nothing is written, and reading it back gives dataCount zero bytes |
| IndexProperties.IndexViewReads | src/main/java/io/github/volyx/BaseRecordsFile.java:104-109 | on a valid index, readRecordHeaderFromIndex(q) returns the q-th header of the index view |
| IndexProperties.WriteIntoSlot | src/main/java/io/github/volyx/BaseRecordsFile.java:113-116 | a header that fits is read back from its slot, as stored |
| IndexProperties.SlotWriteFrame | src/main/java/io/github/volyx/BaseRecordsFile.java:113-116 | a write of at most 64 bytes at the start of slot n leaves every other slot |
| IndexProperties.CountWrite | src/main/java/io/github/volyx/BaseRecordsFile.java:75-78 | the count read after writeNumRecordsHeader is the int written, and the file length is kept |
| IndexProperties.AddEntryToIndexCounts | src/main/java/io/github/volyx/BaseRecordsFile.java:120-125 | returns position n, stores count n + 1, keeps the data-start pointer, the file length and every slot but n |
| IndexProperties.AddEntryToIndexReadsBack | src/main/java/io/github/volyx/BaseRecordsFile.java:120-125 | slot n then reads back the header (childs cut to childCount) |
| IndexProperties.AddEntryToIndexAppends | src/main/java/io/github/volyx/BaseRecordsFile.java:120-125 | a valid index of n headers becomes a valid index of n + 1: the old list with the new header appended |
| IndexProperties.SwapRemoveMultiset | src/main/java/io/github/volyx/BaseRecordsFile.java:131-137 | moving the last element into position t and dropping the last takes exactly one copy of v[t] out |
| IndexProperties.DeleteEntryFromIndexCounts | src/main/java/io/github/volyx/BaseRecordsFile.java:130-138 | on a valid index succeeds, stores count n - 1, keeps the data-start pointer, the file length and every slot but t |
| IndexProperties.DeleteEntryFromIndexSwapsInLast | src/main/java/io/github/volyx/BaseRecordsFile.java:130-138 | the new list of n - 1 headers is the old one with position t replaced by the last header and the last dropped |
| IndexProperties.DeleteEntryFromIndexRemovesOne | src/main/java/io/github/volyx/BaseRecordsFile.java:130-138 | the multiset of indexed headers loses exactly the target's header |
| DatabaseProperties.InsureIndexSpaceGrowsOnlyAnEmptyIndex | src/main/java/io/github/volyx/BaseRecordsFile.java:289-297 | a failing count read changes nothing; with records present, or room already there, nothing happens; an empty index short of room is zero-extended to exactly the required end, which becomes the data start in the field and the header |
| DatabaseProperties.CreateLayout | src/main/java/io/github/volyx/BaseRecordsFile.java:28-37 | before the root insert the file is exactly 16 + 64 * initialSize bytes, count 0, data start just past the index, zeros from byte 12 |
| DatabaseProperties.DecodeZeros | src/main/java/io/github/volyx/RecordHeader.java:57-66 | a slot of zero bytes decodes as the blank header |
| DatabaseProperties.CreateRejectsItsOwnRoot | src/main/java/io/github/volyx/BaseRecordsFile.java:28-40 | with room for a record the creating constructor throws "Key exists" for "/" |
| DatabaseProperties.CreateWithoutIndexRoomFails | src/main/java/io/github/volyx/BaseRecordsFile.java:28-40 | with initialSize 0 the creating constructor throws end-of-file at the root lookup |
| DatabaseProperties.ChildlessRootFindsOnlyItself | src/main/java/io/github/volyx/BaseRecordsFile.java:334-364 | while the root header has childCount 0 (as every directory header has) no path but "/" resolves, and recordExists is false |
| DatabaseProperties.InsertRecordSucceeds | src/main/java/io/github/volyx/BaseRecordsFile.java:142-150 | a new file entry whose header fits and whose index slot is in the file is inserted without exception, keeping the data-start pointer |
| DatabaseProperties.InsertRecordCounts | src/main/java/io/github/volyx/BaseRecordsFile.java:142-150 | the count goes up by one |
| DatabaseProperties.InsertRecordKeepsIndex | src/main/java/io/github/volyx/BaseRecordsFile.java:142-150 | slots 0 to n - 1 are unchanged |
| DatabaseProperties.InsertRecordReadsBack | src/main/java/io/github/volyx/BaseRecordsFile.java:142-150 | slot n reads back a file header with the entry's name and payload length |
| DatabaseProperties.InsertRecordStoresPayload | src/main/java/io/github/volyx/BaseRecordsFile.java:142-150 | reading the inserted header's data returns exactly the payload |
| DatabaseProperties.InsertRecordAppends | src/main/java/io/github/volyx/BaseRecordsFile.java:142-150 | a valid index of n headers becomes a valid index of n + 1 ending in the inserted header |
| DatabaseProperties.ParseFindsFirstChild | src/main/java/io/github/volyx/BaseRecordsFile.java:334-364 | for a path other than "/" with first component d: parse returns h, and recordExists is true, exactly when some root child i reads as h named d and every earlier child reads under another name |
| DatabaseProperties.ParseAbsent | src/main/java/io/github/volyx/BaseRecordsFile.java:334-364 | parse returns null, and recordExists is false, exactly when every root child reads under a name other than the first component |
| DatabaseProperties.ParseFails | src/main/java/io/github/volyx/BaseRecordsFile.java:334-364 | parse throws, and so does recordExists, exactly when some root child cannot be read after children with other names; the error is that child's |
| DatabaseProperties.InsertRecordOverwritesSlot | src/main/java/io/github/volyx/BaseRecordsFile.java:142-150 | the new header's encoding lands at slot n's offset 16 + 64 * n and the data-start pointer does not move, whether or not that slot lies past it |

## Left out

- Files and concurrency:
  - Opening and closing the OS file (`File.exists`, the access-mode string, `close`) is not modelled. `Create` starts from an empty file, and `Open` takes the existing contents.
  - `synchronized` is not modelled. The model has no concurrency.
- Unused code:
  - The commented-out bodies and stubs are not modelled: `updateRecord`, `deleteRecord`'s space reclamation, the relocation loop of `insureIndexSpace`, and the `dataCapacity` checks.
  - `writeRootHeader` is not modelled. It is empty and never called.
  - `readRecord(key)` and `readRecordData(key)` are not modelled. They go through `keyToRecordHeader`, which always returns null, so they throw a NullPointerException.
  - The `key` parameter of `addEntryToIndex` and `deleteEntryFromIndex` is dropped. Neither method uses it.
- getRecordAt: its documentation promises a search of the record data. The code reads a header at the given offset, and the model does that.
- Names:
  - Modified UTF-8 is not modelled. A name is the byte string `writeUTF` emits after its length prefix.
  - Only the first component of a path is resolved, as in `parse`. `File.separator` is fixed to `/`.
- Java integer overflow:
  - Storage.WriteBlocks: `from = i * 64` is not wrapped to 32 bits. It can overflow only for payloads near 2^31 bytes, past what a Java array holds in one record's 64-byte blocks.
  - RecordsFiles.RecordsFile.AllocateRecord and RecordHeaders.RecordHeader.constructor require `0 <= dataLength < 2^31`. Every caller passes an array length, so a negative length is not modelled. In Java, `/` truncates toward zero: for a file entry `new long[dataLength / 64 + 1]` throws only when dataLength <= -128, -127..-64 give 0 blocks and -63..-1 give 1 block; a directory never throws.
- RecordHeaders.RecordHeader.Read: after an exception the fields are left unspecified. Java leaves the fields read so far and a partly filled `childs` array of `childCount` entries.
- Restricted lemmas:
  - DatabaseProperties.InsertRecordSucceeds: like the other `InsertRecord*` lemmas, it covers a new file entry whose header fits its 64-byte slot and whose next slot lies inside the file. It does not cover a directory entry or a header that overflows its slot. What `insertRecord` does in those cases is still given exactly by Storage.InsertRecord and the class method.
  - StorageProperties.AllocateRecordPlacesBlocksAtEnd: it leaves out payloads of `2^31 - 64` bytes or more, where `childCount * 64` overflows. The model computes that wrap-around.
  - IndexProperties.AddEntryToIndexAppends and the `DeleteEntryFromIndex*` lemmas assume an index whose slots all hold headers that fit. The source does not check this.
- Entry.java is not part of this model beyond its three fields (`Storage.Entry`).
