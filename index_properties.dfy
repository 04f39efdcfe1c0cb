/** The index as a sequence of headers, and what addEntryToIndex,
    deleteEntryFromIndex and insureIndexSpace do to it.

    Slot q occupies the 64 bytes at 16 + 64*q. Its window is the part of
    those bytes inside the file; the index of n records is valid when each
    of the first n windows holds a complete header, and its view is the
    sequence of those headers. */
module IndexProperties {
  import opened Bytes
  import opened Io
  import opened RecordHeaders
  import opened Storage
  import opened StorageProperties

  function SlotStart(q: int): int
    requires 0 <= q < MAX_SLOTS
  {
    FILE_HEADERS_REGION_LENGTH + INDEX_ENTRY_LENGTH * q
  }

  /** The bytes of slot q that lie inside the file. */
  function Window(f: seq<byte>, q: int): (w: seq<byte>)
    requires 0 <= q < MAX_SLOTS
    ensures |w| <= INDEX_ENTRY_LENGTH
    ensures SlotStart(q) + INDEX_ENTRY_LENGTH <= |f| ==> w == f[SlotStart(q)..SlotStart(q) + INDEX_ENTRY_LENGTH]
  {
    var start := SlotStart(q);
    if start >= |f| then [] else f[start..Min(start + INDEX_ENTRY_LENGTH, |f|)]
  }

  /** Each of the first n slots holds a header that fits in it. */
  predicate IndexValid(f: seq<byte>, n: int)
  {
    0 <= n <= MAX_SLOTS && forall q :: 0 <= q < n ==> Decode(Window(f, q)).Ok?
  }

  /** The header slot q holds, when it holds one that fits. */
  function SlotHeader(f: seq<byte>, q: int): HeaderFields
    requires 0 <= q < MAX_SLOTS
  {
    match Decode(Window(f, q))
    case Ok(p) => p.value
    case Err(_) => HeaderFields([], 0, false, 0, [])
  }

  /** The headers of the first n slots. */
  function IndexView(f: seq<byte>, n: int): (v: seq<HeaderFields>)
    requires 0 <= n <= MAX_SLOTS
    ensures |v| == n
  {
    seq(n, q requires 0 <= q < n => SlotHeader(f, q))
  }

  /** Files whose first n windows agree have the same view of n records. */
  lemma {:induction false} SameView(f: seq<byte>, g: seq<byte>, n: int)
    requires 0 <= n <= MAX_SLOTS
    requires forall q :: 0 <= q < n ==> Window(g, q) == Window(f, q)
    ensures IndexView(g, n) == IndexView(f, n)
  {
    forall q | 0 <= q < n ensures IndexView(g, n)[q] == IndexView(f, n)[q] {
      SameWindow(f, g, q);
    }
  }

  /** A header that fits its slot is what readRecordHeaderFromIndex reads
      there, whatever bytes follow the slot. */
  lemma {:induction false} SlotRead(f: seq<byte>, q: int)
    requires 0 <= q < MAX_SLOTS && Decode(Window(f, q)).Ok?
    ensures ReadRecordHeaderFromIndex(f, q) == Ok(Decode(Window(f, q)).value.value)
  {
    var start := SlotStart(q);
    var w := Window(f, q);
    var rest := WindowSplit(f, q);
    DecodeExtend(w, rest);
    DecodeAtFrom(f, start, w + rest);
  }

  /** The bytes from the start of slot q are its window followed by the rest. */
  lemma {:induction false} WindowSplit(f: seq<byte>, q: int) returns (rest: seq<byte>)
    requires 0 <= q < MAX_SLOTS
    ensures From(f, SlotStart(q)) == Window(f, q) + rest
  {
    var start := SlotStart(q);
    var all := From(f, start);
    rest := all[|Window(f, q)|..];
    if start < |f| {
      assert Window(f, q) == all[..|Window(f, q)|];
    }
  }

  lemma {:induction false} DecodeAtFrom(f: seq<byte>, off: nat, s: seq<byte>)
    requires From(f, off) == s && Decode(s).Ok?
    ensures DecodeAt(f, off) == Ok(Decode(s).value.value)
  {
  }

  /** readRecordHeaderFromIndex of each slot of a valid index reads its view. */
  lemma {:induction false} IndexViewReads(f: seq<byte>, n: int)
    requires IndexValid(f, n)
    ensures forall q :: 0 <= q < n ==> ReadRecordHeaderFromIndex(f, q) == Ok(IndexView(f, n)[q])
  {
    forall q | 0 <= q < n ensures ReadRecordHeaderFromIndex(f, q) == Ok(IndexView(f, n)[q]) {
      SlotRead(f, q);
    }
  }

  /** A write that lies inside the file and misses slot q leaves its window. */
  lemma {:induction false} WriteMissesSlot(f: seq<byte>, off: nat, bytes: seq<byte>, q: int)
    requires 0 <= q < MAX_SLOTS && off + |bytes| <= |f|
    requires off + |bytes| <= SlotStart(q) || SlotStart(q) + INDEX_ENTRY_LENGTH <= off
    ensures Window(Overwrite(f, off, bytes), q) == Window(f, q)
  {
    var g := Overwrite(f, off, bytes);
    if bytes != [] {
      assert |g| == |f|;
      var start := SlotStart(q);
      if start < |f| {
        var end := Min(start + INDEX_ENTRY_LENGTH, |f|);
        assert g[start..end] == f[start..end];
      }
    }
  }

  /** A header written into slot n, which lies inside the file, is read back
      from that slot's window. */
  lemma {:induction false} WriteIntoSlot(f: seq<byte>, n: int, h: HeaderFields)
    requires 0 <= n < MAX_SLOTS && SlotStart(n) + INDEX_ENTRY_LENGTH <= |f|
    requires h.childCount <= |h.childs| && Decodable(Stored(h)) && EncodedSize(h) <= INDEX_ENTRY_LENGTH
    ensures Encode(h).Ok?
    ensures var g := Overwrite(f, SlotStart(n), Encode(h).value);
            |g| == |f| && Decode(Window(g, n)).Ok? && Decode(Window(g, n)).value.value == Stored(h)
  {
    var start := SlotStart(n);
    var bytes := Encode(h).value;
    WindowAfterSlotWrite(f, n, bytes);
    var w := Window(Overwrite(f, start, bytes), n);
    DecodeEncodedPrefix(w, h, bytes, f[start + |bytes|..start + INDEX_ENTRY_LENGTH]);
  }

  lemma {:induction false} DecodeSame(a: seq<byte>, b: seq<byte>)
    requires a == b
    ensures Decode(a) == Decode(b)
  {
  }

  /** Slot n's window after bytes are written at its start. */
  lemma {:induction false} WindowAfterSlotWrite(f: seq<byte>, n: int, bytes: seq<byte>)
    requires 0 <= n < MAX_SLOTS && SlotStart(n) + INDEX_ENTRY_LENGTH <= |f| && |bytes| <= INDEX_ENTRY_LENGTH
    ensures var g := Overwrite(f, SlotStart(n), bytes);
            |g| == |f| && Window(g, n) == bytes + f[SlotStart(n) + |bytes|..SlotStart(n) + INDEX_ENTRY_LENGTH]
  {
    var start := SlotStart(n);
    OverwriteReadBack(f, start, bytes);
    var g := Overwrite(f, start, bytes);
    assert g[start + |bytes|..start + INDEX_ENTRY_LENGTH] == f[start + |bytes|..start + INDEX_ENTRY_LENGTH];
    assert g[start..start + INDEX_ENTRY_LENGTH] ==
           g[start..start + |bytes|] + g[start + |bytes|..start + INDEX_ENTRY_LENGTH];
  }

  /** Bytes written at the start of slot n, no more than the slot holds,
      leave every other slot's window. */
  lemma {:induction false} SlotWriteFrame(f: seq<byte>, n: int, bytes: seq<byte>)
    requires 0 <= n < MAX_SLOTS && SlotStart(n) + INDEX_ENTRY_LENGTH <= |f| && |bytes| <= INDEX_ENTRY_LENGTH
    ensures forall q :: 0 <= q < MAX_SLOTS && q != n ==> Window(Overwrite(f, SlotStart(n), bytes), q) == Window(f, q)
  {
    forall q | 0 <= q < MAX_SLOTS && q != n
      ensures Window(Overwrite(f, SlotStart(n), bytes), q) == Window(f, q)
    {
      WriteMissesSlot(f, SlotStart(n), bytes, q);
    }
  }

  /** The count in bytes [0, 4) after it is written. */
  lemma {:induction false} CountWrite(f: seq<byte>, x: int)
    requires IsInt32(x) && 4 <= |f|
    ensures var g := Overwrite(f, NUM_RECORDS_HEADER_LOCATION, EncodeInt32(x));
            |g| == |f| && ReadNumRecordsHeader(g) == Ok(x)
  {
    var g := Overwrite(f, NUM_RECORDS_HEADER_LOCATION, EncodeInt32(x));
    OverwriteReadBack(f, 0, EncodeInt32(x));
    assert From(g, 0)[..4] == EncodeInt32(x);
    Int32RoundTrip(x);
  }

  /** Writing the four count bytes leaves every slot as it was. */
  lemma {:induction false} CountWriteKeepsSlots(f: seq<byte>, count: seq<byte>)
    requires 4 <= |f| && |count| == 4
    ensures forall q :: 0 <= q < MAX_SLOTS ==>
              Window(Overwrite(f, NUM_RECORDS_HEADER_LOCATION, count), q) == Window(f, q)
  {
    forall q | 0 <= q < MAX_SLOTS
      ensures Window(Overwrite(f, NUM_RECORDS_HEADER_LOCATION, count), q) == Window(f, q)
    {
      WriteMissesSlot(f, 0, count, q);
    }
  }

  // ---------------------------------------------------------------------
  // addEntryToIndex

  /** The file addEntryToIndex leaves: the encoded header `bytes` at slot n,
      then the count n + 1. */
  function AppendedFile(f: seq<byte>, bytes: seq<byte>, n: int): seq<byte>
    requires 0 <= n < MAX_SLOTS
  {
    Overwrite(Overwrite(f, SlotStart(n), bytes), NUM_RECORDS_HEADER_LOCATION, EncodeInt32(n + 1))
  }

  lemma {:induction false} AddEntryShape(s: Store, h: HeaderFields, n: int)
    requires 0 <= n < MAX_SLOTS - 1
    requires h.childCount <= |h.childs| && |h.name| <= MAX_UTF_LENGTH
    ensures AddEntryToIndex(s, h, n) == Outcome(s.(file := AppendedFile(s.file, Encode(h).value, n)), Ok(n))
  {
    assert IndexPositionToRecordHeaderFp(n) == SlotStart(n);
    assert Wrap32(n + 1) == n + 1;
  }

  /** In the appended file slot n decodes to the header as stored. */
  lemma {:induction false} AppendedSlot(f: seq<byte>, h: HeaderFields, n: int)
    requires 0 <= n < MAX_SLOTS - 1 && SlotStart(n) + INDEX_ENTRY_LENGTH <= |f|
    requires h.childCount <= |h.childs| && Decodable(Stored(h)) && EncodedSize(h) <= INDEX_ENTRY_LENGTH
    ensures Encode(h).Ok?
    ensures var g := AppendedFile(f, Encode(h).value, n);
            Decode(Window(g, n)).Ok? && Decode(Window(g, n)).value.value == Stored(h)
  {
    var bytes := Encode(h).value;
    var f1 := Overwrite(f, SlotStart(n), bytes);
    var g := Overwrite(f1, NUM_RECORDS_HEADER_LOCATION, EncodeInt32(n + 1));
    KeptSlots(f, n, bytes, EncodeInt32(n + 1));
    WriteIntoSlot(f, n, h);
    DecodeSame(Window(g, n), Window(f1, n));
  }

  /** The appended file keeps the length and holds the count n + 1. */
  lemma {:induction false} AppendedCount(f: seq<byte>, bytes: seq<byte>, n: int)
    requires 0 <= n < MAX_SLOTS - 1 && SlotStart(n) + INDEX_ENTRY_LENGTH <= |f| && |bytes| <= INDEX_ENTRY_LENGTH
    ensures var g := AppendedFile(f, bytes, n);
            |g| == |f| && ReadNumRecordsHeader(g) == Ok(n + 1)
  {
    CountWrite(Overwrite(f, SlotStart(n), bytes), n + 1);
  }

  /** The appended file keeps every slot but n. */
  lemma {:induction false} AppendedKeeps(f: seq<byte>, bytes: seq<byte>, n: int)
    requires 0 <= n < MAX_SLOTS - 1 && SlotStart(n) + INDEX_ENTRY_LENGTH <= |f| && |bytes| <= INDEX_ENTRY_LENGTH
    ensures var g := AppendedFile(f, bytes, n);
            forall q :: 0 <= q < MAX_SLOTS && q != n ==> Window(g, q) == Window(f, q)
  {
    KeptSlots(f, n, bytes, EncodeInt32(n + 1));
  }

  /** addEntryToIndex returns n, stores the count n + 1, keeps the data start
      pointer, the file length and every slot but n. */
  lemma {:induction false} AddEntryToIndexCounts(s: Store, h: HeaderFields, n: int)
    requires 0 <= n < MAX_SLOTS - 1 && SlotStart(n) + INDEX_ENTRY_LENGTH <= |s.file|
    requires h.childCount <= |h.childs| && Decodable(Stored(h)) && EncodedSize(h) <= INDEX_ENTRY_LENGTH
    ensures var o := AddEntryToIndex(s, h, n);
            o.result == Ok(n) && o.store.dataStartPtr == s.dataStartPtr && |o.store.file| == |s.file| &&
            ReadNumRecordsHeader(o.store.file) == Ok(n + 1) &&
            forall q :: 0 <= q < MAX_SLOTS && q != n ==> Window(o.store.file, q) == Window(s.file, q)
  {
    AddEntryShape(s, h, n);
    AppendedCount(s.file, Encode(h).value, n);
    AppendedKeeps(s.file, Encode(h).value, n);
  }

  /** readRecordHeaderFromIndex(n) after addEntryToIndex(h, n) reads h back
      (with childs cut to childCount). */
  lemma {:induction false} AddEntryToIndexReadsBack(s: Store, h: HeaderFields, n: int)
    requires 0 <= n < MAX_SLOTS - 1 && SlotStart(n) + INDEX_ENTRY_LENGTH <= |s.file|
    requires h.childCount <= |h.childs| && Decodable(Stored(h)) && EncodedSize(h) <= INDEX_ENTRY_LENGTH
    ensures ReadRecordHeaderFromIndex(AddEntryToIndex(s, h, n).store.file, n) == Ok(Stored(h))
  {
    AddEntryShape(s, h, n);
    AppendedSlot(s.file, h, n);
    SlotRead(AppendedFile(s.file, Encode(h).value, n), n);
  }

  /** addEntryToIndex appends to the index view: a valid index of n records
      becomes a valid index of n + 1 whose last header is h. */
  lemma {:induction false} AddEntryToIndexAppends(s: Store, h: HeaderFields, n: int)
    requires 0 <= n < MAX_SLOTS - 1 && SlotStart(n) + INDEX_ENTRY_LENGTH <= |s.file|
    requires h.childCount <= |h.childs| && Decodable(Stored(h)) && EncodedSize(h) <= INDEX_ENTRY_LENGTH
    requires IndexValid(s.file, n)
    ensures var g := AddEntryToIndex(s, h, n).store.file;
            IndexValid(g, n + 1) && IndexView(g, n + 1) == IndexView(s.file, n) + [Stored(h)]
  {
    AddEntryShape(s, h, n);
    AppendedSlot(s.file, h, n);
    AppendedKeeps(s.file, Encode(h).value, n);
    AppendView(s.file, AppendedFile(s.file, Encode(h).value, n), n, Stored(h));
  }

  /** The slots other than n after a slot write at n and a count write. */
  lemma {:induction false} KeptSlots(f: seq<byte>, n: int, bytes: seq<byte>, count: seq<byte>)
    requires 0 <= n < MAX_SLOTS && SlotStart(n) + INDEX_ENTRY_LENGTH <= |f| && |bytes| <= INDEX_ENTRY_LENGTH
    requires |count| == 4
    ensures var f1 := Overwrite(f, SlotStart(n), bytes);
            var g := Overwrite(f1, NUM_RECORDS_HEADER_LOCATION, count);
            Window(g, n) == Window(f1, n) &&
            forall q :: 0 <= q < MAX_SLOTS && q != n ==> Window(g, q) == Window(f, q)
  {
    var f1 := Overwrite(f, SlotStart(n), bytes);
    OverwriteReadBack(f, SlotStart(n), bytes);
    SlotWriteFrame(f, n, bytes);
    CountWriteKeepsSlots(f1, count);
  }

  /** A view whose first n windows are kept and whose slot n holds x. */
  lemma {:induction false} AppendView(f: seq<byte>, g: seq<byte>, n: int, x: HeaderFields)
    requires 0 <= n < MAX_SLOTS && IndexValid(f, n)
    requires forall q :: 0 <= q < n ==> Window(g, q) == Window(f, q)
    requires Decode(Window(g, n)).Ok? && Decode(Window(g, n)).value.value == x
    ensures IndexValid(g, n + 1) && IndexView(g, n + 1) == IndexView(f, n) + [x]
  {
    AppendValid(f, g, n);
    SameView(f, g, n);
    assert SlotHeader(g, n) == x;
    ViewGrows(g, n);
  }

  /** The view of n + 1 records extends the view of n by slot n's header. */
  lemma {:induction false} ViewGrows(f: seq<byte>, n: int)
    requires 0 <= n < MAX_SLOTS
    ensures IndexView(f, n + 1) == IndexView(f, n) + [SlotHeader(f, n)]
  {
    var v, w := IndexView(f, n + 1), IndexView(f, n) + [SlotHeader(f, n)];
    forall q | 0 <= q < n + 1 ensures v[q] == w[q] {
      if q < n {
        assert v[q] == SlotHeader(f, q) == IndexView(f, n)[q];
      }
    }
  }

  /** Kept windows and a decodable slot n extend a valid index by one. */
  lemma {:induction false} AppendValid(f: seq<byte>, g: seq<byte>, n: int)
    requires 0 <= n < MAX_SLOTS && IndexValid(f, n)
    requires forall q :: 0 <= q < n ==> Window(g, q) == Window(f, q)
    requires Decode(Window(g, n)).Ok?
    ensures IndexValid(g, n + 1)
  {
    forall q | 0 <= q < n ensures Decode(Window(g, q)).Ok? {
      assert Window(g, q) == Window(f, q);
    }
  }

  // ---------------------------------------------------------------------
  // deleteEntryFromIndex

  /** Removing element t by moving the last element into its place takes
      exactly one copy of v[t] out of the multiset. */
  lemma {:induction false} SwapRemoveMultiset<T>(v: seq<T>, t: int)
    requires 0 <= t < |v|
    ensures multiset(v[t := v[|v| - 1]][..|v| - 1]) == multiset(v) - multiset{v[t]}
  {
    var n := |v|;
    var w := v[t := v[n - 1]];
    assert w == w[..n - 1] + [w[n - 1]];
    assert v == v[..n - 1] + [v[n - 1]];
    if t == n - 1 {
      assert w == v;
    } else {
      assert multiset(w) == multiset(v) - multiset{v[t]} + multiset{v[n - 1]};
    }
  }

  /** The file deleteEntryFromIndex leaves: the encoded last header `bytes`
      rewritten at slot t unless t is the last slot, then the count n - 1. */
  function SwappedFile(f: seq<byte>, t: int, n: int, bytes: seq<byte>): seq<byte>
    requires 0 <= t < n < MAX_SLOTS
  {
    if t == n - 1 then Overwrite(f, NUM_RECORDS_HEADER_LOCATION, EncodeInt32(n - 1))
    else Overwrite(Overwrite(f, SlotStart(t), bytes), NUM_RECORDS_HEADER_LOCATION, EncodeInt32(n - 1))
  }

  /** deleteEntryFromIndex, given the header `last` that slot n - 1 reads. */
  lemma {:induction false} DeleteShape(s: Store, t: int, n: int, last: HeaderFields)
    requires 0 <= t < n < MAX_SLOTS
    requires ReadRecordHeaderFromIndex(s.file, n - 1) == Ok(last) && Decodable(last)
    ensures Encode(last).Ok?
    ensures DeleteEntryFromIndex(s, t, n) == Outcome(s.(file := SwappedFile(s.file, t, n, Encode(last).value)), Ok(()))
  {
    assert Wrap32(n - 1) == n - 1;
    assert IndexPositionToRecordHeaderFp(t) == SlotStart(t);
  }

  /** In the swapped file slot t, unless it is the last slot, decodes to `last`. */
  lemma {:induction false} SwappedSlot(f: seq<byte>, t: int, n: int, last: HeaderFields)
    requires 0 <= t < n < MAX_SLOTS && SlotStart(n) <= |f|
    requires Decodable(last) && EncodedSize(last) <= INDEX_ENTRY_LENGTH
    ensures Encode(last).Ok?
    ensures var g := SwappedFile(f, t, n, Encode(last).value);
            t != n - 1 ==> Decode(Window(g, t)).Ok? && Decode(Window(g, t)).value.value == last
  {
    assert Stored(last) == last;
    if t != n - 1 {
      var bytes := Encode(last).value;
      var f1 := Overwrite(f, SlotStart(t), bytes);
      var g := Overwrite(f1, NUM_RECORDS_HEADER_LOCATION, EncodeInt32(n - 1));
      KeptSlots(f, t, bytes, EncodeInt32(n - 1));
      WriteIntoSlot(f, t, last);
      DecodeSame(Window(g, t), Window(f1, t));
    }
  }

  /** The swapped file keeps the length and holds the count n - 1. */
  lemma {:induction false} SwappedCount(f: seq<byte>, t: int, n: int, bytes: seq<byte>)
    requires 0 <= t < n < MAX_SLOTS && SlotStart(n) <= |f| && |bytes| <= INDEX_ENTRY_LENGTH
    ensures var g := SwappedFile(f, t, n, bytes);
            |g| == |f| && ReadNumRecordsHeader(g) == Ok(n - 1)
  {
    if t != n - 1 {
      CountWrite(Overwrite(f, SlotStart(t), bytes), n - 1);
    } else {
      CountWrite(f, n - 1);
    }
  }

  /** The swapped file keeps every slot but t. */
  lemma {:induction false} SwappedKeeps(f: seq<byte>, t: int, n: int, bytes: seq<byte>)
    requires 0 <= t < n < MAX_SLOTS && SlotStart(n) <= |f| && |bytes| <= INDEX_ENTRY_LENGTH
    ensures var g := SwappedFile(f, t, n, bytes);
            forall q :: 0 <= q < MAX_SLOTS && q != t ==> Window(g, q) == Window(f, q)
  {
    if t != n - 1 {
      KeptSlots(f, t, bytes, EncodeInt32(n - 1));
    } else {
      CountWriteKeepsSlots(f, EncodeInt32(n - 1));
    }
  }

  /** The header in slot n - 1 of a valid index can be rewritten into any
      slot: it encodes, fits 64 bytes, and is what slot n - 1 reads. */
  lemma {:induction false} LastFits(f: seq<byte>, n: int) returns (last: HeaderFields)
    requires 0 < n < MAX_SLOTS && IndexValid(f, n)
    ensures last == IndexView(f, n)[n - 1]
    ensures Decodable(last) && EncodedSize(last) <= INDEX_ENTRY_LENGTH
    ensures ReadRecordHeaderFromIndex(f, n - 1) == Ok(last)
  {
    assert Decode(Window(f, n - 1)).Ok?;
    last := Decode(Window(f, n - 1)).value.value;
    SlotRead(f, n - 1);
  }

  /** deleteEntryFromIndex succeeds on a valid index, stores the count n - 1,
      keeps the data start pointer, the file length and every slot but t. */
  lemma {:induction false} DeleteEntryFromIndexCounts(s: Store, t: int, n: int)
    requires 0 <= t < n < MAX_SLOTS && SlotStart(n) <= |s.file|
    requires IndexValid(s.file, n)
    ensures var o := DeleteEntryFromIndex(s, t, n);
            o.result.Ok? && o.store.dataStartPtr == s.dataStartPtr && |o.store.file| == |s.file| &&
            ReadNumRecordsHeader(o.store.file) == Ok(n - 1) &&
            forall q :: 0 <= q < MAX_SLOTS && q != t ==> Window(o.store.file, q) == Window(s.file, q)
  {
    var last := LastFits(s.file, n);
    DeleteShape(s, t, n, last);
    SwappedCount(s.file, t, n, Encode(last).value);
    SwappedKeeps(s.file, t, n, Encode(last).value);
  }

  /** deleteEntryFromIndex moves the last header into the target's slot: the
      view of n - 1 records is the old view with position t overwritten by
      the last header and the last position dropped. */
  lemma {:induction false} DeleteEntryFromIndexSwapsInLast(s: Store, t: int, n: int)
    requires 0 <= t < n < MAX_SLOTS && SlotStart(n) <= |s.file|
    requires IndexValid(s.file, n)
    ensures var g := DeleteEntryFromIndex(s, t, n).store.file;
            var v := IndexView(s.file, n);
            IndexValid(g, n - 1) && IndexView(g, n - 1) == v[t := v[n - 1]][..n - 1]
  {
    var last := LastFits(s.file, n);
    DeleteShape(s, t, n, last);
    SwappedSlot(s.file, t, n, last);
    SwappedKeeps(s.file, t, n, Encode(last).value);
    SwapView(s.file, SwappedFile(s.file, t, n, Encode(last).value), n, t);
  }

  /** deleteEntryFromIndex removes exactly the target's header from the
      multiset of indexed headers. */
  lemma {:induction false} DeleteEntryFromIndexRemovesOne(s: Store, t: int, n: int)
    requires 0 <= t < n < MAX_SLOTS && SlotStart(n) <= |s.file|
    requires IndexValid(s.file, n)
    ensures var g := DeleteEntryFromIndex(s, t, n).store.file;
            var v := IndexView(s.file, n);
            IndexValid(g, n - 1) && multiset(IndexView(g, n - 1)) == multiset(v) - multiset{v[t]}
  {
    DeleteEntryFromIndexSwapsInLast(s, t, n);
    SwapRemoveMultiset(IndexView(s.file, n), t);
  }

  /** Equal windows hold the same header. */
  lemma {:induction false} SameWindow(f: seq<byte>, g: seq<byte>, q: int)
    requires 0 <= q < MAX_SLOTS && Window(g, q) == Window(f, q)
    ensures Decode(Window(g, q)) == Decode(Window(f, q)) && SlotHeader(g, q) == SlotHeader(f, q)
  {
  }

  /** A view whose windows other than t are kept and whose slot t, unless it
      is the last, holds the last header. */
  lemma {:induction false} SwapView(f: seq<byte>, g: seq<byte>, n: int, t: int)
    requires 0 <= t < n < MAX_SLOTS && IndexValid(f, n)
    requires forall q :: 0 <= q < MAX_SLOTS && q != t ==> Window(g, q) == Window(f, q)
    requires t != n - 1 ==> Decode(Window(g, t)).Ok? && Decode(Window(g, t)).value.value == IndexView(f, n)[n - 1]
    ensures IndexValid(g, n - 1) && IndexView(g, n - 1) == IndexView(f, n)[t := IndexView(f, n)[n - 1]][..n - 1]
  {
    SwapValid(f, g, n, t);
    SwapViewEq(f, g, n, t);
  }

  /** The swapped view, position by position. */
  lemma {:induction false} SwapViewEq(f: seq<byte>, g: seq<byte>, n: int, t: int)
    requires 0 <= t < n < MAX_SLOTS
    requires forall q :: 0 <= q < MAX_SLOTS && q != t ==> Window(g, q) == Window(f, q)
    requires t != n - 1 ==> Decode(Window(g, t)).Ok? && Decode(Window(g, t)).value.value == IndexView(f, n)[n - 1]
    ensures IndexView(g, n - 1) == IndexView(f, n)[t := IndexView(f, n)[n - 1]][..n - 1]
  {
    var v := IndexView(f, n);
    var w := v[t := v[n - 1]][..n - 1];
    var u := IndexView(g, n - 1);
    forall q | 0 <= q < n - 1 ensures u[q] == w[q] {
      SwapViewAt(f, g, n, t, q);
    }
    assert u == w;
  }

  /** The swapped index is valid for n - 1 records. */
  lemma {:induction false} SwapValid(f: seq<byte>, g: seq<byte>, n: int, t: int)
    requires 0 <= t < n < MAX_SLOTS && IndexValid(f, n)
    requires forall q :: 0 <= q < MAX_SLOTS && q != t ==> Window(g, q) == Window(f, q)
    requires t != n - 1 ==> Decode(Window(g, t)).Ok?
    ensures IndexValid(g, n - 1)
  {
    forall q | 0 <= q < n - 1 ensures Decode(Window(g, q)).Ok? {
      if q != t {
        SameWindow(f, g, q);
      }
    }
  }

  /** Position q of the swapped view. */
  lemma {:induction false} SwapViewAt(f: seq<byte>, g: seq<byte>, n: int, t: int, q: int)
    requires 0 <= t < n < MAX_SLOTS && 0 <= q < n - 1
    requires forall q :: 0 <= q < MAX_SLOTS && q != t ==> Window(g, q) == Window(f, q)
    requires t != n - 1 ==> Decode(Window(g, t)).Ok? && Decode(Window(g, t)).value.value == IndexView(f, n)[n - 1]
    ensures IndexView(g, n - 1)[q] == IndexView(f, n)[t := IndexView(f, n)[n - 1]][q]
  {
    if q != t {
      SameWindow(f, g, q);
    }
  }
}
