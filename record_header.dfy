/** A record header: the name of an entry, the number of payload bytes it
    holds, the directory flag, and the list of block offsets ("childs") that
    hold its payload. Its on-disk form is what RecordHeader.write emits:
    writeUTF(name), writeInt(dataCount), writeBoolean(isDir),
    writeInt(childCount), then childCount longs. The index position is kept
    in memory only and is not part of the encoding. */
module RecordHeaders {
  import opened Bytes
  import opened Io

  /** DATA_ENTRY_LENGTH: the size of one payload block. */
  const DATA_ENTRY_LENGTH: int := 64
  /** The longest name writeUTF accepts (its length prefix is 16 bits). */
  const MAX_UTF_LENGTH: int := 0xFFFF

  /** The encoded fields of a header. */
  datatype HeaderFields = HeaderFields(
    name: seq<byte>,
    dataCount: int,
    isDir: bool,
    childCount: int,
    childs: seq<int>)

  /** A value read from a stream, and the bytes that follow it. */
  datatype Parsed<T> = Parsed(value: T, rest: seq<byte>)

  // ---------------------------------------------------------------------
  // DataInput, as RecordHeader.read uses it

  function ReadBytes(s: seq<byte>, n: nat): (r: Result<Parsed<seq<byte>>>)
    ensures r.Ok? <==> n <= |s|
    ensures r.Err? ==> r.error == EndOfFile
    ensures r.Ok? ==> |r.value.value| == n && |r.value.rest| == |s| - n
  {
    if |s| < n then Err(EndOfFile) else Ok(Parsed(s[..n], s[n..]))
  }

  function ReadUnsignedShort(s: seq<byte>): (r: Result<Parsed<nat>>)
    ensures r.Ok? ==> r.value.value <= MAX_UTF_LENGTH && |r.value.rest| == |s| - 2
  {
    var p :- ReadBytes(s, 2);
    Pow256Values();
    Ok(Parsed(FromBE(p.value), p.rest))
  }

  function ReadInt(s: seq<byte>): (r: Result<Parsed<int>>)
    ensures r.Ok? ==> IsInt32(r.value.value) && |r.value.rest| == |s| - 4
  {
    var p :- ReadBytes(s, 4);
    Pow256Values();
    Ok(Parsed(FromBESigned(p.value), p.rest))
  }

  function ReadLong(s: seq<byte>): (r: Result<Parsed<int>>)
    ensures r.Ok? <==> 8 <= |s|
    ensures r.Ok? ==> IsInt64(r.value.value) && |r.value.rest| == |s| - 8
  {
    var p :- ReadBytes(s, 8);
    Pow256Values();
    Ok(Parsed(FromBESigned(p.value), p.rest))
  }

  /** readBoolean: any non-zero byte reads as true. */
  function ReadBoolean(s: seq<byte>): (r: Result<Parsed<bool>>)
    ensures r.Ok? ==> |r.value.rest| == |s| - 1
  {
    var p :- ReadBytes(s, 1);
    Ok(Parsed(p.value[0] != 0, p.rest))
  }

  /** readUTF, with the name kept as its encoded bytes. */
  function ReadUTF(s: seq<byte>): (r: Result<Parsed<seq<byte>>>)
    ensures r.Ok? ==> |r.value.value| <= MAX_UTF_LENGTH
    ensures r.Ok? ==> |r.value.rest| == |s| - 2 - |r.value.value|
  {
    var len :- ReadUnsignedShort(s);
    ReadBytes(len.rest, len.value)
  }

  /** `count` successive readLong calls, in order. */
  function ReadLongs(s: seq<byte>, count: nat): (r: Result<Parsed<seq<int>>>)
    ensures r.Ok? <==> 8 * count <= |s|
    ensures r.Err? ==> r.error == EndOfFile
    ensures r.Ok? ==> |r.value.value| == count && |r.value.rest| == |s| - 8 * count
    ensures r.Ok? ==> forall i :: 0 <= i < count ==> IsInt64(r.value.value[i])
  {
    if count == 0 then Ok(Parsed([], s))
    else
      var prev :- ReadLongs(s, count - 1);
      var x :- ReadLong(prev.rest);
      Ok(Parsed(prev.value + [x.value], x.rest))
  }

  // ---------------------------------------------------------------------
  // The codec

  /** The headers RecordHeader.read can produce: every field within its Java
      type, and exactly childCount children. */
  predicate Decodable(h: HeaderFields)
  {
    |h.name| <= MAX_UTF_LENGTH && IsInt32(h.dataCount) &&
    0 <= h.childCount < TWO_31 && |h.childs| == h.childCount &&
    forall i :: 0 <= i < |h.childs| ==> IsInt64(h.childs[i])
  }

  /** The children RecordHeader.write emits: childs[0..childCount). */
  function Emitted(h: HeaderFields): (r: seq<int>)
    requires h.childCount <= |h.childs|
    ensures |r| == if h.childCount <= 0 then 0 else h.childCount
  {
    if h.childCount <= 0 then [] else h.childs[..h.childCount]
  }

  /** What reading back an encoded header yields: the fields as they are,
      with childs cut to the emitted children. A header with exactly
      childCount children comes back unchanged. */
  function Stored(h: HeaderFields): (r: HeaderFields)
    requires h.childCount <= |h.childs|
    ensures r.childs == Emitted(h)
    ensures h.childCount >= 0 && |h.childs| == h.childCount ==> r == h
  {
    h.(childs := Emitted(h))
  }

  /** The encoded size: 2 + |name| + 4 + 1 + 4 + 8 * childCount bytes. */
  function EncodedSize(h: HeaderFields): int
    requires h.childCount <= |h.childs|
  {
    2 + |h.name| + 4 + 1 + 4 + 8 * |Emitted(h)|
  }

  function EncodeBoolean(b: bool): seq<byte> { [if b then 1 else 0] }

  function EncodeLongs(xs: seq<int>): (r: seq<byte>)
    ensures |r| == 8 * |xs|
  {
    if xs == [] then [] else EncodeLongs(xs[..|xs| - 1]) + EncodeInt64(xs[|xs| - 1])
  }

  /** The bytes before the children: the name with its length prefix,
      dataCount, isDir and childCount. */
  function EncodeFixedPart(h: HeaderFields): (r: seq<byte>)
    requires |h.name| <= MAX_UTF_LENGTH
  {
    EncodeUInt16(|h.name|) + h.name + EncodeInt32(h.dataCount) + EncodeBoolean(h.isDir) +
    EncodeInt32(h.childCount)
  }

  /** RecordHeader.write: fails, before writing anything, only when the name
      is too long for writeUTF. Nothing bounds the result to the 64-byte slot. */
  function Encode(h: HeaderFields): (r: Result<seq<byte>>)
    requires h.childCount <= |h.childs|
    ensures r.Err? <==> |h.name| > MAX_UTF_LENGTH
    ensures r.Err? ==> r.error == UtfDataFormat
    ensures r.Ok? ==> |r.value| == EncodedSize(h)
  {
    if |h.name| > MAX_UTF_LENGTH then Err(UtfDataFormat)
    else Ok(EncodeFixedPart(h) + EncodeLongs(Emitted(h)))
  }

  /** RecordHeader.read: a negative childCount fails at the array allocation;
      running out of bytes fails with EOF. What is read is always decodable,
      and it consumes exactly as many bytes as its encoding has. */
  function Decode(s: seq<byte>): (r: Result<Parsed<HeaderFields>>)
    ensures r.Ok? ==> Decodable(r.value.value)
    ensures r.Ok? ==> |s| - |r.value.rest| == EncodedSize(r.value.value)
  {
    var name :- ReadUTF(s);
    var dataCount :- ReadInt(name.rest);
    var isDir :- ReadBoolean(dataCount.rest);
    var childCount :- ReadInt(isDir.rest);
    if childCount.value < 0 then Err(NegativeArraySize)
    else
      var childs :- ReadLongs(childCount.rest, childCount.value);
      var h := HeaderFields(name.value, dataCount.value, isDir.value, childCount.value, childs.value);
      assert Emitted(h) == childs.value;
      Ok(Parsed(h, childs.rest))
  }

  // ---------------------------------------------------------------------
  // Round trip

  lemma {:induction false} ReadBytesOf(x: seq<byte>, t: seq<byte>)
    ensures ReadBytes(x + t, |x|) == Ok(Parsed(x, t))
  {
    assert (x + t)[..|x|] == x;
    assert (x + t)[|x|..] == t;
  }

  lemma {:induction false} ReadUTFOf(name: seq<byte>, t: seq<byte>)
    requires |name| <= MAX_UTF_LENGTH
    ensures ReadUTF(EncodeUInt16(|name|) + name + t) == Ok(Parsed(name, t))
  {
    var u := EncodeUInt16(|name|);
    assert u + name + t == u + (name + t);
    ReadBytesOf(u, name + t);
    UInt16RoundTrip(|name|);
    ReadBytesOf(name, t);
  }

  lemma {:induction false} ReadIntOf(x: int, t: seq<byte>)
    requires IsInt32(x)
    ensures ReadInt(EncodeInt32(x) + t) == Ok(Parsed(x, t))
  {
    ReadBytesOf(EncodeInt32(x), t);
    Int32RoundTrip(x);
  }

  lemma {:induction false} ReadLongOf(x: int, t: seq<byte>)
    requires IsInt64(x)
    ensures ReadLong(EncodeInt64(x) + t) == Ok(Parsed(x, t))
  {
    ReadBytesOf(EncodeInt64(x), t);
    Int64RoundTrip(x);
  }

  lemma {:induction false} ReadBooleanOf(b: bool, t: seq<byte>)
    ensures ReadBoolean(EncodeBoolean(b) + t) == Ok(Parsed(b, t))
  {
    ReadBytesOf(EncodeBoolean(b), t);
  }

  lemma {:induction false} ReadLongsOf(xs: seq<int>, t: seq<byte>)
    requires forall i :: 0 <= i < |xs| ==> IsInt64(xs[i])
    ensures ReadLongs(EncodeLongs(xs) + t, |xs|) == Ok(Parsed(xs, t))
  {
    if xs != [] {
      var init, last := xs[..|xs| - 1], xs[|xs| - 1];
      var mid := EncodeInt64(last) + t;
      var whole := EncodeLongs(xs) + t;
      EncodeLongsSplit(xs, t);
      assert forall i :: 0 <= i < |init| ==> IsInt64(init[i]) by {
        forall i | 0 <= i < |init| ensures IsInt64(init[i]) {
          assert init[i] == xs[i];
        }
      }
      ReadLongsOf(init, mid);
      assert ReadLongs(whole, |xs| - 1) == Ok(Parsed(init, mid));
      ReadLongOf(last, t);
      ReadLongsStep(whole, xs, mid, t);
    } else {
      assert EncodeLongs(xs) + t == t;
    }
  }

  lemma {:induction false} EncodeLongsSplit(xs: seq<int>, t: seq<byte>)
    requires xs != []
    ensures EncodeLongs(xs) + t == EncodeLongs(xs[..|xs| - 1]) + (EncodeInt64(xs[|xs| - 1]) + t)
  {
    Assoc(EncodeLongs(xs[..|xs| - 1]), EncodeInt64(xs[|xs| - 1]), t);
  }

  lemma {:induction false} EncodeLongsSnoc(xs: seq<int>, i: nat)
    requires i < |xs|
    ensures EncodeLongs(xs[..i + 1]) == EncodeLongs(xs[..i]) + EncodeInt64(xs[i])
  {
    assert xs[..i + 1][..i] == xs[..i];
  }

  lemma {:induction false} Assoc<T>(a: seq<T>, b: seq<T>, c: seq<T>)
    ensures a + b + c == a + (b + c)
  {
  }

  lemma {:induction false} ReadLongsStep(s: seq<byte>, xs: seq<int>, mid: seq<byte>, t: seq<byte>)
    requires xs != []
    requires ReadLongs(s, |xs| - 1) == Ok(Parsed(xs[..|xs| - 1], mid))
    requires ReadLong(mid) == Ok(Parsed(xs[|xs| - 1], t))
    ensures ReadLongs(s, |xs|) == Ok(Parsed(xs, t))
  {
    assert xs[..|xs| - 1] + [xs[|xs| - 1]] == xs;
  }

  /** read after write reproduces every encoded field. */
  lemma {:induction false} DecodeEncode(h: HeaderFields, t: seq<byte>)
    requires Decodable(h)
    ensures Encode(h).Ok?
    ensures Decode(Encode(h).value + t) == Ok(Parsed(h, t))
  {
    var u := EncodeUInt16(|h.name|);
    var di := EncodeInt32(h.dataCount);
    var b := EncodeBoolean(h.isDir);
    var ci := EncodeInt32(h.childCount);
    var ls := EncodeLongs(Emitted(h));
    assert Emitted(h) == h.childs;
    var t4 := ls + t;
    var t3 := ci + t4;
    var t2 := b + t3;
    var t1 := di + t2;
    EncodingSplits(u, h.name, di, b, ci, ls, t);
    ReadUTFOf(h.name, t1);
    ReadIntOf(h.dataCount, t2);
    ReadBooleanOf(h.isDir, t3);
    ReadIntOf(h.childCount, t4);
    ReadLongsOf(h.childs, t);
    DecodeSteps(Encode(h).value + t, h, t1, t2, t3, t4, t);
  }

  /** read after write of any header: every scalar field comes back, and
      childs comes back cut to childCount entries. */
  lemma {:induction false} DecodeEncodeStored(h: HeaderFields, t: seq<byte>)
    requires h.childCount <= |h.childs| && Decodable(Stored(h))
    ensures Encode(h).Ok?
    ensures Decode(Encode(h).value + t) == Ok(Parsed(Stored(h), t))
  {
    assert Emitted(Stored(h)) == Emitted(h);
    assert Encode(h) == Encode(Stored(h));
    DecodeEncode(Stored(h), t);
  }

  /** A window that starts with the encoding of h decodes to h as stored. */
  lemma {:induction false} DecodeEncodedPrefix(w: seq<byte>, h: HeaderFields, bytes: seq<byte>, tail: seq<byte>)
    requires h.childCount <= |h.childs| && Decodable(Stored(h))
    requires Encode(h) == Ok(bytes) && w == bytes + tail
    ensures Decode(w) == Ok(Parsed(Stored(h), tail))
  {
    DecodeEncodeStored(h, tail);
  }

  lemma {:induction false} EncodingSplits(u: seq<byte>, n: seq<byte>, di: seq<byte>, b: seq<byte>, ci: seq<byte>,
                       ls: seq<byte>, t: seq<byte>)
    ensures u + n + di + b + ci + ls + t == u + n + (di + (b + (ci + (ls + t))))
  {
  }

  lemma {:induction false} DecodeSteps(s: seq<byte>, h: HeaderFields, t1: seq<byte>, t2: seq<byte>, t3: seq<byte>,
                    t4: seq<byte>, t: seq<byte>)
    requires ReadUTF(s) == Ok(Parsed(h.name, t1))
    requires ReadInt(t1) == Ok(Parsed(h.dataCount, t2))
    requires ReadBoolean(t2) == Ok(Parsed(h.isDir, t3))
    requires ReadInt(t3) == Ok(Parsed(h.childCount, t4))
    requires h.childCount >= 0
    requires ReadLongs(t4, h.childCount) == Ok(Parsed(h.childs, t))
    ensures Decode(s) == Ok(Parsed(h, t))
  {
  }

  lemma {:induction false} ReadBytesExtend(s: seq<byte>, n: nat, t: seq<byte>)
    requires ReadBytes(s, n).Ok?
    ensures ReadBytes(s + t, n) == Ok(Parsed(ReadBytes(s, n).value.value, ReadBytes(s, n).value.rest + t))
  {
    assert (s + t)[..n] == s[..n];
    assert (s + t)[n..] == s[n..] + t;
  }

  lemma {:induction false} ReadLongsExtend(s: seq<byte>, count: nat, t: seq<byte>)
    requires ReadLongs(s, count).Ok?
    ensures ReadLongs(s + t, count) == Ok(Parsed(ReadLongs(s, count).value.value, ReadLongs(s, count).value.rest + t))
  {
    if count > 0 {
      ReadLongsExtend(s, count - 1, t);
      ReadBytesExtend(ReadLongs(s, count - 1).value.rest, 8, t);
    }
  }

  /** Reading is unaffected by what follows the bytes it consumes. */
  lemma {:induction false} DecodeExtend(s: seq<byte>, t: seq<byte>)
    requires Decode(s).Ok?
    ensures Decode(s + t) == Ok(Parsed(Decode(s).value.value, Decode(s).value.rest + t))
  {
    var len := ReadUnsignedShort(s).value;
    ReadBytesExtend(s, 2, t);
    var name := ReadUTF(s).value;
    ReadBytesExtend(len.rest, len.value, t);
    var dataCount := ReadInt(name.rest).value;
    ReadBytesExtend(name.rest, 4, t);
    var isDir := ReadBoolean(dataCount.rest).value;
    ReadBytesExtend(dataCount.rest, 1, t);
    var childCount := ReadInt(isDir.rest).value;
    ReadBytesExtend(isDir.rest, 4, t);
    ReadLongsExtend(childCount.rest, childCount.value, t);
  }

  // ---------------------------------------------------------------------
  // Block allocation, as the data constructor computes it

  /** Offsets of `n` contiguous 64-byte blocks starting at `dataPointer`. */
  function Blocks(dataPointer: int, n: nat): (r: seq<int>)
    ensures |r| == n
    ensures forall i :: 0 <= i < n ==> r[i] == dataPointer + DATA_ENTRY_LENGTH * i
  {
    if n == 0 then [] else Blocks(dataPointer, n - 1) + [dataPointer + DATA_ENTRY_LENGTH * (n - 1)]
  }

  /** The fields RecordHeader(name, isDir, dataPointer, dataLength) sets.
      A file gets dataLength/64 + 1 contiguous blocks from dataPointer (so an
      exact multiple of 64, including 0, gets one block more than it needs);
      a directory keeps childCount 0, with the single placeholder child
      dataPointer that is never written out. */
  function Allocation(name: seq<byte>, isDir: bool, dataPointer: int, dataLength: nat): (h: HeaderFields)
    ensures h.name == name && h.isDir == isDir && h.dataCount == 0
    ensures h.childCount <= |h.childs|
    ensures isDir ==> h.childCount == 0 && h.childs == [dataPointer]
    ensures !isDir ==> h.childCount == |h.childs| &&
                       (h.childCount - 1) * DATA_ENTRY_LENGTH <= dataLength < h.childCount * DATA_ENTRY_LENGTH
    ensures !isDir ==> forall i :: 0 <= i < h.childCount ==> h.childs[i] == dataPointer + DATA_ENTRY_LENGTH * i
  {
    if isDir then HeaderFields(name, 0, true, 0, [dataPointer])
    else
      var n := dataLength / DATA_ENTRY_LENGTH + 1;
      HeaderFields(name, 0, false, n, Blocks(dataPointer, n))
  }

  /** The blocks of a file entry are pairwise disjoint and in increasing order. */
  lemma {:induction false} AllocationBlocksDisjoint(name: seq<byte>, dataPointer: int, dataLength: nat)
    ensures var h := Allocation(name, false, dataPointer, dataLength);
            forall i, j :: 0 <= i < j < h.childCount ==> h.childs[i] + DATA_ENTRY_LENGTH <= h.childs[j]
  {
  }

  // ---------------------------------------------------------------------
  // The in-memory header object

  class RecordHeader {
    var name: seq<byte>
    var dataCount: int
    var indexPosition: int
    var isDir: bool
    var childCount: int
    var childs: seq<int>

    /** The fields the encoding carries (all but indexPosition). */
    function Fields(): HeaderFields
      reads this
    {
      HeaderFields(name, dataCount, isDir, childCount, childs)
    }

    /** Every header the constructors and read produce has at least
        childCount children, so write never indexes past childs. */
    predicate Valid()
      reads this
    {
      childCount <= |childs|
    }

    /** RecordHeader(): the blank header that read then fills. */
    constructor Empty()
      ensures Valid() && indexPosition == 0
      ensures Fields() == HeaderFields([], 0, false, 0, [])
    {
      name, dataCount, indexPosition, isDir, childCount, childs := [], 0, 0, false, 0, [];
    }

    /** RecordHeader(name, isDir, dataPointer, dataLength). */
    constructor (name: seq<byte>, isDir: bool, dataPointer: int, dataLength: int)
      requires 0 <= dataLength < TWO_31
      ensures Valid() && indexPosition == 0
      ensures Fields() == Allocation(name, isDir, dataPointer, dataLength)
    {
      this.name := name;
      this.isDir := isDir;
      this.indexPosition := 0;
      if isDir {
        this.childCount := 0;
        this.childs := [dataPointer];
      } else {
        var n := dataLength / DATA_ENTRY_LENGTH + 1;
        this.childCount := n;
        var cs: seq<int> := [];
        for i := 0 to n
          invariant cs == Blocks(dataPointer, i)
        {
          cs := cs + [dataPointer + DATA_ENTRY_LENGTH * i];
        }
        this.childs := cs;
      }
      this.dataCount := 0;
    }

    method GetIndexPosition() returns (p: int)
      ensures p == indexPosition
    {
      p := indexPosition;
    }

    /** Changes the position only; the encoded fields stay as they were. */
    method SetIndexPosition(p: int)
      modifies this`indexPosition
      ensures indexPosition == p
      ensures Fields() == old(Fields())
    {
      indexPosition := p;
    }

    /** read(in): reassigns every encoded field from the stream `s` and
        returns what follows the header in it. */
    method Read(s: seq<byte>) returns (r: Result<seq<byte>>)
      modifies this`name, this`dataCount, this`isDir, this`childCount, this`childs
      ensures Decode(s).Ok? ==> r == Ok(Decode(s).value.rest) && Fields() == Decode(s).value.value && Valid()
      ensures Decode(s).Err? ==> r == Err(Decode(s).error)
    {
      var n := ReadUTF(s);
      if n.Err? { return Err(n.error); }
      name := n.value.value;
      var d := ReadInt(n.value.rest);
      if d.Err? { return Err(d.error); }
      dataCount := d.value.value;
      var b := ReadBoolean(d.value.rest);
      if b.Err? { return Err(b.error); }
      isDir := b.value.value;
      var c := ReadInt(b.value.rest);
      if c.Err? { return Err(c.error); }
      childCount := c.value.value;
      if childCount < 0 { return Err(NegativeArraySize); }
      var cs := ReadChilds(c.value.rest, childCount);
      if cs.Err? { return Err(cs.error); }
      childs := cs.value.value;
      r := Ok(cs.value.rest);
    }

    /** The loop of read(in): childCount readLong calls in a row. */
    static method ReadChilds(s: seq<byte>, count: nat) returns (r: Result<Parsed<seq<int>>>)
      ensures r == ReadLongs(s, count)
    {
      var cs: seq<int> := [];
      var rest := s;
      var i := 0;
      while i < count
        invariant 0 <= i <= count
        invariant ReadLongs(s, i) == Ok(Parsed(cs, rest))
      {
        var x := ReadLong(rest);
        if x.Err? {
          assert ReadLongs(s, count).Err?;
          return Err(EndOfFile);
        }
        cs := cs + [x.value.value];
        rest := x.value.rest;
        i := i + 1;
      }
      r := Ok(Parsed(cs, rest));
    }

    /** write(out): the bytes emitted, or the error writeUTF raises. */
    method Write() returns (r: Result<seq<byte>>)
      requires Valid()
      ensures r == Encode(Fields())
    {
      if |name| > MAX_UTF_LENGTH { return Err(UtfDataFormat); }
      var cs, cc := childs, childCount;
      var out := EncodeUInt16(|name|) + name + EncodeInt32(dataCount) + EncodeBoolean(isDir) +
                 EncodeInt32(cc);
      ghost var fixed := out;
      var i := 0;
      while i < cc
        invariant 0 <= i <= |cs|
        invariant cc > 0 ==> i <= cc
        invariant cc <= 0 ==> i == 0
        invariant out == fixed + EncodeLongs(cs[..i])
      {
        EncodeLongsSnoc(cs, i);
        Assoc(fixed, EncodeLongs(cs[..i]), EncodeInt64(cs[i]));
        out := out + EncodeInt64(cs[i]);
        i := i + 1;
      }
      assert cs[..i] == Emitted(Fields());
      r := Ok(out);
    }
  }
}
