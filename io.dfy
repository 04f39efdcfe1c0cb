/** The database file as a byte buffer with a length, and the positioned
    operations of java.io.RandomAccessFile that the engine uses: seek then
    write, seek then read, and setLength. */
module Io {
  import opened Bytes

  /** The exceptions the engine's operations can end with. */
  datatype IoError =
    | EndOfFile            // EOFException from a read past the end
    | NegativeSeekOffset   // IOException from seek(pos) with pos < 0
    | NegativeLength       // IOException from setLength(len) with len < 0
    | NegativeArraySize    // NegativeArraySizeException from new T[n], n < 0
    | IndexOutOfBounds     // IndexOutOfBoundsException from write/readFully(b, off, len)
    | UtfDataFormat        // UTFDataFormatException: writeUTF of a name over 65535 bytes
    | KeyExists(key: seq<byte>) // IOException("Key exists: " + key) from insertRecord

  datatype Result<T> = Ok(value: T) | Err(error: IoError) {
    predicate IsFailure() { Err? }
    function PropagateFailure<U>(): Result<U>
      requires Err?
    {
      Err(error)
    }
    function Extract(): T
      requires Ok?
    {
      value
    }
  }

  datatype Option<T> = None | Some(value: T)

  /** The byte at `i` of `f`, where bytes past the end read as the zero fill
      that a write or setLength beyond the end leaves. */
  function ByteAt(f: seq<byte>, i: nat): byte
  {
    if i < |f| then f[i] else 0
  }

  /** seek(off); write(data): the bytes at [off, off+|data|) become `data`;
      a write reaching past the end extends the file. A write of no bytes
      leaves the file as it is. */
  function Overwrite(f: seq<byte>, off: nat, data: seq<byte>): (r: seq<byte>)
    ensures data == [] ==> r == f
    ensures data != [] ==> |r| == if off + |data| <= |f| then |f| else off + |data|
  {
    if data == [] then f
    else
      var head := if off <= |f| then f[..off] else f + Zeros(off - |f|);
      var tail := if off + |data| < |f| then f[off + |data|..] else [];
      head + data + tail
  }

  /** setLength(n) for n >= 0: truncate, or extend with zero bytes. */
  function Resize(f: seq<byte>, n: nat): (r: seq<byte>)
    ensures |r| == n
    ensures forall i :: 0 <= i < n ==> r[i] == ByteAt(f, i)
  {
    if n <= |f| then f[..n] else f + Zeros(n - |f|)
  }

  /** The bytes a stream positioned at `off` reads before it reaches the end. */
  function From(f: seq<byte>, off: nat): (r: seq<byte>)
    ensures off <= |f| ==> r == f[off..]
    ensures off >= |f| ==> r == []
  {
    if off <= |f| then f[off..] else []
  }

  /** Each byte of a write: inside the written range it is the data, outside
      it is the old byte (or the zero fill). */
  lemma {:induction false} OverwriteAt(f: seq<byte>, off: nat, data: seq<byte>)
    ensures var r := Overwrite(f, off, data);
            forall i :: 0 <= i < |r| ==> r[i] == if off <= i < off + |data| then data[i - off] else ByteAt(f, i)
  {
  }

  /** Writing a block that lies inside the file reads back as that block. */
  lemma {:induction false} OverwriteReadBack(f: seq<byte>, off: nat, data: seq<byte>)
    requires off + |data| <= |f|
    ensures |Overwrite(f, off, data)| == |f|
    ensures Overwrite(f, off, data)[off..off + |data|] == data
  {
    OverwriteAt(f, off, data);
  }

  /** Two adjacent writes are one write of the concatenation. */
  lemma {:induction false} OverwriteAdjacent(f: seq<byte>, off: nat, a: seq<byte>, b: seq<byte>)
    requires off + |a| <= |f|
    ensures Overwrite(Overwrite(f, off, a), off + |a|, b) == Overwrite(f, off, a + b)
  {
    var l := Overwrite(Overwrite(f, off, a), off + |a|, b);
    var r := Overwrite(f, off, a + b);
    if b == [] {
      assert a + b == a;
    } else if a == [] {
      assert a + b == b;
    } else {
      assert |l| == |r|;
      OverwriteAt(f, off, a);
      OverwriteAt(Overwrite(f, off, a), off + |a|, b);
      OverwriteAt(f, off, a + b);
      forall i | 0 <= i < |l| ensures l[i] == r[i] {
      }
    }
  }
}
