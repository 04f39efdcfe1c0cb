/** Big-endian integer encodings, as written by java.io.DataOutput and read
    back by java.io.DataInput (writeShort/readUnsignedShort, writeInt/readInt,
    writeLong/readLong), and Java's 32-bit wrap-around arithmetic. */
module Bytes {

  type byte = x: int | 0 <= x < 256

  const TWO_31: int := 0x8000_0000
  const TWO_32: int := 0x1_0000_0000
  const TWO_63: int := 0x8000_0000_0000_0000

  /** A Java `int` value. */
  predicate IsInt32(x: int) { -TWO_31 <= x < TWO_31 }

  /** A Java `long` value. */
  predicate IsInt64(x: int) { -TWO_63 <= x < TWO_63 }

  function Pow256(n: nat): (r: int)
    ensures r >= 1
  {
    if n == 0 then 1 else 256 * Pow256(n - 1)
  }

  /** Java `int` arithmetic: the result of an int-typed expression whose exact
      value is `x`. */
  function Wrap32(x: int): (r: int)
    ensures IsInt32(r)
    ensures IsInt32(x) ==> r == x
    ensures (x - r) % TWO_32 == 0
  {
    if IsInt32(x) then x else (x + TWO_31) % TWO_32 - TWO_31
  }

  function Zeros(n: nat): (r: seq<byte>)
    ensures |r| == n
    ensures forall i :: 0 <= i < n ==> r[i] == 0
  {
    if n == 0 then [] else Zeros(n - 1) + [0]
  }

  /** The low `n` bytes of `v`, most significant first (two's complement for
      negative `v`, since `/` and `%` are Euclidean). */
  function ToBE(v: int, n: nat): (r: seq<byte>)
    ensures |r| == n
    decreases n, v
  {
    if n == 0 then [] else ToBE(v / 256, n - 1) + [v % 256]
  }

  /** The unsigned value of a big-endian byte string. */
  function FromBE(s: seq<byte>): (r: nat)
    ensures r < Pow256(|s|)
  {
    if s == [] then 0
    else
      var hi := FromBE(s[..|s| - 1]);
      assert hi <= Pow256(|s| - 1) - 1;
      assert hi * 256 <= Pow256(|s|) - 256;
      hi * 256 + s[|s| - 1]
  }

  /** The signed value of a big-endian two's-complement byte string. */
  function FromBESigned(s: seq<byte>): (r: int)
    requires |s| > 0
    ensures -(Pow256(|s|) / 2) <= r < Pow256(|s|) / 2
  {
    var u := FromBE(s);
    var q := Pow256(|s| - 1);
    assert Pow256(|s|) == 2 * (128 * q);
    if u >= Pow256(|s|) / 2 then u - Pow256(|s|) else u
  }

  /** DataOutput.writeInt */
  function EncodeInt32(x: int): (r: seq<byte>)
    ensures |r| == 4
  {
    ToBE(x, 4)
  }
  /** DataOutput.writeLong */
  function EncodeInt64(x: int): (r: seq<byte>)
    ensures |r| == 8
  {
    ToBE(x, 8)
  }
  /** DataOutput.writeShort, as writeUTF uses it for the length prefix */
  function EncodeUInt16(x: int): (r: seq<byte>)
    ensures |r| == 2
  {
    ToBE(x, 2)
  }

  lemma {:induction false} FromToBE(v: int, n: nat)
    requires 0 <= v < Pow256(n)
    ensures FromBE(ToBE(v, n)) == v
  {
    if n > 0 {
      var s := ToBE(v, n);
      var q, r := v / 256, v % 256;
      assert v == q * 256 + r;
      assert q < Pow256(n - 1);
      assert s[..n - 1] == ToBE(q, n - 1);
      assert s[n - 1] == r;
      FromToBE(q, n - 1);
    }
  }

  /** Adding a multiple of 256^n does not change the low n bytes. */
  lemma {:induction false} ToBEShift(v: int, n: nat)
    ensures ToBE(v + Pow256(n), n) == ToBE(v, n)
    decreases n
  {
    if n > 0 {
      var p := Pow256(n - 1);
      assert (v + 256 * p) / 256 == v / 256 + p;
      assert (v + 256 * p) % 256 == v % 256;
      ToBEShift(v / 256, n - 1);
    }
  }

  lemma {:induction false} SignedRoundTrip(v: int, n: nat)
    requires n > 0
    requires -(Pow256(n) / 2) <= v < Pow256(n) / 2
    ensures FromBESigned(ToBE(v, n)) == v
  {
    var p := Pow256(n);
    assert p == 256 * Pow256(n - 1);
    if v >= 0 {
      FromToBE(v, n);
    } else {
      ToBEShift(v, n);
      FromToBE(v + p, n);
    }
  }

  lemma {:induction false} Pow256Values()
    ensures Pow256(2) == 0x1_0000
    ensures Pow256(4) == TWO_32
    ensures Pow256(8) == 2 * TWO_63
  {
  }

  /** readInt(writeInt(x)) == x for every Java int. */
  lemma {:induction false} Int32RoundTrip(x: int)
    requires IsInt32(x)
    ensures FromBESigned(EncodeInt32(x)) == x
  {
    Pow256Values();
    SignedRoundTrip(x, 4);
  }

  /** readLong(writeLong(x)) == x for every Java long. */
  lemma {:induction false} Int64RoundTrip(x: int)
    requires IsInt64(x)
    ensures FromBESigned(EncodeInt64(x)) == x
  {
    Pow256Values();
    SignedRoundTrip(x, 8);
  }

  /** readUnsignedShort(writeShort(x)) == x for 0 <= x < 65536. */
  lemma {:induction false} UInt16RoundTrip(x: int)
    requires 0 <= x < 0x1_0000
    ensures FromBE(EncodeUInt16(x)) == x
  {
    Pow256Values();
    FromToBE(x, 2);
  }
}
