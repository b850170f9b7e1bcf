/** Byte-level helpers shared by the record codec and the key comparator. */
module Bytes {
  import opened Wrappers

  /** An unsigned byte, the value `b & 0xFF` the Java code reads back. */
  type uint8 = x: int | 0 <= x < 256

  const TWO_16: int := 0x1_0000
  const TWO_31: int := 0x8000_0000
  const TWO_32: int := 0x1_0000_0000

  predicate IsInt32(n: int) { -TWO_31 <= n < TWO_31 }

  /** Java's `(int)` narrowing of an arbitrary integer: two's-complement wrap-around. */
  function Wrap32(n: int): (r: int)
    ensures IsInt32(r)
    ensures (r - n) % TWO_32 == 0
    ensures IsInt32(n) ==> r == n
  {
    var m := n % TWO_32;
    if m < TWO_31 then m else m - TWO_32
  }

  /** `(byte) v` followed by `& 0xFF`: the low eight bits. Dafny's `%` is Euclidean, so
      this is right for negative `v` as well. */
  function LowByte(v: int): uint8 { v % 256 }

  /** The two bytes `(byte)(v >> 8), (byte) v` written by the 16-bit setters. Java's
      `>>` on a positive divisor agrees with Dafny's Euclidean `/`. */
  function EncodeU16(v: int): (r: seq<uint8>)
    ensures |r| == 2
  {
    [LowByte(v / 256), LowByte(v)]
  }

  /** `((b[0] & 0xFF) << 8) + (b[1] & 0xFF)`. */
  function DecodeU16(hi: uint8, lo: uint8): (r: int)
    ensures 0 <= r < TWO_16
  {
    hi as int * 256 + lo
  }

  lemma U16RoundTrip(v: int)
    ensures DecodeU16(EncodeU16(v)[0], EncodeU16(v)[1]) == v % TWO_16
    ensures 0 <= v < TWO_16 ==> DecodeU16(EncodeU16(v)[0], EncodeU16(v)[1]) == v
  {
    var q := v / 256;
    assert v == q * 256 + v % 256;
    assert q == (q / 256) * 256 + q % 256;
    assert v == (q / 256) * TWO_16 + (q % 256) * 256 + v % 256;
  }

  /** `ByteBuffer.putInt`: four big-endian bytes of a 32-bit int. */
  function EncodeInt32(n: int): (r: seq<uint8>)
    ensures |r| == 4
  {
    var u := n % TWO_32;
    var q1 := u / 256;
    var q2 := q1 / 256;
    var q3 := q2 / 256;
    [q3 % 256, q2 % 256, q1 % 256, u % 256]
  }

  /** The unsigned value of four big-endian bytes. */
  function Unsigned32(b: seq<uint8>): (u: int)
    requires |b| == 4
  {
    ((b[0] as int * 256 + b[1]) * 256 + b[2]) * 256 + b[3]
  }

  /** `ByteBuffer.getInt` on four bytes: big-endian two's complement. */
  function DecodeInt32(b: seq<uint8>): (r: int)
    requires |b| == 4
    ensures IsInt32(r)
  {
    Unsigned32Bounds(b);
    var u := Unsigned32(b);
    if u < TWO_31 then u else u - TWO_32
  }

  lemma Unsigned32Bounds(b: seq<uint8>)
    requires |b| == 4
    ensures 0 <= Unsigned32(b) < TWO_32
  {
    var x := b[0] as int * 256 + b[1];
    assert 0 <= x < 0x1_0000;
    var y := x * 256 + b[2];
    assert 0 <= y < 0x100_0000;
  }

  /** One step of base-256 digit extraction. */
  lemma DivModStep(x: int, d: int)
    requires 0 <= d < 256
    ensures (x * 256 + d) / 256 == x && (x * 256 + d) % 256 == d
  {
  }

  lemma {:induction false} Int32RoundTrip(n: int)
    requires IsInt32(n)
    ensures DecodeInt32(EncodeInt32(n)) == n
  {
    var u := n % TWO_32;
    var q1 := u / 256;
    var q2 := q1 / 256;
    var q3 := q2 / 256;
    assert u == q1 * 256 + u % 256;
    assert q1 == q2 * 256 + q1 % 256;
    assert q2 == q3 * 256 + q2 % 256;
    assert q1 < 0x100_0000;
    assert q2 < 0x1_0000;
    assert q3 < 256;
    assert Unsigned32(EncodeInt32(n)) == u;
  }

  lemma {:induction false} EncodeDecodeInt32(b: seq<uint8>)
    requires |b| == 4
    ensures EncodeInt32(DecodeInt32(b)) == b
  {
    Unsigned32Bounds(b);
    var u := Unsigned32(b);
    var x := b[0] as int * 256 + b[1];
    var y := x * 256 + b[2];
    assert DecodeInt32(b) % TWO_32 == u;
    DivModStep(y, b[3]);
    DivModStep(x, b[2]);
    DivModStep(b[0] as int, b[1]);
    var e := EncodeInt32(DecodeInt32(b));
    assert e[3] == b[3] && e[2] == b[2] && e[1] == b[1];
    assert e[0] == b[0];
  }

  /** Distinct four-byte images decode to distinct ints. */
  lemma DecodeInt32Injective(a: seq<uint8>, b: seq<uint8>)
    requires |a| == 4 && |b| == 4
    requires DecodeInt32(a) == DecodeInt32(b)
    ensures a == b
  {
    EncodeDecodeInt32(a);
    EncodeDecodeInt32(b);
  }

  /** `System.arraycopy(src, 0, dst, at, |src|)`; `None` when the copy would run past `dst`. */
  function CopyInto(dst: seq<uint8>, at: int, src: seq<uint8>): (r: Option<seq<uint8>>)
    ensures r.Some? <==> 0 <= at && at + |src| <= |dst|
    ensures r.Some? ==> |r.value| == |dst|
    ensures r.Some? ==> r.value[at..at + |src|] == src
    ensures r.Some? ==> r.value[..at] == dst[..at] && r.value[at + |src|..] == dst[at + |src|..]
  {
    if 0 <= at && at + |src| <= |dst| then
      Some(dst[..at] + src + dst[at + |src|..])
    else None
  }


  /** The bytes below the copied range are left alone. */
  lemma CopyIntoKeepsBelow(dst: seq<uint8>, at: int, src: seq<uint8>, lo: int, hi: int)
    requires CopyInto(dst, at, src).Some? && 0 <= lo <= hi <= at
    ensures CopyInto(dst, at, src).value[lo..hi] == dst[lo..hi]
  {
    var r := CopyInto(dst, at, src).value;
    assert r[lo..hi] == r[..at][lo..hi];
    assert dst[lo..hi] == dst[..at][lo..hi];
  }

  /** `n` zero bytes, a freshly allocated Java byte array. */
  function Zeros(n: nat): (r: seq<uint8>)
    ensures |r| == n
    ensures forall i :: 0 <= i < n ==> r[i] == 0
  {
    seq(n, i => 0)
  }
}
