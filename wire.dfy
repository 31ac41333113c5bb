/**
 * Byte-level helpers the outpoint codec relies on: byte strings, Java's
 * integer widths, byte reversal and the little-endian uint32 layout.
 */
module Wire {

  /** One octet of a serialized message. */
  type Byte = b: int | 0 <= b < 256

  const TWO_32: int := 0x1_0000_0000

  /** The values of a Java `long`. */
  type Int64 = x: int | -0x8000_0000_0000_0000 <= x < 0x8000_0000_0000_0000

  predicate IsUint32(x: int) {
    0 <= x < TWO_32
  }

  /** Java's narrowing cast `(int) x` of a long: keep the low 32 bits, read them as signed. */
  function ToInt32(x: int): (r: int)
    ensures -0x8000_0000 <= r < 0x8000_0000
    ensures (r - x) % TWO_32 == 0
    ensures 0 <= x < 0x8000_0000 ==> r == x
  {
    var low := x % TWO_32;
    if low < 0x8000_0000 then low else low - TWO_32
  }

  /** The bytes of `s` in the opposite order. */
  function Reverse(s: seq<Byte>): (r: seq<Byte>)
    ensures |r| == |s|
  {
    if s == [] then [] else [s[|s| - 1]] + Reverse(s[..|s| - 1])
  }

  /** Position k of the reversal holds the k-th byte from the end. */
  lemma {:induction false} ReverseAt(s: seq<Byte>, k: int)
    requires 0 <= k < |s|
    ensures Reverse(s)[k] == s[|s| - 1 - k]
  {
    if k > 0 {
      ReverseAt(s[..|s| - 1], k - 1);
    }
  }

  lemma ReverseReverse(s: seq<Byte>)
    ensures Reverse(Reverse(s)) == s
  {
    var r := Reverse(Reverse(s));
    forall k | 0 <= k < |s| ensures r[k] == s[k] {
      ReverseAt(Reverse(s), k);
      ReverseAt(s, |s| - 1 - k);
    }
  }

  /**
   * The four bytes written for a long `v` by the little-endian uint32
   * writer: byte k is `0xFF & (v >> 8k)`. An arithmetic right shift is a
   * floor division and masking with 0xFF is a non-negative remainder, which
   * is what `/` and `%` by a positive constant are in Dafny.
   */
  function Uint32ToBytesLE(v: int): (r: seq<Byte>)
    ensures |r| == 4
  {
    [v % 0x100, (v / 0x100) % 0x100, (v / 0x1_0000) % 0x100, (v / 0x100_0000) % 0x100]
  }

  /** The unsigned little-endian value of four bytes, as the uint32 reader computes it. */
  function Uint32FromBytesLE(b: seq<Byte>): (v: int)
    requires |b| == 4
    ensures IsUint32(v)
  {
    b[0] as int + 0x100 * b[1] as int + 0x1_0000 * b[2] as int + 0x100_0000 * b[3] as int
  }

  /** Dividing a value by 256 twice is dividing it by 65536 once. */
  lemma DivByteTwice(x: int)
    ensures (x / 0x100) / 0x100 == x / 0x1_0000
  {
    var q := x / 0x100;
    assert x == 0x100 * q + x % 0x100;
    assert q == 0x100 * (q / 0x100) + q % 0x100;
    assert x == 0x1_0000 * (q / 0x100) + (0x100 * (q % 0x100) + x % 0x100);
  }

  /** Dividing a value by 65536 and then by 256 is dividing it by 2^24 once. */
  lemma DivWordThenByte(x: int)
    ensures (x / 0x1_0000) / 0x100 == x / 0x100_0000
  {
    var q := x / 0x1_0000;
    assert x == 0x1_0000 * q + x % 0x1_0000;
    assert q == 0x100 * (q / 0x100) + q % 0x100;
    assert x == 0x100_0000 * (q / 0x100) + (0x1_0000 * (q % 0x100) + x % 0x1_0000);
  }

  /** The remainder modulo 2^32 of a value written as quotient and remainder. */
  lemma ModTwo32(x: int, k: int, r: int)
    requires x == TWO_32 * k + r && 0 <= r < TWO_32
    ensures x % TWO_32 == r
  {
  }

  /** Encoding then decoding a long gives back its low 32 bits, read unsigned. */
  lemma Uint32RoundTrip(v: int)
    ensures Uint32FromBytesLE(Uint32ToBytesLE(v)) == v % TWO_32
  {
    var q1 := v / 0x100;
    var q2 := q1 / 0x100;
    var q3 := q2 / 0x100;
    DivByteTwice(v);
    DivWordThenByte(v);
    assert v / 0x1_0000 == q2;
    assert v / 0x100_0000 == q3;
    var b0, b1, b2, b3 := v % 0x100, q1 % 0x100, q2 % 0x100, q3 % 0x100;
    assert Uint32ToBytesLE(v) == [b0, b1, b2, b3];
    assert v == 0x100 * q1 + b0;
    assert q1 == 0x100 * q2 + b1;
    assert q2 == 0x100 * q3 + b2;
    assert q3 == 0x100 * (q3 / 0x100) + b3;
    var low := b0 + 0x100 * b1 + 0x1_0000 * b2 + 0x100_0000 * b3;
    assert v == TWO_32 * (q3 / 0x100) + low;
    ModTwo32(v, q3 / 0x100, low);
  }

  /** Every four bytes are the encoding of the value they decode to. */
  lemma Uint32BytesRoundTrip(b: seq<Byte>)
    requires |b| == 4
    ensures Uint32ToBytesLE(Uint32FromBytesLE(b)) == b
  {
    var v := Uint32FromBytesLE(b);
    var u := b[2] as int + 0x100 * b[3] as int;
    var t := b[1] as int + 0x100 * u;
    assert v == b[0] as int + 0x100 * t;
    assert v % 0x100 == b[0] && v / 0x100 == t;
    assert t % 0x100 == b[1] && t / 0x100 == u;
    assert u % 0x100 == b[2] && u / 0x100 == b[3];
    DivByteTwice(v);
    DivByteTwice(t);
    assert v / 0x1_0000 == u;
    assert v / 0x100_0000 == b[3] by {
      assert v == 0x100_0000 * b[3] as int + (0x1_0000 * b[2] as int + 0x100 * b[1] as int + b[0] as int);
    }
  }
}
