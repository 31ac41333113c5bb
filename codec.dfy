/**
 * The 36-byte wire form of a transaction outpoint: the referenced
 * transaction's 32-byte hash with its bytes reversed, then the output index
 * as an unsigned little-endian 32-bit integer.
 */
module OutPointCodec {
  import opened Wire
  import opened Results

  const HASH_LENGTH: nat := 32
  const UINT32_LENGTH: nat := 4
  /** The fixed serialized size of an outpoint. */
  const MESSAGE_LENGTH: nat := 36

  /** A transaction id: a SHA-256 digest, kept in its canonical (display) byte order. */
  type Sha256Hash = s: seq<Byte> | |s| == 32 witness seq(32, _ => 0)

  /** The all-zero hash, used for the outpoint of a coinbase input. */
  const ZERO_HASH: Sha256Hash := seq(32, _ => 0)

  /** The identity of an outpoint: which transaction, and which of its outputs. */
  datatype OutPoint = OutPoint(hash: Sha256Hash, index: Int64)

  /** The bytes the serializer writes for an outpoint. */
  function Encode(p: OutPoint): (r: seq<Byte>)
    ensures |r| == MESSAGE_LENGTH
  {
    Reverse(p.hash) + Uint32ToBytesLE(p.index)
  }

  /** Reading a hash at `at`: 32 bytes, reversed back into canonical order. */
  function DecodeHash(buf: seq<Byte>, at: int): (r: Result<Sha256Hash>)
    ensures r.Success? <==> 0 <= at && at + HASH_LENGTH <= |buf|
    ensures r.Failure? ==> r.error == ProtocolError
    ensures r.Success? ==> Reverse(r.value) == buf[at..at + HASH_LENGTH]
  {
    if 0 <= at && at + HASH_LENGTH <= |buf| then
      var h := Reverse(buf[at..at + HASH_LENGTH]);
      ReverseReverse(buf[at..at + HASH_LENGTH]);
      Success(h)
    else
      Failure(ProtocolError)
  }

  /** Reading an unsigned little-endian 32-bit integer at `at`. */
  function DecodeUint32(buf: seq<Byte>, at: int): (r: Result<Int64>)
    ensures r.Success? <==> 0 <= at && at + UINT32_LENGTH <= |buf|
    ensures r.Failure? ==> r.error == ProtocolError
    ensures r.Success? ==> IsUint32(r.value) && Uint32ToBytesLE(r.value) == buf[at..at + UINT32_LENGTH]
  {
    if 0 <= at && at + UINT32_LENGTH <= |buf| then
      Uint32BytesRoundTrip(buf[at..at + UINT32_LENGTH]);
      Success(Uint32FromBytesLE(buf[at..at + UINT32_LENGTH]))
    else
      Failure(ProtocolError)
  }

  /** Parsing an outpoint at `offset`: the hash, then the index. */
  function Decode(buf: seq<Byte>, offset: int): (r: Result<OutPoint>)
    ensures r.Success? <==> 0 <= offset && offset + MESSAGE_LENGTH <= |buf|
    ensures r.Failure? ==> r.error == ProtocolError
    ensures r.Success? ==> IsUint32(r.value.index) && Encode(r.value) == buf[offset..offset + MESSAGE_LENGTH]
  {
    match DecodeHash(buf, offset)
    case Failure(e) => Failure(e)
    case Success(h) =>
      match DecodeUint32(buf, offset + HASH_LENGTH)
      case Failure(e) => Failure(e)
      case Success(i) =>
        assert buf[offset..offset + MESSAGE_LENGTH]
            == buf[offset..offset + HASH_LENGTH] + buf[offset + HASH_LENGTH..offset + MESSAGE_LENGTH];
        Success(OutPoint(h, i))
  }

  /** The layout, byte by byte: reversed hash at 0..31, index little-endian at 32..35. */
  lemma EncodeLayout(p: OutPoint)
    ensures forall k :: 0 <= k < HASH_LENGTH ==> Encode(p)[k] == p.hash[HASH_LENGTH - 1 - k]
    ensures Encode(p)[32] == p.index % 0x100
    ensures Encode(p)[33] == (p.index / 0x100) % 0x100
    ensures Encode(p)[34] == (p.index / 0x1_0000) % 0x100
    ensures Encode(p)[35] == (p.index / 0x100_0000) % 0x100
  {
    forall k | 0 <= k < HASH_LENGTH ensures Encode(p)[k] == p.hash[HASH_LENGTH - 1 - k] {
      ReverseAt(p.hash, k);
    }
  }

  /**
   * Decoding the encoding of an outpoint, wherever it sits in a buffer,
   * gives back its hash and the low 32 bits of its index.
   */
  lemma DecodeEncode(p: OutPoint, before: seq<Byte>, after: seq<Byte>)
    ensures Decode(before + Encode(p) + after, |before|) == Success(OutPoint(p.hash, p.index % TWO_32))
  {
    var buf := before + Encode(p) + after;
    var n := |before|;
    assert buf[n..n + HASH_LENGTH] == Reverse(p.hash);
    assert buf[n + HASH_LENGTH..n + MESSAGE_LENGTH] == Uint32ToBytesLE(p.index);
    ReverseReverse(p.hash);
    Uint32RoundTrip(p.index);
  }

  /** For an index in the uint32 range the round trip is exact. */
  lemma DecodeEncodeExact(p: OutPoint, before: seq<Byte>, after: seq<Byte>)
    requires IsUint32(p.index)
    ensures Decode(before + Encode(p) + after, |before|) == Success(p)
  {
    DecodeEncode(p, before, after);
    ModTwo32(p.index, 0, p.index);
    assert OutPoint(p.hash, p.index % TWO_32) == p;
  }

  /** Two outpoints with uint32 indexes are equal exactly when their encodings are. */
  lemma EncodeInjective(p: OutPoint, q: OutPoint)
    requires IsUint32(p.index) && IsUint32(q.index)
    ensures Encode(p) == Encode(q) <==> p == q
  {
    if Encode(p) == Encode(q) {
      DecodeEncodeExact(p, [], []);
      DecodeEncodeExact(q, [], []);
      assert [] + Encode(p) + [] == Encode(q);
    }
  }

  /** The coinbase reference: the zero hash and index 0 is 36 zero bytes, and decodes back. */
  lemma ZeroOutPoint()
    ensures Encode(OutPoint(ZERO_HASH, 0)) == seq(MESSAGE_LENGTH, _ => 0)
    ensures Decode(seq(MESSAGE_LENGTH, _ => 0), 0) == Success(OutPoint(ZERO_HASH, 0))
  {
    var z := seq(MESSAGE_LENGTH, _ => 0);
    forall k | 0 <= k < HASH_LENGTH ensures Reverse(ZERO_HASH)[k] == 0 {
      ReverseAt(ZERO_HASH, k);
    }
    assert Encode(OutPoint(ZERO_HASH, 0)) == z;
    DecodeEncodeExact(OutPoint(ZERO_HASH, 0), [], []);
    assert [] + Encode(OutPoint(ZERO_HASH, 0)) + [] == z;
  }
}
