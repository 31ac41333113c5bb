/**
 * The mutable outpoint object: its fields, the field-setting constructors,
 * parsing through the message cursor (eagerly or on first field access),
 * serialization into an output stream, the accessors and identity.
 */
module OutPoints {
  import opened Wire
  import opened Results
  import opened OutPointCodec
  import opened Connection

  /** An output stream, seen as the bytes written to it so far. */
  class ByteStream {
    var written: seq<Byte>

    constructor ()
      ensures written == []
    {
      written := [];
    }

    method Write(bytes: seq<Byte>)
      modifies this
      ensures written == old(written) + bytes
    {
      written := written + bytes;
    }
  }

  /** Writes the low 32 bits of `v` little-endian, one byte per write. */
  method Uint32ToByteStreamLE(v: Int64, stream: ByteStream)
    modifies stream
    ensures stream.written == old(stream.written) + Uint32ToBytesLE(v)
  {
    stream.Write([v % 0x100]);
    stream.Write([(v / 0x100) % 0x100]);
    stream.Write([(v / 0x1_0000) % 0x100]);
    stream.Write([(v / 0x100_0000) % 0x100]);
  }

  class TransactionOutPoint {
    /** Hash of the transaction referred to. */
    var hash: Sha256Hash
    /** Which output of that transaction. */
    var index: Int64
    /** The connected transaction, when both sides are in memory and linked; not serialized. */
    var fromTx: Option<Transaction>
    /** The serialized length the message reports. */
    var length: int

    // Parse state kept by the message superclass.
    var payload: seq<Byte>
    var offset: int
    var cursor: int
    var parsed: bool

    /**
     * The fixed serialized length the message superclass caches. No contract
     * here reads it: the superclass's cached-bytes serialization is not part
     * of this model, so it only records that every outpoint is 36 bytes long.
     */
    ghost predicate Valid()
      reads this
    {
      length == MESSAGE_LENGTH
    }

    /** The part of the object that is serialized and compared: hash and index. */
    function Id(): (p: OutPoint)
      reads this
    {
      OutPoint(hash, index)
    }

    /**
     * The hash and index an accessor would see: the fields once parsed,
     * otherwise what the deferred parse will decode at the cursor.
     */
    ghost function Materialised(): (r: Result<OutPoint>)
      reads this
    {
      if parsed then Success(Id()) else Decode(payload, cursor)
    }

    /** From a transaction (linked) or, for the coinbase reference, from nothing. */
    constructor FromTransaction(index: Int64, fromTx: Option<Transaction>)
      ensures Valid() && parsed
      ensures this.index == index && this.fromTx == fromTx
      ensures hash == if fromTx.Some? then fromTx.value.txHash else ZERO_HASH
      ensures fromTx.Some? && 0 <= index < |fromTx.value.outputs| && index < 0x8000_0000 ==>
                ConnectedOutput(this.fromTx, this.index) == Success(Some(fromTx.value.outputs[index]))
    {
      this.index := index;
      if fromTx.Some? {
        this.hash := fromTx.value.txHash;
        this.fromTx := fromTx;
      } else {
        this.hash := ZERO_HASH;
        this.fromTx := None;
      }
      length := MESSAGE_LENGTH;
      payload, offset, cursor := [], 0, 0;
      parsed := true;
    }

    /** From a transaction hash and an index, unlinked. */
    constructor FromHash(index: Int64, hash: Sha256Hash)
      ensures Valid() && parsed
      ensures Id() == OutPoint(hash, index) && fromTx.None?
      ensures ConnectedOutput(fromTx, this.index) == Success(None)
    {
      this.index := index;
      this.hash := hash;
      fromTx := None;
      length := MESSAGE_LENGTH;
      payload, offset, cursor := [], 0, 0;
      parsed := true;
    }

    /**
     * Over a payload, with parsing deferred: only the length is set, and
     * hash and index keep their initial values until the first access.
     */
    constructor FromPayload(payload: seq<Byte>, offset: int)
      ensures Valid() && !parsed
      ensures this.payload == payload && this.offset == offset && cursor == offset
      ensures Id() == OutPoint(ZERO_HASH, 0) && fromTx.None?
    {
      this.payload := payload;
      this.offset := offset;
      cursor := offset;
      hash := ZERO_HASH;
      index := 0;
      fromTx := None;
      parsed := false;
      length := MESSAGE_LENGTH;
    }

    /** Reads a hash at the cursor and moves past it. */
    method ReadHash() returns (r: Result<Sha256Hash>)
      modifies this`cursor
      ensures r == DecodeHash(payload, old(cursor))
      ensures cursor == if r.Success? then old(cursor) + HASH_LENGTH else old(cursor)
    {
      r := DecodeHash(payload, cursor);
      if r.Success? {
        cursor := cursor + HASH_LENGTH;
      }
    }

    /** Reads an unsigned little-endian 32-bit integer at the cursor and moves past it. */
    method ReadUint32() returns (r: Result<Int64>)
      modifies this`cursor
      ensures r == DecodeUint32(payload, old(cursor))
      ensures cursor == if r.Success? then old(cursor) + UINT32_LENGTH else old(cursor)
    {
      r := DecodeUint32(payload, cursor);
      if r.Success? {
        cursor := cursor + UINT32_LENGTH;
      }
    }

    /** Reads the hash, then the index, at the cursor. */
    method Parse() returns (o: Outcome)
      modifies this`hash, this`index, this`cursor
      ensures o.Pass? <==> Decode(payload, old(cursor)).Success?
      ensures o.Pass? ==> Id() == Decode(payload, old(cursor)).value && cursor == old(cursor) + MESSAGE_LENGTH
      ensures o.Fail? ==> o.error == ProtocolError && index == old(index)
      ensures o.Fail? && DecodeHash(payload, old(cursor)).Success? ==>
                hash == DecodeHash(payload, old(cursor)).value && cursor == old(cursor) + HASH_LENGTH
      ensures o.Fail? && DecodeHash(payload, old(cursor)).Failure? ==>
                hash == old(hash) && cursor == old(cursor)
    {
      var h := ReadHash();
      if h.Failure? {
        return Fail(h.error);
      }
      hash := h.value;
      var i := ReadUint32();
      if i.Failure? {
        return Fail(i.error);
      }
      index := i.value;
      o := Pass;
    }

    /** Runs the deferred parse once, on the first access to a field. */
    method MaybeParse() returns (o: Outcome)
      modifies this`hash, this`index, this`cursor, this`parsed
      ensures old(parsed) ==> o.Pass? && Id() == old(Id()) && cursor == old(cursor) && parsed
      ensures !old(parsed) ==> (o.Pass? <==> Decode(payload, old(cursor)).Success?)
      ensures !old(parsed) && o.Pass? ==> parsed && Id() == Decode(payload, old(cursor)).value
      ensures o.Fail? ==> o.error == LazyParseError && !parsed
      ensures o.Fail? ==> index == old(index) && Materialised().Failure?
      ensures o.Fail? && DecodeHash(payload, old(cursor)).Success? ==>
                hash == DecodeHash(payload, old(cursor)).value && cursor == old(cursor) + HASH_LENGTH
      ensures o.Fail? && DecodeHash(payload, old(cursor)).Failure? ==>
                hash == old(hash) && cursor == old(cursor)
    {
      if parsed {
        return Pass;
      }
      var p := Parse();
      if p.Fail? {
        return Fail(LazyParseError);
      }
      parsed := true;
      o := Pass;
    }

    method GetHash() returns (r: Result<Sha256Hash>)
      modifies this`hash, this`index, this`cursor, this`parsed
      ensures old(parsed) ==> r == Success(old(hash)) && Id() == old(Id()) && cursor == old(cursor)
      ensures !old(parsed) ==> (r.Success? <==> Decode(payload, old(cursor)).Success?)
      ensures r.Success? ==> parsed && r.value == hash
      ensures r.Success? && !old(parsed) ==> Id() == Decode(payload, old(cursor)).value
      ensures r.Failure? ==> r.error == LazyParseError && !parsed
      ensures r.Failure? ==> index == old(index) && Materialised().Failure?
      ensures r.Failure? && DecodeHash(payload, old(cursor)).Success? ==>
                hash == DecodeHash(payload, old(cursor)).value && cursor == old(cursor) + HASH_LENGTH
      ensures r.Failure? && DecodeHash(payload, old(cursor)).Failure? ==>
                hash == old(hash) && cursor == old(cursor)
    {
      var o := MaybeParse();
      if o.Fail? {
        return Failure(o.error);
      }
      r := Success(hash);
    }

    /** Replaces the hash; nothing else changes. */
    method SetHash(hash: Sha256Hash)
      modifies this`hash
      ensures this.hash == hash
    {
      this.hash := hash;
    }

    method GetIndex() returns (r: Result<Int64>)
      modifies this`hash, this`index, this`cursor, this`parsed
      ensures old(parsed) ==> r == Success(old(index)) && Id() == old(Id()) && cursor == old(cursor)
      ensures !old(parsed) ==> (r.Success? <==> Decode(payload, old(cursor)).Success?)
      ensures r.Success? ==> parsed && r.value == index
      ensures r.Success? && !old(parsed) ==> Id() == Decode(payload, old(cursor)).value
      ensures r.Failure? ==> r.error == LazyParseError && !parsed
      ensures r.Failure? ==> index == old(index) && Materialised().Failure?
      ensures r.Failure? && DecodeHash(payload, old(cursor)).Success? ==>
                hash == DecodeHash(payload, old(cursor)).value && cursor == old(cursor) + HASH_LENGTH
      ensures r.Failure? && DecodeHash(payload, old(cursor)).Failure? ==>
                hash == old(hash) && cursor == old(cursor)
    {
      var o := MaybeParse();
      if o.Fail? {
        return Failure(o.error);
      }
      r := Success(index);
    }

    /** Replaces the index; nothing else changes. */
    method SetIndex(index: Int64)
      modifies this`index
      ensures this.index == index
    {
      this.index := index;
    }

    /** The serialized size, the same for every outpoint. */
    function GetMessageSize(): (n: nat)
      ensures n == MESSAGE_LENGTH
      ensures forall p: OutPoint :: |Encode(p)| == n
    {
      MESSAGE_LENGTH
    }

    /**
     * Writes the reversed hash, then the index as a little-endian uint32.
     * It reads the fields directly, so the outpoint must have been parsed:
     * before the deferred parse the Java hash is still null.
     */
    method BitcoinSerializeToStream(stream: ByteStream)
      requires parsed
      modifies stream
      ensures stream.written == old(stream.written) + Encode(Id())
    {
      stream.Write(Reverse(hash));
      Uint32ToByteStreamLE(index, stream);
    }

    /**
     * Outpoints are equal when their indexes and hashes are; the link to a
     * transaction plays no part. Both sides are parsed first.
     */
    method Equals(other: TransactionOutPoint?) returns (r: Result<bool>)
      modifies this`hash, this`index, this`cursor, this`parsed
      modifies {other}`hash, {other}`index, {other}`cursor, {other}`parsed
      ensures other == this || other == null ==>
                r == Success(other != null) &&
                Id() == old(Id()) && parsed == old(parsed) && cursor == old(cursor)
      ensures other != null && other != this ==>
                (r.Success? <==> old(Materialised()).Success? && old(other.Materialised()).Success?)
      ensures other != null && other != this && r.Success? ==>
                (r.value <==> old(Materialised()).value == old(other.Materialised()).value)
      ensures r.Success? && other != null && other != this ==>
                parsed && other.parsed && (r.value <==> Id() == other.Id())
      ensures other != null && other != this && old(parsed) && old(other.parsed) ==>
                r.Success? && (r.value <==> old(Id()) == old(other.Id()))
      ensures other != null && other != this && old(Materialised()).Success? ==>
                parsed && Id() == old(Materialised()).value
      ensures other != null && other != this && old(Materialised()).Success? && old(other.Materialised()).Success? ==>
                other.parsed && other.Id() == old(other.Materialised()).value
      ensures other != null && other != this && old(Materialised()).Failure? ==>
                !parsed && other.Id() == old(other.Id()) && other.parsed == old(other.parsed) &&
                other.cursor == old(other.cursor)
      ensures other != null && other != this && old(Materialised()).Failure? ==>
                index == old(index) && Materialised().Failure?
      ensures other != null && other != this && old(Materialised()).Success? && old(other.Materialised()).Failure? ==>
                !other.parsed && other.index == old(other.index) && other.Materialised().Failure?
      ensures old(parsed) ==> Id() == old(Id()) && cursor == old(cursor)
      ensures other != null && old(other.parsed) ==> other.Id() == old(other.Id()) && other.cursor == old(other.cursor)
      ensures r.Failure? ==> r.error == LazyParseError
    {
      if other == this {
        return Success(true);
      }
      if other == null {
        return Success(false);
      }
      var i := GetIndex();
      if i.Failure? {
        return Failure(i.error);
      }
      var j := other.GetIndex();
      if j.Failure? {
        return Failure(j.error);
      }
      if i.value != j.value {
        return Success(false);
      }
      var h := GetHash();
      var g := other.GetHash();
      r := Success(h.value == g.value);
    }

    /**
     * The hash code is that of the hash alone. `hashOf` stands for the
     * hash code of a Sha256Hash, whose definition is not part of this model.
     */
    method HashCode(hashOf: Sha256Hash -> int) returns (r: Result<int>)
      modifies this`hash, this`index, this`cursor, this`parsed
      ensures old(parsed) ==> r == Success(hashOf(old(hash)))
      ensures r.Success? <==> old(Materialised()).Success?
      ensures r.Success? ==>
                r == Success(hashOf(old(Materialised()).value.hash)) && parsed && Id() == old(Materialised()).value
      ensures r.Success? ==> parsed && r.value == hashOf(hash)
      ensures old(parsed) ==> Id() == old(Id()) && cursor == old(cursor)
      ensures r.Failure? ==> r.error == LazyParseError && !parsed
      ensures r.Failure? ==> index == old(index) && Materialised().Failure?
      ensures r.Failure? && DecodeHash(payload, old(cursor)).Success? ==>
                hash == DecodeHash(payload, old(cursor)).value && cursor == old(cursor) + HASH_LENGTH
      ensures r.Failure? && DecodeHash(payload, old(cursor)).Failure? ==>
                hash == old(hash) && cursor == old(cursor)
    {
      var h := GetHash();
      if h.Failure? {
        return Failure(h.error);
      }
      r := Success(hashOf(h.value));
    }
  }

  /**
   * Building an outpoint over a payload: with `parseLazy` the parse waits for
   * the first field access; otherwise it runs now and a short payload fails.
   */
  method Deserialize(payload: seq<Byte>, offset: int, parseLazy: bool) returns (r: Result<TransactionOutPoint>)
    ensures r.Success? ==> fresh(r.value) && r.value.Valid() && r.value.fromTx.None? && r.value.payload == payload
    ensures parseLazy ==> r.Success? && !r.value.parsed && r.value.cursor == offset
    ensures !parseLazy ==> (r.Success? <==> Decode(payload, offset).Success?)
    ensures !parseLazy && r.Success? ==>
              r.value.parsed && r.value.Id() == Decode(payload, offset).value &&
              r.value.cursor == offset + MESSAGE_LENGTH
    ensures r.Failure? ==> r.error == ProtocolError
  {
    var p := new TransactionOutPoint.FromPayload(payload, offset);
    assert p.Valid() && p.fromTx.None?;
    if !parseLazy {
      var o := p.Parse();
      assert p.Valid() && p.fromTx.None?;
      if o.Fail? {
        return Failure(o.error);
      }
      p.parsed := true;
      assert p.Id() == Decode(payload, offset).value;
    }
    r := Success(p);
  }

  /**
   * Serializing a parsed outpoint and deserializing the bytes written, eagerly or
   * lazily, gives an outpoint with the same hash and the low 32 bits of the index.
   */
  method Reserialize(p: TransactionOutPoint, parseLazy: bool) returns (q: TransactionOutPoint)
    requires p.parsed
    ensures fresh(q) && q.Valid() && q.fromTx.None? && q.parsed
    ensures q.Id() == OutPoint(p.hash, p.index % TWO_32)
  {
    var stream := new ByteStream();
    p.BitcoinSerializeToStream(stream);
    ghost var expected := OutPoint(p.hash, p.index % TWO_32);
    DecodeEncode(p.Id(), [], []);
    assert [] + Encode(p.Id()) + [] == stream.written;
    assert Decode(stream.written, 0) == Success(expected);
    var r := Deserialize(stream.written, 0, parseLazy);
    q := r.value;
    if parseLazy {
      var h := q.GetHash();
      assert h.Success?;
    }
  }

  /**
   * A lazily built outpoint read twice: a failed deferred parse leaves it
   * unparsed, so the second access parses again and fails again, and the raw
   * index that the connected-output lookup reads stays 0 throughout.
   */
  method AccessTwice(payload: seq<Byte>, offset: int) returns (first: Result<Sha256Hash>, second: Result<Sha256Hash>, rawIndex: Int64)
    ensures first.Success? <==> Decode(payload, offset).Success?
    ensures first == second
    ensures first.Success? ==> first.value == Decode(payload, offset).value.hash
    ensures first.Failure? ==> first.error == LazyParseError && rawIndex == 0
    ensures first.Success? ==> rawIndex == Decode(payload, offset).value.index
  {
    var p := new TransactionOutPoint.FromPayload(payload, offset);
    first := p.GetHash();
    second := p.GetHash();
    rawIndex := p.index;
  }
}
