# TransactionOutPoint, modelled in Dafny

A transaction outpoint names one output of an earlier transaction: the
transaction's 32-byte hash and the output's index. This project models
bitcoinj's `TransactionOutPoint` in three parts.

- **The wire codec.** An outpoint is always 36 bytes. Bytes 0–31 hold the hash
  with its bytes reversed. Bytes 32–35 hold the index as an unsigned
  little-endian 32-bit integer (`Wire`, `OutPointCodec`).
- **Connection and key lookup.** The outpoint can hold an in-memory link to the
  transaction it spends. It can follow that link to the connected output and
  its script bytes. It can also find the wallet key for that output: by key
  hash for pay-to-address, by public key for pay-to-raw-pubkey, and through
  redeem data for pay-to-script-hash. Any other script form is an error
  (`Connection`).
- **The mutable object.** This is the class with the fields `hash`, `index`,
  `fromTx` and `length`. Its two field-setting constructors and its
  two payload-based constructors are modelled, eager and lazy. Parsing goes
  through the message cursor. Serialization writes to an output stream. The
  accessors run the deferred parse first, and the setters change one field
  each. `equals` and `hashCode` look only at the hash and the index
  (`OutPoints`).

Files:

- `results.dfy`: `Option`, `Result`, `Outcome`, and one `Error` variant per
  modelled Java exception (an `IOException` from the output stream is not
  among them).
- `wire.dfy`: bytes, Java's `long` range and `(int)` cast, byte reversal, and
  the uint32 little-endian writer and reader.
- `codec.dfy`: `Encode`/`Decode` and the round-trip lemmas.
- `connection.dfy`: the collaborators as values, plus output and key
  resolution.
- `outpoint.dfy`: the `TransactionOutPoint` class, the output stream and
  deserialization.

How collaborators are represented:

- **Transaction:** its id (`txHash`, an opaque 32-byte value) and its ordered
  outputs.
- **Script classifier:** three booleans, asked in the source's order, plus the
  bytes that `getPubKeyHash` and `getPubKey` return.
- **Key bag:** three partial maps.
- **`hashCode` of a `Sha256Hash`:** a function parameter.

Three behaviours of the code worth knowing:

- **Decoding reads in two steps.** The hash is read first. If 32 bytes are
  there, the hash (and the cursor) are updated before the index read fails.
  So a short payload is not simply "no change".
- **An out-of-range output index fails the list lookup.**
  `getConnectedOutput` casts the long index to `int` before calling
  `List.get`. A bad position is therefore an `IndexOutOfBounds` result, not a
  precondition. Also, an index of 2^32 + k lands on output k.
- **`getConnectedOutput` reads the raw `index` field.** It does not run the
  deferred parse. On a lazily built outpoint that has not been parsed yet, it
  sees index 0.

## Model

| member | source | states |
|---|---|---|
| `Wire.ToInt32` | core/src/main/java/com/google/bitcoin/core/TransactionOutPoint.java:124 | the `(int)` cast yields a signed 32-bit value congruent to the long modulo 2^32, and the same value for indexes in [0, 2^31) |
| `Wire.Reverse` | core/src/main/java/com/google/bitcoin/core/TransactionOutPoint.java:112 | byte reversal keeps the length |
| `Wire.ReverseAt` | core/src/main/java/com/google/bitcoin/core/TransactionOutPoint.java:112 | position k of the reversed bytes is the k-th byte from the end |
| `Wire.ReverseReverse` | core/src/main/java/com/google/bitcoin/core/TransactionOutPoint.java:98 | reversing twice gives the original bytes, so the reversal at read time undoes the one at write time |
| `Wire.Uint32FromBytesLE` | core/src/main/java/com/google/bitcoin/core/TransactionOutPoint.java:99 | the index read from four bytes is always in the uint32 range |
| `Wire.Uint32RoundTrip` | core/src/main/java/com/google/bitcoin/core/TransactionOutPoint.java:113 | reading back the four bytes written for any long gives its low 32 bits, unsigned |
| `Wire.Uint32BytesRoundTrip` | core/src/main/java/com/google/bitcoin/core/TransactionOutPoint.java:99 | any four bytes are exactly the bytes written for the value read from them |
| `OutPointCodec.Encode` | core/src/main/java/com/google/bitcoin/core/TransactionOutPoint.java:111-114 | the serialized form is always exactly 36 bytes, whatever the field values |
| `OutPointCodec.EncodeLayout` | core/src/main/java/com/google/bitcoin/core/TransactionOutPoint.java:111-114 | byte k < 32 is hash byte 31 - k, and bytes 32..35 are the index bytes `0xFF & (index >> 8k)`, least significant first |
| `OutPointCodec.DecodeHash` | core/src/main/java/com/google/bitcoin/core/TransactionOutPoint.java:98 | reading a hash succeeds exactly when 32 bytes are there (otherwise a ProtocolError), and the result reversed is those bytes |
| `OutPointCodec.DecodeUint32` | core/src/main/java/com/google/bitcoin/core/TransactionOutPoint.java:99 | reading the index succeeds exactly when 4 bytes are there (otherwise a ProtocolError), gives a uint32, and those bytes are its encoding |
| `OutPointCodec.Decode` | core/src/main/java/com/google/bitcoin/core/TransactionOutPoint.java:97-100 | parsing succeeds exactly when 36 bytes are there at the offset (otherwise a ProtocolError), and on success the 36 bytes are the encoding of the result |
| `OutPointCodec.DecodeEncode` | core/src/main/java/com/google/bitcoin/core/TransactionOutPoint.java:97-114 | decoding an encoding at any offset of any buffer gives back the hash and the index modulo 2^32 |
| `OutPointCodec.DecodeEncodeExact` | core/src/main/java/com/google/bitcoin/core/TransactionOutPoint.java:97-114 | for an index in the uint32 range, decoding the encoding gives back exactly the outpoint |
| `OutPointCodec.EncodeInjective` | core/src/main/java/com/google/bitcoin/core/TransactionOutPoint.java:111-114 | for uint32 indexes, two outpoints have the same bytes exactly when their hash and index are equal |
| `OutPointCodec.ZeroOutPoint` | core/src/main/java/com/google/bitcoin/core/TransactionOutPoint.java:55-58 | the coinbase reference (zero hash, index 0) encodes as 36 zero bytes and decodes back |
| `Connection.ConnectedOutput` | core/src/main/java/com/google/bitcoin/core/TransactionOutPoint.java:122-125 | nothing exactly when unlinked; for a linked transaction, it fails (IndexOutOfBounds, the only error) exactly when `(int) index` is not a position of its outputs, and otherwise returns the output at `(int) index`, which is `index` itself for indexes in [0, 2^31) |
| `Connection.ConnectedPubKeyScript` | core/src/main/java/com/google/bitcoin/core/TransactionOutPoint.java:131-135 | succeeds exactly when there is a connected output with non-empty script bytes, then returns those bytes; unlinked is a NullPointer failure, a bad index an IndexOutOfBounds failure, an empty script an IllegalState failure |
| `Connection.KeyForScript` | core/src/main/java/com/google/bitcoin/core/TransactionOutPoint.java:147-162 | fails (ScriptError) exactly when the script is none of the three forms; any key found is the key-bag entry for the form's lookup bytes |
| `Connection.ConnectedKey` | core/src/main/java/com/google/bitcoin/core/TransactionOutPoint.java:144-163 | unlinked is a NullPointer failure, a bad index an IndexOutOfBounds failure; otherwise the result is the script-form dispatch on the connected output's script |
| `Connection.KeyForAddressScript` | core/src/main/java/com/google/bitcoin/core/TransactionOutPoint.java:148-150 | a pay-to-address script yields the key looked up by its key hash |
| `Connection.KeyForRawPubKeyScript` | core/src/main/java/com/google/bitcoin/core/TransactionOutPoint.java:151-153 | a raw-pubkey script (not also pay-to-address) yields the key looked up by its public key |
| `Connection.KeyForScriptHashScript` | core/src/main/java/com/google/bitcoin/core/TransactionOutPoint.java:154-159 | a P2SH script (and neither other form) yields nothing without redeem data for its hash, otherwise the redeem data's full key |
| `Connection.UnknownKeyIsNotAnError` | core/src/main/java/com/google/bitcoin/core/TransactionOutPoint.java:141-159 | for every recognised form, a key bag without an entry for the script's lookup bytes gives "no key", not an error |
| `Connection.LinkedOutputResolves` | core/src/main/java/com/google/bitcoin/core/TransactionOutPoint.java:122-125 | an outpoint linked to a transaction resolves to that transaction's output at its index, returns that output's non-empty script bytes, and resolves its key from that output's script |
| `Connection.IndexIsNarrowedToInt` | core/src/main/java/com/google/bitcoin/core/TransactionOutPoint.java:124 | index 2^32 + k resolves to output k, and index 2^31 falls outside the list after the cast |
| `OutPoints.Uint32ToByteStreamLE` | core/src/main/java/com/google/bitcoin/core/TransactionOutPoint.java:113 | the stream gains exactly the four little-endian bytes of the index |
| `OutPoints.TransactionOutPoint.FromTransaction` | core/src/main/java/com/google/bitcoin/core/TransactionOutPoint.java:49-60 | copies the transaction's hash and keeps the link, or takes the zero hash with no link for no transaction; length is 36; the link resolves to the transaction's output at the index |
| `OutPoints.TransactionOutPoint.FromHash` | core/src/main/java/com/google/bitcoin/core/TransactionOutPoint.java:62-67 | sets hash and index, no link, length 36 |
| `OutPoints.TransactionOutPoint.FromPayload` | core/src/main/java/com/google/bitcoin/core/TransactionOutPoint.java:87-94 | a lazily parsed outpoint records payload and offset, sets length 36 and leaves the parse for later |
| `OutPoints.TransactionOutPoint.ReadHash` | core/src/main/java/com/google/bitcoin/core/TransactionOutPoint.java:98 | reads the hash at the cursor and advances it by 32 only on success |
| `OutPoints.TransactionOutPoint.ReadUint32` | core/src/main/java/com/google/bitcoin/core/TransactionOutPoint.java:99 | reads the index at the cursor and advances it by 4 only on success |
| `OutPoints.TransactionOutPoint.Parse` | core/src/main/java/com/google/bitcoin/core/TransactionOutPoint.java:97-100 | succeeds exactly when the payload decodes at the cursor; then hash and index are the decoded ones and the cursor moved 36; on failure states which fields the partial read changed |
| `OutPoints.TransactionOutPoint.MaybeParse` | core/src/main/java/com/google/bitcoin/core/TransactionOutPoint.java:176 | a parsed outpoint is left as it is; an unparsed one is parsed once, becoming parsed with the decoded fields, or fails as a lazy-parse error and stays unparsed, with the index unchanged, the hash and cursor as the partial read left them, and still not decodable at the cursor |
| `OutPoints.TransactionOutPoint.GetHash` | core/src/main/java/com/google/bitcoin/core/TransactionOutPoint.java:175-178 | returns the hash after materialising the parse; a parsed outpoint returns its hash unchanged; a failed parse leaves the index unchanged, the hash and cursor as the partial read left them, and the outpoint still not decodable |
| `OutPoints.TransactionOutPoint.SetHash` | core/src/main/java/com/google/bitcoin/core/TransactionOutPoint.java:180-182 | sets the hash and, by its frame, nothing else |
| `OutPoints.TransactionOutPoint.GetIndex` | core/src/main/java/com/google/bitcoin/core/TransactionOutPoint.java:184-187 | returns the index after materialising the parse; a parsed outpoint returns its index unchanged; a failed parse leaves the index unchanged, the hash and cursor as the partial read left them, and the outpoint still not decodable |
| `OutPoints.TransactionOutPoint.SetIndex` | core/src/main/java/com/google/bitcoin/core/TransactionOutPoint.java:189-191 | sets the index and, by its frame, nothing else |
| `OutPoints.TransactionOutPoint.GetMessageSize` | core/src/main/java/com/google/bitcoin/core/TransactionOutPoint.java:106-108 | the size is 36 and equals the length of every outpoint's encoding |
| `OutPoints.TransactionOutPoint.BitcoinSerializeToStream` | core/src/main/java/com/google/bitcoin/core/TransactionOutPoint.java:111-114 | for a parsed outpoint, the stream gains exactly the encoding of (hash, index) |
| `OutPoints.TransactionOutPoint.Equals` | core/src/main/java/com/google/bitcoin/core/TransactionOutPoint.java:204-210 | true for the same object, false for null, leaving both untouched; otherwise it succeeds exactly when both outpoints materialise (already parsed, or their deferred parse decodes), and then it is true exactly when the materialised hash and index agree, never looking at the link, and leaves each materialised outpoint parsed with those values; a failed parse is a lazy-parse error that leaves the failing outpoint's index unchanged and the outpoint still not decodable |
| `OutPoints.TransactionOutPoint.HashCode` | core/src/main/java/com/google/bitcoin/core/TransactionOutPoint.java:213-215 | succeeds exactly when the outpoint materialises; the result is the hash code of the materialised hash alone, so equal outpoints have equal hash codes, and the outpoint is left parsed with the materialised values; a failed parse is a lazy-parse error that leaves the index unchanged, the hash and cursor as the partial read left them, and the outpoint still not decodable |
| `OutPoints.Deserialize` | core/src/main/java/com/google/bitcoin/core/TransactionOutPoint.java:73-89 | lazy construction always succeeds unparsed; eager construction succeeds exactly when the payload decodes at the offset, with the decoded fields, else a ProtocolError; never linked |
| `OutPoints.Reserialize` | core/src/main/java/com/google/bitcoin/core/TransactionOutPoint.java:97-114 | serializing a parsed outpoint and deserializing what was written, eagerly or lazily, gives a parsed outpoint with the same hash and the index modulo 2^32 |
| `OutPoints.AccessTwice` | core/src/main/java/com/google/bitcoin/core/TransactionOutPoint.java:175-178 | two hash accesses on a lazily built outpoint give the same result, the decoded hash exactly when the payload decodes at the offset; when it does not, both are lazy-parse errors and the raw index that `getConnectedOutput` reads (line 124) stays 0, since `parse` (lines 97-98) assigns it only after both reads |

## Left out

- Java object serialization (`writeObject`, `serialVersionUID`): this is
  framework I/O with no bearing on the logic.
- `toString`: text formatting, and the hex rendering of a hash is not part of
  this model.
- `NetworkParameters`: the outpoint logic never uses it.
- The parts of the message superclass beyond parsing: parent linkage,
  invalidation of cached bytes, `parseRetain` (dropping the payload after a
  parse) and protocol versions. `Message.java` and `ChildMessage.java` are not
  part of this model. The lazy parse is kept as a one-way parsed flag over a
  payload and a cursor.
- The synchronisation of `maybeParse`: the model is single-threaded.
- The SHA-256 of a transaction: its id is an opaque 32-byte field.
- Script parsing and classification, and the key bag's lookups: these are
  reduced to their results (three form flags with the extracted bytes, and
  three partial maps). `RedeemData.getFullKey` is a stored optional key.
- Linking an outpoint to a transaction after construction is done by other
  classes assigning `fromTx`, and is not part of this model.
- `OutPoints.TransactionOutPoint.FromPayload`: Java's `hash` is null until the
  lazy parse runs. The model holds the zero hash there instead. The
  accessors parse first. Three members read the raw fields: `getConnectedOutput`
  reads only the index, `bitcoinSerializeToStream` reads both, and `toString`
  (line 167, not modelled) reads both.
- `OutPoints.TransactionOutPoint.BitcoinSerializeToStream`: requires a parsed
  outpoint. On an unparsed one, the Java code would dereference the null
  hash. The superclass's serialization entry point, which returns retained
  bytes or parses first, is not part of this model.
- `OutPoints.TransactionOutPoint.BitcoinSerializeToStream`: the output stream
  is an in-memory sink that never fails, so an `IOException` thrown part-way
  through a write, which the Java method declares, is not modelled.
- `OutPoints.TransactionOutPoint.FromHash`: a null hash argument is not
  modelled, because the hash type is always 32 bytes.
- `OutPoints.TransactionOutPoint.Equals`: takes only outpoints or null. The
  source's `false` for an object of another class is not modelled.
- `OutPoints.TransactionOutPoint.HashCode`: the hash code of a `Sha256Hash` is
  a parameter, because its definition is not part of this model.
