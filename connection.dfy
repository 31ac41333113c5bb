/**
 * Following an outpoint's link to the transaction it spends, and finding the
 * key of the connected output in a wallet's key bag. The transaction, its
 * outputs, the script classifier and the key bag are collaborators; they are
 * reduced here to the values the outpoint code reads from them.
 */
module Connection {
  import opened Wire
  import opened Results
  import opened OutPointCodec

  /**
   * What the outpoint code asks of an output script: the three form tests,
   * in the order it asks them, and the bytes the extractors return.
   * `pubKeyHash` is what `getPubKeyHash` yields, which is the 20-byte key
   * hash of a pay-to-address script and the 20-byte script hash of a
   * pay-to-script-hash script.
   */
  datatype Script = Script(
    sentToAddress: bool,
    sentToRawPubKey: bool,
    payToScriptHash: bool,
    pubKeyHash: seq<Byte>,
    pubKey: seq<Byte>)

  datatype TransactionOutput = TransactionOutput(scriptBytes: seq<Byte>, scriptPubKey: Script)

  /** A transaction as the outpoint sees it: its id and its ordered outputs. */
  datatype Transaction = Transaction(txHash: Sha256Hash, outputs: seq<TransactionOutput>)

  datatype ECKey = ECKey(pubKey: seq<Byte>)

  /** The redeem script of a pay-to-script-hash output and its single signing key, if it has one. */
  datatype RedeemData = RedeemData(redeemScript: seq<Byte>, fullKey: Option<ECKey>)

  /** A wallet's key lookups, as partial maps from the bytes looked up. */
  datatype KeyBag = KeyBag(
    keysByPubHash: map<seq<Byte>, ECKey>,
    keysByPubKey: map<seq<Byte>, ECKey>,
    redeemByScriptHash: map<seq<Byte>, RedeemData>)

  function Lookup<K, V>(m: map<K, V>, k: K): (r: Option<V>)
    ensures r.Some? <==> k in m
    ensures r.Some? ==> r.value == m[k]
  {
    if k in m then Some(m[k]) else None
  }

  function FindKeyFromPubHash(bag: KeyBag, pubKeyHash: seq<Byte>): (r: Option<ECKey>) {
    Lookup(bag.keysByPubHash, pubKeyHash)
  }

  function FindKeyFromPubKey(bag: KeyBag, pubKey: seq<Byte>): (r: Option<ECKey>) {
    Lookup(bag.keysByPubKey, pubKey)
  }

  function FindRedeemDataFromScriptHash(bag: KeyBag, scriptHash: seq<Byte>): (r: Option<RedeemData>) {
    Lookup(bag.redeemByScriptHash, scriptHash)
  }

  /**
   * The output the outpoint is connected to: nothing when there is no link,
   * otherwise the output at position `(int) index` of the linked
   * transaction, which fails like `List.get` when that position is not there.
   */
  function ConnectedOutput(fromTx: Option<Transaction>, index: Int64): (r: Result<Option<TransactionOutput>>)
    ensures r == Success(None) <==> fromTx.None?
    ensures fromTx.Some? && 0 <= index < |fromTx.value.outputs| && index < 0x8000_0000 ==>
              r == Success(Some(fromTx.value.outputs[index]))
    ensures r.Failure? ==> r.error == IndexOutOfBounds
    ensures fromTx.Some? ==> (r.Failure? <==> !(0 <= ToInt32(index) < |fromTx.value.outputs|))
    ensures fromTx.Some? && r.Success? ==> r == Success(Some(fromTx.value.outputs[ToInt32(index)]))
    ensures fromTx.Some? && r.Success? ==>
              r.value.Some? && r.value.value in fromTx.value.outputs
  {
    match fromTx
    case None => Success(None)
    case Some(tx) =>
      var i := ToInt32(index);
      if 0 <= i < |tx.outputs| then Success(Some(tx.outputs[i])) else Failure(IndexOutOfBounds)
  }

  /**
   * The connected output's script bytes; a missing link is a programming
   * error and an empty script a state error.
   */
  function ConnectedPubKeyScript(fromTx: Option<Transaction>, index: Int64): (r: Result<seq<Byte>>)
    ensures r.Success? <==>
              ConnectedOutput(fromTx, index).Success? && ConnectedOutput(fromTx, index).value.Some? &&
              |ConnectedOutput(fromTx, index).value.value.scriptBytes| > 0
    ensures r.Success? ==> r.value == ConnectedOutput(fromTx, index).value.value.scriptBytes
    ensures fromTx.None? ==> r == Failure(NullPointer)
    ensures ConnectedOutput(fromTx, index).Failure? ==> r == Failure(IndexOutOfBounds)
    ensures ConnectedOutput(fromTx, index).Success? && ConnectedOutput(fromTx, index).value.Some? &&
            |ConnectedOutput(fromTx, index).value.value.scriptBytes| == 0 ==>
              r == Failure(IllegalState)
  {
    match ConnectedOutput(fromTx, index)
    case Failure(e) => Failure(e)
    case Success(None) => Failure(NullPointer)
    case Success(Some(out)) =>
      if |out.scriptBytes| > 0 then Success(out.scriptBytes) else Failure(IllegalState)
  }

  /** The wallet key a connected script names, chosen by the script's form. */
  function KeyForScript(script: Script, bag: KeyBag): (r: Result<Option<ECKey>>)
    ensures r.Failure? <==> !script.sentToAddress && !script.sentToRawPubKey && !script.payToScriptHash
    ensures r.Failure? ==> r.error == ScriptError
    ensures r.Success? && r.value.Some? ==>
              (script.sentToAddress && script.pubKeyHash in bag.keysByPubHash &&
                 r.value.value == bag.keysByPubHash[script.pubKeyHash]) ||
              (script.sentToRawPubKey && script.pubKey in bag.keysByPubKey &&
                 r.value.value == bag.keysByPubKey[script.pubKey]) ||
              (script.payToScriptHash && script.pubKeyHash in bag.redeemByScriptHash &&
                 bag.redeemByScriptHash[script.pubKeyHash].fullKey == r.value)
  {
    if script.sentToAddress then
      Success(FindKeyFromPubHash(bag, script.pubKeyHash))
    else if script.sentToRawPubKey then
      Success(FindKeyFromPubKey(bag, script.pubKey))
    else if script.payToScriptHash then
      match FindRedeemDataFromScriptHash(bag, script.pubKeyHash)
      case None => Success(None)
      case Some(redeem) => Success(redeem.fullKey)
    else
      Failure(ScriptError)
  }

  /** The key of the connected output; the outpoint must be connected. */
  function ConnectedKey(fromTx: Option<Transaction>, index: Int64, bag: KeyBag): (r: Result<Option<ECKey>>)
    ensures fromTx.None? ==> r == Failure(NullPointer)
    ensures ConnectedOutput(fromTx, index).Failure? ==> r == Failure(IndexOutOfBounds)
    ensures ConnectedOutput(fromTx, index).Success? && ConnectedOutput(fromTx, index).value.Some? ==>
              r == KeyForScript(ConnectedOutput(fromTx, index).value.value.scriptPubKey, bag)
  {
    match ConnectedOutput(fromTx, index)
    case Failure(e) => Failure(e)
    case Success(None) => Failure(NullPointer)
    case Success(Some(out)) => KeyForScript(out.scriptPubKey, bag)
  }

  /** Pay-to-address: the key registered under the script's key hash, or none. */
  lemma KeyForAddressScript(script: Script, bag: KeyBag)
    requires script.sentToAddress
    ensures KeyForScript(script, bag) == Success(Lookup(bag.keysByPubHash, script.pubKeyHash))
  {
  }

  /** Pay-to-raw-pubkey (and not pay-to-address): the key with that public key, or none. */
  lemma KeyForRawPubKeyScript(script: Script, bag: KeyBag)
    requires !script.sentToAddress && script.sentToRawPubKey
    ensures KeyForScript(script, bag) == Success(Lookup(bag.keysByPubKey, script.pubKey))
  {
  }

  /**
   * Pay-to-script-hash (and neither of the other forms): none without redeem
   * data for the script hash, otherwise the redeem data's single key.
   */
  lemma KeyForScriptHashScript(script: Script, bag: KeyBag)
    requires !script.sentToAddress && !script.sentToRawPubKey && script.payToScriptHash
    ensures script.pubKeyHash !in bag.redeemByScriptHash ==> KeyForScript(script, bag) == Success(None)
    ensures script.pubKeyHash in bag.redeemByScriptHash ==>
              KeyForScript(script, bag) == Success(bag.redeemByScriptHash[script.pubKeyHash].fullKey)
  {
  }

  /** A key that the wallet does not hold is "no key", never an error, for every recognised form. */
  lemma UnknownKeyIsNotAnError(script: Script, bag: KeyBag)
    requires script.sentToAddress ==> script.pubKeyHash !in bag.keysByPubHash
    requires !script.sentToAddress && script.sentToRawPubKey ==> script.pubKey !in bag.keysByPubKey
    requires !script.sentToAddress && !script.sentToRawPubKey && script.payToScriptHash ==>
               script.pubKeyHash !in bag.redeemByScriptHash
    requires script.sentToAddress || script.sentToRawPubKey || script.payToScriptHash
    ensures KeyForScript(script, bag) == Success(None)
  {
  }

  /**
   * An outpoint linked to a transaction resolves to that transaction's output
   * at its index, and looks up the key of that output's script.
   */
  lemma LinkedOutputResolves(tx: Transaction, index: Int64, bag: KeyBag)
    requires 0 <= index < |tx.outputs| && index < 0x8000_0000
    ensures ConnectedOutput(Some(tx), index) == Success(Some(tx.outputs[index]))
    ensures ConnectedKey(Some(tx), index, bag) == KeyForScript(tx.outputs[index].scriptPubKey, bag)
    ensures |tx.outputs[index].scriptBytes| > 0 ==>
              ConnectedPubKeyScript(Some(tx), index) == Success(tx.outputs[index].scriptBytes)
  {
  }

  /**
   * The narrowing cast: an index 2^32 past a valid position aliases that
   * position, and an index in [2^31, 2^32) becomes negative and is out of bounds.
   */
  lemma IndexIsNarrowedToInt(tx: Transaction, k: nat)
    requires k < |tx.outputs| && k < 0x8000_0000
    ensures ConnectedOutput(Some(tx), TWO_32 + k) == Success(Some(tx.outputs[k]))
    ensures ConnectedOutput(Some(tx), 0x8000_0000) == Failure(IndexOutOfBounds)
  {
    ModTwo32(TWO_32 + k, 1, k);
  }
}
