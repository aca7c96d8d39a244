/**
 * `sign_share`: normalise the seven fields of a vesting share, ABI-encode
 * them as the tuple `SHARE_ABI_TYPES`, hash the encoding (the struct hash),
 * frame the hash as an EIP-191 personal message, sign it with the issuer
 * key and recover the signer from the signature.
 *
 * Keccak-256 and secp256k1 signing and recovery are not modelled: they are
 * the function values of a `Crypto` record, and the one property the
 * signer relies on, that recovery from a signature made with a key yields
 * that key's address, is the hypothesis `Sound`.
 */
module ShareSigner {
  import opened Results
  import opened Bytes
  import opened Text
  import opened Abi
  import opened Eip191

  /** A share as the caller hands it over: seven text fields. */
  datatype Share = Share(
    id: string,
    owner: string,
    tge: string,
    startTime: string,
    initialAmount: string,
    amountPerSecond: string,
    totalCap: string)

  /** The ABI layout of a share, one entry per field in declared order. */
  const SHARE_ABI_TYPES: seq<AbiType> :=
    [Uint256, AddressType, Uint256, Uint256, Uint256, Uint256, Uint256]

  /** Number of fields of a share. */
  const SHARE_FIELDS: nat := 7

  /** A named text field of a share. */
  datatype Field = Field(name: string, text: string)

  /** Field k of a share, with its name, in declared order. */
  function FieldOf(share: Share, k: nat): Field
    requires k < SHARE_FIELDS
  {
    match k
    case 0 => Field("id", share.id)
    case 1 => Field("owner", share.owner)
    case 2 => Field("tge", share.tge)
    case 3 => Field("startTime", share.startTime)
    case 4 => Field("initialAmount", share.initialAmount)
    case 5 => Field("amountPerSecond", share.amountPerSecond)
    case _ => Field("totalCap", share.totalCap)
  }

  // ------------------------------------------------------- normalisation

  /** `int(text)` for field k; a text that is not a decimal reports the field's name. */
  function ParseIntField(share: Share, k: nat): (r: Result<int>)
    requires k < SHARE_FIELDS
    ensures r.Success? <==> ParseInt(FieldOf(share, k).text).Some?
    ensures r.Success? ==> ParseInt(FieldOf(share, k).text) == Some(r.value)
    ensures r.Failure? ==> r.error == InvalidInteger(FieldOf(share, k).name)
  {
    match ParseInt(FieldOf(share, k).text)
    case None => Failure(InvalidInteger(FieldOf(share, k).name))
    case Some(n) => Success(n)
  }

  /**
   * `to_checksum_address(s)`, reduced to the 20 bytes it names: an optional
   * "0x" or "0X" prefix, then exactly 40 hex digits of either case.
   */
  function ParseAddress(s: string): (r: Result<Address>)
    ensures r.Success? ==> |s| == 40 || |s| == 42
    ensures r.Failure? ==> r.error == InvalidAddress
  {
    var digits := if |s| >= 2 && s[0] == '0' && (s[1] == 'x' || s[1] == 'X') then s[2..] else s;
    if |digits| != 40 then Failure(InvalidAddress)
    else
      match ParseHex(digits)
      case None => Failure(InvalidAddress)
      case Some(b) => Success(b)
  }

  /** Field k converts: the owner to an address, every other field to an integer. */
  predicate FieldConverts(share: Share, k: nat)
    requires k < SHARE_FIELDS
  {
    if k == 1 then ParseAddress(share.owner).Success? else ParseIntField(share, k).Success?
  }

  /** The error reported when field k does not convert. */
  function FieldError(share: Share, k: nat): Error
    requires k < SHARE_FIELDS
  {
    if k == 1 then InvalidAddress else InvalidInteger(FieldOf(share, k).name)
  }

  /**
   * The value list of `sign_share`: the fields converted in declared order,
   * the first one that does not convert reported.
   */
  function ShareValues(share: Share): (r: Result<seq<AbiValue>>)
    ensures r.Success? ==> WellTyped(SHARE_ABI_TYPES, r.value)
    ensures r.Success? <==>
      ParseAddress(share.owner).Success?
      && forall k :: 0 <= k < SHARE_FIELDS && k != 1 ==> ParseIntField(share, k).Success?
  {
    var id :- ParseIntField(share, 0);
    var owner :- ParseAddress(share.owner);
    var tge :- ParseIntField(share, 2);
    var startTime :- ParseIntField(share, 3);
    var initialAmount :- ParseIntField(share, 4);
    var amountPerSecond :- ParseIntField(share, 5);
    var totalCap :- ParseIntField(share, 6);
    Success([UintValue(id), AddressValue(owner), UintValue(tge), UintValue(startTime),
             UintValue(initialAmount), UintValue(amountPerSecond), UintValue(totalCap)])
  }

  /** Field k is the first field that does not convert. */
  predicate FirstFailure(share: Share, k: nat) {
    k < SHARE_FIELDS && !FieldConverts(share, k)
    && forall j :: 0 <= j < k ==> FieldConverts(share, j)
  }

  /**
   * The value list exists exactly when every field converts; otherwise the
   * error is that of the first field, in declared order, that does not.
   */
  lemma ShareValuesFirstError(share: Share)
    ensures ShareValues(share).Success? <==> forall k :: 0 <= k < SHARE_FIELDS ==> FieldConverts(share, k)
    ensures ShareValues(share).Failure? ==>
      exists k :: FirstFailure(share, k) && ShareValues(share).error == FieldError(share, k)
  {
    var r := ShareValues(share);
    if !FieldConverts(share, 0) {
      assert FirstFailure(share, 0);
    } else if !FieldConverts(share, 1) {
      assert FirstFailure(share, 1);
    } else if !FieldConverts(share, 2) {
      assert FirstFailure(share, 2);
    } else if !FieldConverts(share, 3) {
      assert FirstFailure(share, 3);
    } else if !FieldConverts(share, 4) {
      assert FirstFailure(share, 4);
    } else if !FieldConverts(share, 5) {
      assert FirstFailure(share, 5);
    } else if !FieldConverts(share, 6) {
      assert FirstFailure(share, 6);
    }
  }

  // ---------------------------------------------------- signing oracles

  /** A 32-byte secp256k1 private key. */
  type PrivateKey = k: seq<Byte> | |k| == 32 witness Zeros(32)

  /**
   * The cryptographic primitives: Keccak-256, signing a 32-byte hash with a
   * key (r || s || v), recovering an address from a hash and a signature,
   * and the address of a key.
   */
  datatype Crypto = Crypto(
    keccak: seq<Byte> -> seq<Byte>,
    signHash: (seq<Byte>, PrivateKey) -> seq<Byte>,
    recoverHash: (seq<Byte>, seq<Byte>) -> Option<Address>,
    addressOf: PrivateKey -> Address)

  /**
   * What the signer assumes of the primitives: hashes are 32 bytes,
   * signatures 65, and recovery from a signature made with a key yields
   * that key's address.
   */
  ghost predicate Sound(c: Crypto) {
    && (forall m :: |c.keccak(m)| == 32)
    && (forall h, key :: |h| == 32 ==> |c.signHash(h, key)| == 65)
    && (forall h, key :: |h| == 32 ==> c.recoverHash(h, c.signHash(h, key)) == Some(c.addressOf(key)))
  }

  /**
   * `Account.sign_message`: sign the Keccak hash of the signed bytes; with
   * sound primitives the signature is 65 bytes.
   */
  function SignMessage(c: Crypto, m: SignableMessage, key: PrivateKey): (r: seq<Byte>)
    ensures Sound(c) ==> |r| == 65
  {
    c.signHash(c.keccak(SignedBytes(m)), key)
  }

  /**
   * `Account.recover_message`: recover from the Keccak hash of the signed
   * bytes. With sound primitives, a signature made over the same message
   * with a key recovers that key's address.
   */
  function RecoverMessage(c: Crypto, m: SignableMessage, signature: seq<Byte>): (r: Option<Address>)
    ensures forall key: PrivateKey :: Sound(c) && signature == SignMessage(c, m, key) ==>
      r == Some(c.addressOf(key))
  {
    c.recoverHash(c.keccak(SignedBytes(m)), signature)
  }

  // ------------------------------------------------------------ sign_share

  /** The record `sign_share` returns; byte strings are rendered as by `bytes.hex()`. */
  datatype SignedShare = SignedShare(abiEncoded: string, hash: string, signature: string, signer: Address)

  /**
   * `sign_share`. A field that does not convert is reported before any
   * range error; with sound primitives the final recovery never fails, so
   * the call succeeds exactly when every field converts and every integer
   * is in range.
   */
  function SignShare(c: Crypto, key: PrivateKey, share: Share): (r: Result<SignedShare>)
    ensures ShareValues(share).Failure? ==> r == Failure(ShareValues(share).error)
    ensures ShareValues(share).Success? && !Encodable(SHARE_ABI_TYPES, ShareValues(share).value) ==>
      r == EncodeTuple(SHARE_ABI_TYPES, ShareValues(share).value).PropagateFailure()
    ensures r.Success? ==>
      ShareValues(share).Success? && Encodable(SHARE_ABI_TYPES, ShareValues(share).value)
    ensures r.Success? ==> |r.value.abiEncoded| == 2 * 7 * 32
    ensures Sound(c) ==>
      (r.Success? <==> ShareValues(share).Success? && Encodable(SHARE_ABI_TYPES, ShareValues(share).value))
    ensures Sound(c) && r.Success? ==> r.value.signer == c.addressOf(key)
  {
    var values :- ShareValues(share);
    var encoded :- EncodeTuple(SHARE_ABI_TYPES, values);
    var structHash := c.keccak(encoded);
    var message := EncodeDefunct(structHash);
    var signature := SignMessage(c, message, key);
    match RecoverMessage(c, message, signature)
    case None => Failure(InvalidSignature)
    case Some(signer) => Success(SignedShare(ToHex(encoded), ToHex(structHash), ToHex(signature), signer))
  }

  // --------------------------------------------------------- properties

  /** An address rendered as 40 hex digits, with or without "0x", parses back to itself. */
  lemma ParseAddressOfHex(a: Address)
    ensures ParseAddress(ToHex(a)) == Success(a)
    ensures ParseAddress("0x" + ToHex(a)) == Success(a)
  {
    ParseToHex(a);
    assert ("0x" + ToHex(a))[2..] == ToHex(a);
  }

  /** Address parsing does not see letter case, in the prefix or in the digits. */
  lemma ParseAddressLower(s: string)
    ensures ParseAddress(Lower(s)) == ParseAddress(s)
  {
    if |s| >= 2 {
      assert Lower(s)[2..] == Lower(s[2..]);
      ParseHexLower(s[2..]);
    }
    ParseHexLower(s);
  }

  /**
   * An owner string names the address a exactly when, lower-cased, it is
   * the 40 hex digits of a, with or without "0x" in front.
   */
  lemma ParseAddressExactly(s: string, a: Address)
    ensures ParseAddress(s) == Success(a) <==> Lower(s) == ToHex(a) || Lower(s) == "0x" + ToHex(a)
  {
    if ParseAddress(s) == Success(a) {
      if |s| >= 2 && s[0] == '0' && (s[1] == 'x' || s[1] == 'X') {
        ParseHexRendering(s[2..]);
        assert Lower(s) == [LowerChar(s[0]), LowerChar(s[1])] + Lower(s[2..]);
      } else {
        ParseHexRendering(s);
      }
    }
    if Lower(s) == ToHex(a) || Lower(s) == "0x" + ToHex(a) {
      ParseAddressLower(s);
      ParseAddressOfHex(a);
    }
  }

  /** Two owner strings that differ only in case name the same address. */
  lemma ParseAddressCaseInsensitive(s: string, t: string)
    requires Lower(s) == Lower(t)
    ensures ParseAddress(s) == ParseAddress(t)
  {
    ParseAddressLower(s);
    ParseAddressLower(t);
  }

  /** `sign_share` sees a share only through its converted value list. */
  lemma SignShareOfValues(c: Crypto, key: PrivateKey, a: Share, b: Share)
    requires ShareValues(a) == ShareValues(b)
    ensures SignShare(c, key, a) == SignShare(c, key, b)
  {
  }

  /** Re-casing the owner changes neither the outcome nor any output of `sign_share`. */
  lemma OwnerCaseInsensitive(c: Crypto, key: PrivateKey, share: Share, owner: string)
    requires Lower(share.owner) == Lower(owner)
    ensures SignShare(c, key, share.(owner := owner)) == SignShare(c, key, share)
  {
    var recased := share.(owner := owner);
    assert ShareValues(recased) == ShareValues(share) by {
      ParseAddressCaseInsensitive(share.owner, owner);
    }
    SignShareOfValues(c, key, recased, share);
  }

  /** The integer a decimal field converts to. */
  function IntField(share: Share, k: nat): int
    requires k < SHARE_FIELDS && ParseIntField(share, k).Success?
  {
    ParseIntField(share, k).value
  }

  /** The uint256 fields: every field but the owner. */
  predicate IsUintField(k: nat) { k < SHARE_FIELDS && k != 1 }

  /**
   * The converted list holds field k at position k: the owner's address at
   * position 1 and the integer of every other field at its own position.
   */
  lemma ShareValuesInOrder(share: Share)
    requires ShareValues(share).Success?
    ensures ShareValues(share).value[1] == AddressValue(ParseAddress(share.owner).value)
    ensures forall k: nat :: IsUintField(k) ==> ShareValues(share).value[k] == UintValue(IntField(share, k))
  {
  }

  /**
   * The encoding of a share is 7 words of 32 bytes. Word k holds field k:
   * the owner word is 12 zero bytes followed by the 20 address bytes, and
   * every other word is the 32-byte big-endian form of its integer.
   */
  lemma ShareEncodingLayout(share: Share)
    requires ShareValues(share).Success?
    requires EncodeTuple(SHARE_ABI_TYPES, ShareValues(share).value).Success?
    ensures |EncodeTuple(SHARE_ABI_TYPES, ShareValues(share).value).value| == 7 * 32
    ensures Word(EncodeTuple(SHARE_ABI_TYPES, ShareValues(share).value).value, 1)
      == Zeros(12) + ParseAddress(share.owner).value
    ensures forall k: nat :: IsUintField(k) ==>
      && 0 <= IntField(share, k) < UINT256_BOUND
      && Word(EncodeTuple(SHARE_ABI_TYPES, ShareValues(share).value).value, k)
         == ToBigEndian(IntField(share, k), 32)
  {
    ShareValuesInOrder(share);
    assert forall k: nat :: IsUintField(k) ==> SHARE_ABI_TYPES[k] == Uint256;
  }

  /**
   * A share whose fields all convert is encoded exactly when every integer
   * field lies in 0 .. 2^256 - 1; otherwise the first field outside that
   * range is reported, never wrapped.
   */
  lemma ShareRangeCheck(share: Share)
    requires ShareValues(share).Success?
    ensures EncodeTuple(SHARE_ABI_TYPES, ShareValues(share).value).Success? <==>
      forall k: nat :: IsUintField(k) ==> 0 <= IntField(share, k) < UINT256_BOUND
    ensures EncodeTuple(SHARE_ABI_TYPES, ShareValues(share).value).Failure? ==>
      exists k: nat :: IsUintField(k) && !(0 <= IntField(share, k) < UINT256_BOUND)
        && EncodeTuple(SHARE_ABI_TYPES, ShareValues(share).value) == Failure(ValueOutOfBounds(k))
        && forall j: nat :: IsUintField(j) && j < k ==> 0 <= IntField(share, j) < UINT256_BOUND
  {
    var vs := ShareValues(share).value;
    ShareValuesInOrder(share);
    forall k: nat | k < SHARE_FIELDS
      ensures EncodeValue(SHARE_ABI_TYPES[k], vs[k], k).Success?
        <==> (IsUintField(k) ==> 0 <= IntField(share, k) < UINT256_BOUND)
      ensures EncodeValue(SHARE_ABI_TYPES[k], vs[k], k).Failure? ==>
        EncodeValue(SHARE_ABI_TYPES[k], vs[k], k) == Failure(ValueOutOfBounds(k))
    {
      if k != 1 {
        assert SHARE_ABI_TYPES[k] == Uint256;
      }
    }
    var r := EncodeTuple(SHARE_ABI_TYPES, vs);
    if r.Failure? {
      var k :| 0 <= k < 7 && Encodable(SHARE_ABI_TYPES[..k], vs[..k])
        && EncodeValue(SHARE_ABI_TYPES[k], vs[k], k) == r;
      forall j: nat | IsUintField(j) && j < k
        ensures 0 <= IntField(share, j) < UINT256_BOUND
      {
        assert SHARE_ABI_TYPES[..k][j] == SHARE_ABI_TYPES[j] && vs[..k][j] == vs[j];
      }
    }
  }

  /** `int("-1")` as the `id` is rejected rather than wrapped. */
  lemma NegativeIdRejected(c: Crypto, key: PrivateKey, share: Share)
    requires ShareValues(share).Success? && share.id == "-1"
    ensures SignShare(c, key, share) == Failure(ValueOutOfBounds(0))
  {
    assert "-1"[1..] == "1" && DigitsValue("1") == 1;
    assert IntField(share, 0) == -1;
    ShareRangeCheck(share);
  }

  /** 2^256 written in decimal is rejected rather than wrapped to 0. */
  lemma OverflowingIdRejected(c: Crypto, key: PrivateKey, share: Share)
    requires ShareValues(share).Success? && share.id == DecimalString(UINT256_BOUND)
    ensures SignShare(c, key, share) == Failure(ValueOutOfBounds(0))
  {
    ParseDecimalString(UINT256_BOUND);
    ShareRangeCheck(share);
    assert IntField(share, 0) == UINT256_BOUND;
  }

  /** Swapping two unequal values of the list changes (or invalidates) the encoding. */
  lemma SwapChangesEncoding(values: seq<AbiValue>, i: nat, j: nat)
    requires i < |values| && j < |values| && values[i] != values[j]
    requires EncodeTuple(SHARE_ABI_TYPES, values).Success?
    ensures EncodeTuple(SHARE_ABI_TYPES, values[i := values[j]][j := values[i]])
      != EncodeTuple(SHARE_ABI_TYPES, values)
  {
    var swapped := values[i := values[j]][j := values[i]];
    assert swapped[i] == values[j];
    if EncodeTuple(SHARE_ABI_TYPES, swapped) == EncodeTuple(SHARE_ABI_TYPES, values) {
      EncodeTupleInjective(SHARE_ABI_TYPES, values, swapped);
    }
  }

  /**
   * A successful `sign_share`, given sound primitives, returns the
   * rendering of the encoding, of its Keccak hash and of the signature over
   * the framed hash, and the issuer address as `signer`.
   */
  lemma SignShareRecord(c: Crypto, key: PrivateKey, share: Share)
    requires Sound(c)
    ensures SignShare(c, key, share).Success? ==>
      && ShareValues(share).Success?
      && Encodable(SHARE_ABI_TYPES, ShareValues(share).value)
      && var encoded := EncodeTuple(SHARE_ABI_TYPES, ShareValues(share).value).value;
         var structHash := c.keccak(encoded);
         SignShare(c, key, share) == Success(SignedShare(
           ToHex(encoded),
           ToHex(structHash),
           ToHex(SignMessage(c, EncodeDefunct(structHash), key)),
           c.addressOf(key)))
  {
  }

  /**
   * The `abiEncoded` field of a successful `sign_share` spells 224 bytes
   * that decode to exactly the converted values.
   */
  lemma SignShareEncoding(c: Crypto, key: PrivateKey, share: Share)
    requires Sound(c)
    ensures SignShare(c, key, share).Success? ==>
      && ShareValues(share).Success?
      && ParseHex(SignShare(c, key, share).value.abiEncoded).Some?
      && |ParseHex(SignShare(c, key, share).value.abiEncoded).value| == 224
      && DecodeTuple(SHARE_ABI_TYPES, ParseHex(SignShare(c, key, share).value.abiEncoded).value)
         == Success(ShareValues(share).value)
  {
    SignShareRecord(c, key, share);
    if SignShare(c, key, share).Success? {
      var encoded := EncodeTuple(SHARE_ABI_TYPES, ShareValues(share).value).value;
      ParseToHex(encoded);
      DecodeEncodeTuple(SHARE_ABI_TYPES, ShareValues(share).value);
    }
  }

  /**
   * A successful `sign_share`, given sound primitives: `hash` spells the
   * 32-byte Keccak hash of the encoding, `signature` spells the 65 bytes
   * signed over the hash of 0x19 || "Ethereum Signed Message:\n32" || hash,
   * and `signer` is the issuer address.
   */
  lemma SignShareResult(c: Crypto, key: PrivateKey, share: Share)
    requires Sound(c)
    ensures SignShare(c, key, share).Success? ==>
      && ShareValues(share).Success?
      && Encodable(SHARE_ABI_TYPES, ShareValues(share).value)
      && SignShare(c, key, share).value.signer == c.addressOf(key)
      && var structHash := c.keccak(EncodeTuple(SHARE_ABI_TYPES, ShareValues(share).value).value);
         && |structHash| == 32
         && ParseHex(SignShare(c, key, share).value.hash) == Some(structHash)
         && ParseHex(SignShare(c, key, share).value.signature)
            == Some(c.signHash(c.keccak(DIGEST_MESSAGE_PREFIX + structHash), key))
         && |SignShare(c, key, share).value.signature| == 2 * 65
  {
    SignShareRecord(c, key, share);
    if SignShare(c, key, share).Success? {
      var structHash := c.keccak(EncodeTuple(SHARE_ABI_TYPES, ShareValues(share).value).value);
      var message := EncodeDefunct(structHash);
      var signature := SignMessage(c, message, key);
      assert signature == c.signHash(c.keccak(DIGEST_MESSAGE_PREFIX + structHash), key) by {
        PersonalSignOfDigest(structHash);
      }
      ParseToHex(structHash);
      ParseToHex(signature);
    }
  }
}
