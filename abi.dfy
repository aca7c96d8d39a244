/**
 * The contract ABI encoding of a tuple of static types, as eth_abi's
 * `encode(types, values)` performs it for the two types the signer uses
 * (Solidity ABI specification, "Formal Specification of the Encoding"):
 * a `uint256` is one 32-byte big-endian word, an `address` is a uint160
 * left-padded with zeros to 32 bytes, and a tuple of static types is the
 * concatenation of its element encodings. Decoding is the partner that
 * reads such bytes back.
 */
module Abi {
  import opened Results
  import opened Bytes

  /** A 20-byte account address. */
  type Address = a: seq<Byte> | |a| == 20 witness Zeros(20)

  /** Zero bytes in front of an address inside its word. */
  const ADDRESS_PADDING: nat := 12

  datatype AbiType = Uint256 | AddressType

  datatype AbiValue = UintValue(n: int) | AddressValue(a: Address)

  /** Word k of an encoding. */
  function Word(e: seq<Byte>, k: nat): seq<Byte>
    requires 32 * k + 32 <= |e|
  {
    e[32 * k .. 32 * k + 32]
  }

  /**
   * Validates value `index` of a tuple against its type and writes its word.
   * A `uint256` outside 0 .. 2^256 - 1 is rejected, never wrapped.
   */
  function EncodeValue(t: AbiType, v: AbiValue, index: nat): (r: Result<seq<Byte>>)
    ensures r.Success? ==> |r.value| == WORD_SIZE
    ensures r.Failure? ==> r.error in {ValueOutOfBounds(index), EncodingTypeError(index)}
  {
    match t
    case Uint256 =>
      if !v.UintValue? then Failure(EncodingTypeError(index))
      else if 0 <= v.n < UINT256_BOUND then Success(ToBigEndian(v.n, WORD_SIZE))
      else Failure(ValueOutOfBounds(index))
    case AddressType =>
      if v.AddressValue? then Success(Zeros(ADDRESS_PADDING) + v.a)
      else Failure(EncodingTypeError(index))
  }

  /** One value per type, and each value valid for its type. */
  predicate Encodable(types: seq<AbiType>, values: seq<AbiValue>) {
    |types| == |values|
    && forall k :: 0 <= k < |types| ==> EncodeValue(types[k], values[k], k).Success?
  }

  /** One value per type, each of the kind its type asks for (an address or an integer). */
  predicate WellTyped(types: seq<AbiType>, values: seq<AbiValue>) {
    |types| == |values|
    && forall k :: 0 <= k < |types| ==> (types[k] == AddressType <==> values[k].AddressValue?)
  }

  /** `encode(types, values)` for a tuple of static types. */
  function EncodeTuple(types: seq<AbiType>, values: seq<AbiValue>): (r: Result<seq<Byte>>)
    ensures r.Success? <==> Encodable(types, values)
    ensures r.Success? ==>
      && |r.value| == 32 * |types|
      && forall k :: 0 <= k < |types| ==> Word(r.value, k) == EncodeValue(types[k], values[k], k).value
    ensures r.Failure? && |types| == |values| ==>
      exists k :: 0 <= k < |types| && Encodable(types[..k], values[..k])
        && EncodeValue(types[k], values[k], k) == r
  {
    // eth_abi raises ValueOutOfBounds here; `sign_share` never reaches it.
    if |types| != |values| then Failure(ArityMismatch)
    else
      EncodeHeadsSucceeds(types, values);
      EncodeHeadsWords(types, values);
      EncodeHeadsFirstFailure(types, values);
      EncodeHeads(types, values)
  }

  /** The heads of all values, validated left to right; the first invalid value is reported. */
  function EncodeHeads(types: seq<AbiType>, values: seq<AbiValue>): (r: Result<seq<Byte>>)
    requires |types| == |values|
    ensures r.Success? ==> |r.value| == 32 * |types|
    decreases |types|
  {
    if types == [] then Success([])
    else
      var n := |types| - 1;
      match EncodeHeads(types[..n], values[..n])
      case Failure(e) => Failure(e)
      case Success(heads) =>
        match EncodeValue(types[n], values[n], n)
        case Failure(e) => Failure(e)
        case Success(w) => Success(heads + w)
  }

  /** Validity of a prefix of the values. */
  lemma EncodablePrefix(types: seq<AbiType>, values: seq<AbiValue>, n: nat)
    requires |types| == |values| && n <= |types|
    ensures Encodable(types[..n], values[..n]) <==>
      forall k :: 0 <= k < n ==> EncodeValue(types[k], values[k], k).Success?
  {
    assert forall k :: 0 <= k < n ==> types[..n][k] == types[k] && values[..n][k] == values[k];
  }

  /** The heads are written exactly when every value is valid for its type. */
  lemma {:induction false} EncodeHeadsSucceeds(types: seq<AbiType>, values: seq<AbiValue>)
    requires |types| == |values|
    ensures EncodeHeads(types, values).Success? <==> Encodable(types, values)
    decreases |types|
  {
    if types != [] {
      var n := |types| - 1;
      EncodeHeadsSucceeds(types[..n], values[..n]);
      EncodablePrefix(types, values, n);
    }
  }

  /** Word k of the heads is the word of value k. */
  lemma {:induction false} EncodeHeadsWords(types: seq<AbiType>, values: seq<AbiValue>)
    requires |types| == |values|
    ensures EncodeHeads(types, values).Success? ==>
      forall k :: 0 <= k < |types| ==>
        && EncodeValue(types[k], values[k], k).Success?
        && Word(EncodeHeads(types, values).value, k) == EncodeValue(types[k], values[k], k).value
    decreases |types|
  {
    if types != [] && EncodeHeads(types, values).Success? {
      var n := |types| - 1;
      EncodeHeadsWords(types[..n], values[..n]);
      EncodeHeadsSucceeds(types, values);
      var heads := EncodeHeads(types[..n], values[..n]).value;
      var w := EncodeValue(types[n], values[n], n).value;
      assert EncodeHeads(types, values).value == heads + w;
      forall k | 0 <= k < |types|
        ensures Word(heads + w, k) == EncodeValue(types[k], values[k], k).value
      {
        if k < n {
          assert Word(heads + w, k) == Word(heads, k);
          assert types[..n][k] == types[k] && values[..n][k] == values[k];
        } else {
          assert Word(heads + w, n) == w;
        }
      }
    }
  }

  /** A failure of the heads is the failure of the first invalid value. */
  lemma {:induction false} EncodeHeadsFirstFailure(types: seq<AbiType>, values: seq<AbiValue>)
    requires |types| == |values|
    ensures EncodeHeads(types, values).Failure? ==>
      exists k :: 0 <= k < |types| && Encodable(types[..k], values[..k])
        && EncodeValue(types[k], values[k], k) == EncodeHeads(types, values)
    decreases |types|
  {
    if types != [] && EncodeHeads(types, values).Failure? {
      var n := |types| - 1;
      if EncodeHeads(types[..n], values[..n]).Failure? {
        EncodeHeadsFirstFailure(types[..n], values[..n]);
        var k :| 0 <= k < n && Encodable(types[..n][..k], values[..n][..k])
          && EncodeValue(types[..n][k], values[..n][k], k) == EncodeHeads(types[..n], values[..n]);
        assert types[..n][..k] == types[..k] && values[..n][..k] == values[..k];
      } else {
        EncodeHeadsSucceeds(types[..n], values[..n]);
      }
    }
  }

  /** Reads one word as a value of type t. */
  function DecodeValue(t: AbiType, w: seq<Byte>, index: nat): Result<AbiValue>
    requires |w| == WORD_SIZE
  {
    match t
    case Uint256 => Success(UintValue(FromBigEndian(w)))
    case AddressType =>
      if w[..ADDRESS_PADDING] == Zeros(ADDRESS_PADDING) then Success(AddressValue(w[ADDRESS_PADDING..]))
      else Failure(NonEmptyPadding(index))
  }

  /** Reads one value per type from exactly |types| words. */
  function DecodeTuple(types: seq<AbiType>, data: seq<Byte>): (r: Result<seq<AbiValue>>)
    ensures r.Success? ==> |r.value| == |types|
  {
    if |data| != 32 * |types| then Failure(InsufficientData) else DecodeHeads(types, data)
  }

  function DecodeHeads(types: seq<AbiType>, data: seq<Byte>): (r: Result<seq<AbiValue>>)
    requires |data| == 32 * |types|
    ensures r.Success? ==> |r.value| == |types|
    decreases |types|
  {
    if types == [] then Success([])
    else
      var n := |types| - 1;
      match DecodeHeads(types[..n], data[..32 * n])
      case Failure(e) => Failure(e)
      case Success(vs) =>
        match DecodeValue(types[n], data[32 * n..], n)
        case Failure(e) => Failure(e)
        case Success(v) => Success(vs + [v])
  }

  /** A word written for a value reads back as that value. */
  lemma DecodeEncodeValue(t: AbiType, v: AbiValue, k: nat)
    requires EncodeValue(t, v, k).Success?
    ensures DecodeValue(t, EncodeValue(t, v, k).value, k) == Success(v)
  {
    if t == Uint256 {
      FromToBigEndian(v.n, WORD_SIZE);
    } else {
      var w := EncodeValue(t, v, k).value;
      assert w[..ADDRESS_PADDING] == Zeros(ADDRESS_PADDING) && w[ADDRESS_PADDING..] == v.a;
    }
  }

  /** A word that reads as a value is exactly the word written for that value. */
  lemma EncodeDecodeValue(t: AbiType, w: seq<Byte>, k: nat)
    requires |w| == WORD_SIZE && DecodeValue(t, w, k).Success?
    ensures EncodeValue(t, DecodeValue(t, w, k).value, k) == Success(w)
  {
    if t == Uint256 {
      ToFromBigEndian(w);
    } else {
      assert w == w[..ADDRESS_PADDING] + w[ADDRESS_PADDING..];
    }
  }

  /** Decoding an encoding returns exactly the encoded values. */
  lemma {:induction false} DecodeEncodeTuple(types: seq<AbiType>, values: seq<AbiValue>)
    requires EncodeTuple(types, values).Success?
    ensures DecodeTuple(types, EncodeTuple(types, values).value) == Success(values)
    decreases |types|
  {
    if types != [] {
      var n := |types| - 1;
      var e := EncodeTuple(types, values).value;
      var pre := EncodeTuple(types[..n], values[..n]);
      assert Encodable(types[..n], values[..n]) by {
        forall k | 0 <= k < n ensures EncodeValue(types[..n][k], values[..n][k], k).Success? {
          assert types[..n][k] == types[k] && values[..n][k] == values[k];
        }
      }
      assert pre.Success?;
      assert e[..32 * n] == pre.value by {
        forall k | 0 <= k < n ensures Word(e[..32 * n], k) == Word(pre.value, k) {
          assert Word(e[..32 * n], k) == Word(e, k);
          assert types[..n][k] == types[k] && values[..n][k] == values[k];
        }
        WordsDetermine(e[..32 * n], pre.value, n);
      }
      DecodeEncodeTuple(types[..n], values[..n]);
      assert e[32 * n..] == Word(e, n);
      DecodeEncodeValue(types[n], values[n], n);
      assert values[..n] + [values[n]] == values;
    }
  }

  /** Two byte strings of n words that agree word by word are equal. */
  lemma WordsDetermine(a: seq<Byte>, b: seq<Byte>, n: nat)
    requires |a| == 32 * n && |b| == 32 * n
    requires forall k :: 0 <= k < n ==> Word(a, k) == Word(b, k)
    ensures a == b
  {
    forall i | 0 <= i < |a| ensures a[i] == b[i] {
      var k := i / 32;
      assert Word(a, k)[i - 32 * k] == a[i];
      assert Word(b, k)[i - 32 * k] == b[i];
    }
  }

  /** Decoded value k is what word k of the data reads as. */
  lemma {:induction false} DecodeTupleWords(types: seq<AbiType>, data: seq<Byte>)
    requires DecodeTuple(types, data).Success?
    ensures forall k :: 0 <= k < |types| ==>
      DecodeValue(types[k], Word(data, k), k) == Success(DecodeTuple(types, data).value[k])
    decreases |types|
  {
    if types != [] {
      var n := |types| - 1;
      var vs := DecodeTuple(types, data).value;
      var pre := data[..32 * n];
      DecodeTupleWords(types[..n], pre);
      forall k | 0 <= k < n
        ensures DecodeValue(types[k], Word(data, k), k) == Success(vs[k])
      {
        assert Word(pre, k) == Word(data, k);
        assert types[..n][k] == types[k];
      }
      assert Word(data, n) == data[32 * n..];
    }
  }

  /** Bytes that decode to some values are exactly the encoding of those values. */
  lemma EncodeDecodeTuple(types: seq<AbiType>, data: seq<Byte>)
    requires DecodeTuple(types, data).Success?
    ensures EncodeTuple(types, DecodeTuple(types, data).value) == Success(data)
  {
    var vs := DecodeTuple(types, data).value;
    DecodeTupleWords(types, data);
    forall k | 0 <= k < |types| ensures EncodeValue(types[k], vs[k], k) == Success(Word(data, k)) {
      EncodeDecodeValue(types[k], Word(data, k), k);
    }
    assert Encodable(types, vs);
    WordsDetermine(EncodeTuple(types, vs).value, data, |types|);
  }

  /** The encoding is injective: equal encodings come from equal value lists. */
  lemma EncodeTupleInjective(types: seq<AbiType>, a: seq<AbiValue>, b: seq<AbiValue>)
    requires EncodeTuple(types, a).Success? && EncodeTuple(types, a) == EncodeTuple(types, b)
    ensures a == b
  {
    DecodeEncodeTuple(types, a);
    DecodeEncodeTuple(types, b);
  }

  /**
   * Boundary words: 0 and the zero address are 32 zero bytes, 2^256 - 1 is
   * 32 bytes of 0xFF, and 2^256 and -1 are rejected.
   */
  lemma BoundaryWords(k: nat)
    ensures EncodeValue(Uint256, UintValue(0), k) == Success(Zeros(32))
    ensures EncodeValue(Uint256, UintValue(UINT256_BOUND - 1), k) == Success(AllOnes(32))
    ensures EncodeValue(AddressType, AddressValue(Zeros(20)), k) == Success(Zeros(32))
    ensures EncodeValue(Uint256, UintValue(UINT256_BOUND), k) == Failure(ValueOutOfBounds(k))
    ensures EncodeValue(Uint256, UintValue(-1), k) == Failure(ValueOutOfBounds(k))
  {
    ZeroWord(32);
    MaxWord(32);
    assert Zeros(ADDRESS_PADDING) + Zeros(20) == Zeros(32);
  }
}
