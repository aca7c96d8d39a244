# Vesting-share claim signer, modelled in Dafny

The modelled system signs "vesting share" claims for later on-chain verification.
`sign_share` (`src/distributors/signer.py`) takes a share of seven text fields: `id`, `owner`, `tge`, `startTime`, `initialAmount`, `amountPerSecond` and `totalCap`. It works in five steps:

1. **Normalise.** The six decimal fields go through Python's `int()`. The owner goes through `to_checksum_address`.
2. **Encode.** The seven values are ABI-encoded as the static tuple `SHARE_ABI_TYPES`: `uint256, address, uint256 x 5`. This follows the Solidity ABI specification's "Formal Specification of the Encoding".
3. **Hash.** The encoding is hashed with Keccak-256. The result is the struct hash.
4. **Frame.** The struct hash is wrapped as an EIP-191 version 0x45 (personal_sign) message.
5. **Sign and recover.** The message is signed with the issuer key, and the signer is recovered from the signature.

It returns the hex of the encoding, of the hash and of the signature, together with the recovered signer.

Files, one module each:

- `results.dfy` (`Results`): the `Option` and `Result` wrappers, and the error kinds of the pipeline.
- `bytes.dfy` (`Bytes`): bytes, the bound 2^256, and fixed-width big-endian words.
- `text.dfy` (`Text`): Python `int(s)` and `str(n)` on decimals, hex parsing (either case) and `bytes.hex()` rendering, and ASCII lower-casing.
- `abi.dfy` (`Abi`): eth_abi `encode` for a tuple of `uint256`/`address` values. It also has a decoder, the encoder's partner.
- `eip191.dfy` (`Eip191`): `encode_defunct` and the bytes that `sign_message` hashes.
- `signer.dfy` (`ShareSigner`): field normalisation, `SHARE_ABI_TYPES` and `sign_share`.

Keccak-256 and secp256k1 are not modelled. They are the function-valued fields of a `Crypto` record: `keccak`, `signHash`, `recoverHash` and `addressOf`. The ghost predicate `Sound` states what the signer relies on:

- hashes are 32 bytes;
- signatures are 65 bytes;
- recovering from a signature made with a key yields that key's address.

Every lemma about signing takes `Sound` as a hypothesis. Nothing is assumed as an axiom.

Two behaviours of the code and the libraries it calls are easy to misread; the model follows the code:

- **Owner prefix.** `to_checksum_address` accepts an owner with or without the `0x` prefix, and also `0X`. Only the 40 hex digits are required, in any letter case. The model accepts the same strings.
- **Error precedence.** Python evaluates the value list in order before `encode` runs. So a field that does not convert is reported first, in field order. Only then is an out-of-range integer reported, again the first one in field order.

## Model

| member | source | states |
|---|---|---|
| `Bytes.FromToBigEndian` | src/distributors/signer.py:15-21 | reading a big-endian word back gives the integer that was written |
| `Bytes.ToFromBigEndian` | src/distributors/signer.py:15-21 | every byte string is the big-endian word of its own value, so words and in-range integers are in bijection |
| `Bytes.ToBigEndianInjective` | src/distributors/signer.py:15-21 | distinct integers of one width give distinct words |
| `Bytes.ZeroWord` | src/distributors/signer.py:15 | 0 is written as all-zero bytes |
| `Bytes.MaxWord` | src/distributors/signer.py:15 | the largest value of a width is written as all-0xFF bytes |
| `Bytes.Uint256Bound` | src/distributors/signer.py:15 | the uint256 bound is exactly 2^256 |
| `Bytes.ToBigEndian` | src/distributors/signer.py:15-21 | an integer below 256^width is written as exactly `width` bytes |
| `Bytes.FromBigEndian` | src/distributors/signer.py:15-21 | the value read from n bytes is below 256^n |
| `Text.DecimalString` | src/distributors/signer.py:72 | `str(n)` is a non-empty digit string with no leading zero, except "0" itself |
| `Text.ParseInt` | src/distributors/signer.py:55-63 | `int(s)` gives a value only for a non-empty string; a value below 0 needs a leading '-', and an unsigned numeral gives a value of at least 0; the numeral has at most 4300 digits |
| `Text.ParseIntDigitLimit` | src/distributors/signer.py:55-63 | a numeral of more than 4300 digits is rejected, with or without a '-' |
| `Text.DigitsOfDecimalString` | src/distributors/signer.py:72 | the digits of `str(n)` read back as n |
| `Text.ParseDecimalString` | src/distributors/signer.py:56 | for n of at most 4300 digits, `int(str(n)) == n` and `int("-" + str(n)) == -n` |
| `Text.ZeroText` | src/distributors/signer.py:55-63 | z zeros: the leading zeros `int()` accepts in front of a numeral |
| `Text.LeadingZeroValue` | src/distributors/signer.py:55-63 | leading zeros do not change the value of a digit string |
| `Text.PositiveValue` | src/distributors/signer.py:55-63 | a numeral that does not start with '0' has a positive value |
| `Text.CanonicalNumeral` | src/distributors/signer.py:55-63 | a numeral with no leading zero is `str` of its own value |
| `Text.NumeralRendering` | src/distributors/signer.py:55-63 | every numeral is some zeros followed by `str` of its value |
| `Text.ParsePaddedDecimal` | src/distributors/signer.py:55-63 | `int()` accepts an optional '-', any number of zeros and `str(n)` within the digit limit, giving n or -n |
| `Text.ParseIntRendering` | src/distributors/signer.py:55-63 | every string `int()` accepts is an optional '-', some zeros and `str` of the magnitude of its value; so `"12a"` and every other string of another shape is rejected |
| `Text.ParseHex` | src/distributors/signer.py:57 | a parsed hex string has two digits per byte |
| `Text.ParseHexRendering` | src/distributors/signer.py:57 | a string that parses is, lower-cased, exactly the `bytes.hex()` rendering of what it parses to, so nothing but an even run of hex digits is accepted |
| `Text.ToHex` | src/distributors/signer.py:78-80 | `bytes.hex()` has two lower-case hex digits per byte |
| `Text.ParseToHex` | src/distributors/signer.py:78-80 | parsing the hex rendering of bytes gives the bytes back |
| `Text.ParseHexLower` | src/distributors/signer.py:57 | hex parsing reads A-F exactly as a-f |
| `Text.ParseHexCaseInsensitive` | src/distributors/signer.py:57 | strings that differ only in letter case spell the same bytes |
| `Abi.EncodeValue` | src/distributors/signer.py:14-22 | a valid value takes one 32-byte word; a failure is a range error or a type error for that value's index |
| `Abi.EncodeTuple` | src/distributors/signer.py:66 | encoding succeeds exactly when there is one valid value per type; the result is 32 bytes per type, word k being the encoding of value k; on failure, the error is that of the first invalid value |
| `Abi.EncodeHeads` | src/distributors/signer.py:66 | written heads are 32 bytes per value, proved from the recursive calls' contracts |
| `Abi.EncodeHeadsSucceeds` | src/distributors/signer.py:66 | the heads are written exactly when every value is valid for its type |
| `Abi.EncodeHeadsWords` | src/distributors/signer.py:66 | word k of written heads is the word of value k |
| `Abi.EncodeHeadsFirstFailure` | src/distributors/signer.py:66 | a failure is the failure of the first invalid value, all values before it being valid |
| `Abi.DecodeTuple` | src/distributors/signer.py:66 | decoding exactly one word per type gives one value per type |
| `Abi.DecodeHeads` | src/distributors/signer.py:66 | decoding of the words, last word last, gives one value per type |
| `Abi.DecodeEncodeValue` | src/distributors/signer.py:14-22 | a word written for a value reads back as that value |
| `Abi.EncodeDecodeValue` | src/distributors/signer.py:14-22 | a word that reads as a value is exactly the word written for it, so zero padding is the only address padding |
| `Abi.DecodeEncodeTuple` | src/distributors/signer.py:66 | decoding an encoding returns exactly the encoded values |
| `Abi.DecodeTupleWords` | src/distributors/signer.py:66 | decoded value k is what word k reads as |
| `Abi.EncodeDecodeTuple` | src/distributors/signer.py:66 | bytes that decode to some values are exactly the encoding of those values |
| `Abi.EncodeTupleInjective` | src/distributors/signer.py:66 | equal encodings come from equal value lists |
| `Abi.BoundaryWords` | src/distributors/signer.py:14-22 | 0 and the zero address encode as 32 zero bytes, 2^256-1 as 32 bytes of 0xFF; 2^256 and -1 are rejected as out of bounds |
| `Eip191.PersonalSignOfDigest` | src/distributors/signer.py:72 | a 32-byte digest is framed as 0x19, "Ethereum Signed Message:\n32", digest: 60 bytes, with the digest as the last 32 |
| `Eip191.EncodeDefunct` | src/distributors/signer.py:72 | the body is kept, and the version byte followed by the header spells "Ethereum Signed Message:\n" and the body's decimal length |
| `Eip191.SignedBytes` | src/distributors/signer.py:75 | the signed bytes are 0x19, the version, the header and the body, each starting where the previous ends |
| `Eip191.PersonalSignBytes` | src/distributors/signer.py:72-75 | a body of any length is signed as 0x19, the ASCII text "Ethereum Signed Message:\n" with its decimal length, then the body |
| `Eip191.PersonalSignInjective` | src/distributors/signer.py:72 | different 32-byte digests give different framed messages |
| `ShareSigner.ParseIntField` | src/distributors/signer.py:55-63 | field k converts exactly when `int()` accepts its text; a failure names that field |
| `ShareSigner.ParseAddress` | src/distributors/signer.py:57 | an owner that converts is 40 or 42 characters long; a failure is an invalid-address error |
| `ShareSigner.ParseAddressExactly` | src/distributors/signer.py:57 | an owner names address a exactly when, lower-cased, it is the 40 hex digits of a with or without "0x" |
| `ShareSigner.ShareValues` | src/distributors/signer.py:55-63 | the value list fits `SHARE_ABI_TYPES` kind by kind, and it exists exactly when the owner and all six integer fields convert |
| `ShareSigner.ShareValuesFirstError` | src/distributors/signer.py:55-63 | the value list exists exactly when every field converts; otherwise its error is that of the first field, in declared order, that does not |
| `ShareSigner.ShareValuesInOrder` | src/distributors/signer.py:55-63 | position k of the value list holds field k: the owner address at 1, each integer field at its own position |
| `ShareSigner.ParseAddressOfHex` | src/distributors/signer.py:57 | an address written as 40 hex digits, with or without "0x", parses back to itself |
| `ShareSigner.ParseAddressLower` | src/distributors/signer.py:57 | lower-casing an owner string does not change what it parses to |
| `ShareSigner.ParseAddressCaseInsensitive` | src/distributors/signer.py:57 | owner strings that differ only in case name the same address |
| `ShareSigner.OwnerCaseInsensitive` | src/distributors/signer.py:55-66 | re-casing the owner changes neither the outcome nor any output of `sign_share` |
| `ShareSigner.ShareEncodingLayout` | src/distributors/signer.py:55-66 | a share encodes to 7 x 32 = 224 bytes; word 1 is 12 zero bytes followed by the owner address; word k of every other field is the 32-byte big-endian form of its in-range integer |
| `ShareSigner.ShareRangeCheck` | src/distributors/signer.py:55-66 | a converted share encodes exactly when all six integers lie in 0..2^256-1; otherwise the first out-of-range field is reported, and no value is wrapped |
| `ShareSigner.NegativeIdRejected` | src/distributors/signer.py:56 | an `id` of "-1" makes `sign_share` fail with an out-of-bounds error on field 0 |
| `ShareSigner.OverflowingIdRejected` | src/distributors/signer.py:56 | an `id` of 2^256 in decimal makes `sign_share` fail with an out-of-bounds error on field 0 |
| `ShareSigner.SwapChangesEncoding` | src/distributors/signer.py:55-66 | swapping two unequal values of an encodable share changes the encoding or makes it fail |
| `ShareSigner.SignMessage` | src/distributors/signer.py:75 | with sound primitives the signature is 65 bytes |
| `ShareSigner.RecoverMessage` | src/distributors/signer.py:81 | with sound primitives, recovering from a signature made with a key over the same message yields that key's address |
| `ShareSigner.SignShare` | src/distributors/signer.py:53-82 | a field that does not convert is reported before anything else, then the encoding error; a result holds a 448-digit encoding; with sound primitives it succeeds exactly when every field converts and every integer is in range, and `signer` is the issuer address |
| `ShareSigner.SignShareOfValues` | src/distributors/signer.py:53-82 | `sign_share` depends on a share only through its converted value list |
| `ShareSigner.SignShareRecord` | src/distributors/signer.py:77-82 | a successful result holds the hex of the encoding, of its Keccak hash and of the signature over the framed hash, and the key's address as signer |
| `ShareSigner.SignShareEncoding` | src/distributors/signer.py:66-78 | `abiEncoded` spells 224 bytes that decode to exactly the converted values |
| `ShareSigner.SignShareResult` | src/distributors/signer.py:69-81 | `hash` spells the 32-byte Keccak hash of the encoding; `signature` spells the 65 bytes signed over the Keccak hash of the 28-byte personal-sign prefix followed by that hash; `signer` is the issuer address |

## Left out

- **Keccak-256 internals** (line 69): a foreign cryptographic primitive. It is the uninterpreted field `Crypto.keccak`.
- **secp256k1 signing and recovery** (lines 75, 81): elliptic-curve arithmetic in a foreign library. They are abstract fields, linked only by the hypothesis `Sound`.
- **Tamper detection**: the claim that a changed encoding changes the hash, or that an old signature then recovers a different address, needs collision resistance. The model does not state it. What it does prove is that the encoding, and the framing of 32-byte digests, are injective.
- **EIP-55 checksum casing** of `to_checksum_address` (line 57) and of the recovered signer (line 81): it needs Keccak and only affects display. Owners parse case-insensitively to 20 bytes, and `signer` is the 20-byte address, not its checksummed text.
- **Key configuration** (lines 10-11): loading `MASTER_PRIVATE_KEY` and the failure of `Account.from_key` on a malformed key. The model's `PrivateKey` is any 32 bytes, including 0 and values at or above the secp256k1 group order that `Account.from_key` would refuse; `Sound` asks the abstract primitives to behave on all of them. `MASTER_ADDRESS` is `Crypto.addressOf(key)`.
- **Sample shares and driver** (lines 28-47, 88-93): data and `print` output.
- Text.ParseInt: keeps CPython's default limit of 4300 digits for decimal strings. The limit can be changed at run time (`sys.set_int_max_str_digits`, `PYTHONINTMAXSTRDIGITS`), and the model does not follow such a change.
- **Python `int()` leniency**: surrounding whitespace, `_` separators, a leading `+` and non-ASCII digits are rejected by the model. Python accepts them.
- **Case folding**: it is ASCII only. Non-ASCII letters never spell hex digits, so parsing is unaffected.
- **`HexBytes.hex()` prefix**: `signature` is rendered without a `0x` prefix, as `hexbytes` 1.x does. Older `hexbytes` versions add the prefix.
- **Decoding**: the ABI decoder is the partner of the encoder, not code of the source. It accepts exactly one word per type and rejects non-zero address padding.
- **Tuple arity**: `Abi.EncodeTuple` reports a value count that differs from the type count as its own `ArityMismatch` error, where eth_abi raises `ValueOutOfBounds`. `sign_share` always passes seven values for seven types (lines 55-66), so the case never arises in the modelled pipeline.
- **Consistency checks**: nothing checks that `totalCap >= initialAmount`, or that the times are consistent with each other. The source does not check these either.
- Eip191.PersonalSignInjective: is stated for 32-byte bodies only, the only length `sign_share` frames.
