/**
 * EIP-191 signed data, version 0x45 ("E", personal_sign), as eth_account's
 * `encode_defunct` builds it and `sign_message` hashes it:
 *   0x19 || "E" || "thereum Signed Message:\n" || decimal length of body || body.
 */
module Eip191 {
  import opened Bytes
  import opened Text

  /** A message ready for signing: version byte, header and body. */
  datatype SignableMessage = SignableMessage(version: Byte, header: seq<Byte>, body: seq<Byte>)

  /** Byte that opens every EIP-191 signed-data message. */
  const EIP191_PREFIX: Byte := 0x19

  /** Version byte of personal_sign, the ASCII letter 'E'. */
  const PERSONAL_SIGN_VERSION: Byte := 0x45

  /** The rest of "Ethereum Signed Message:\n" after the version letter. */
  const PERSONAL_SIGN_HEADER: string := "thereum Signed Message:\n"

  predicate IsAscii(s: string) {
    forall i :: 0 <= i < |s| ==> s[i] as int < 128
  }

  /** The ASCII (and UTF-8) bytes of an ASCII string. */
  function Ascii(s: string): (r: seq<Byte>)
    requires IsAscii(s)
    ensures |r| == |s|
  {
    seq(|s|, i requires 0 <= i < |s| => s[i] as int)
  }

  /**
   * `encode_defunct(primitive=body)`: the body is kept as it is, and the
   * version letter followed by the header spells "Ethereum Signed
   * Message:\n" and the decimal length of the body.
   */
  function EncodeDefunct(body: seq<Byte>): (r: SignableMessage)
    ensures r.body == body
    ensures IsAscii("Ethereum Signed Message:\n" + DecimalString(|body|))
    ensures [r.version] + r.header == Ascii("Ethereum Signed Message:\n" + DecimalString(|body|))
  {
    var lengthText := DecimalString(|body|);
    assert IsAscii(PERSONAL_SIGN_HEADER + lengthText);
    SignableMessage(PERSONAL_SIGN_VERSION, Ascii(PERSONAL_SIGN_HEADER + lengthText), body)
  }

  /**
   * The bytes that are hashed and signed for a message: 0x19, the version,
   * the header and the body, each where the next begins.
   */
  function SignedBytes(m: SignableMessage): (r: seq<Byte>)
    ensures |r| == 2 + |m.header| + |m.body|
    ensures r[0] == EIP191_PREFIX && r[1] == m.version
    ensures r[2..2 + |m.header|] == m.header && r[2 + |m.header|..] == m.body
  {
    [EIP191_PREFIX, m.version] + m.header + m.body
  }

  /** The 28 bytes in front of a 32-byte digest: 0x19 and "Ethereum Signed Message:\n32". */
  const DIGEST_MESSAGE_PREFIX: seq<Byte> := [EIP191_PREFIX] + Ascii("Ethereum Signed Message:\n32")

  /**
   * The signed bytes of a personal message: 0x19, the ASCII text
   * "Ethereum Signed Message:\n" with the decimal length of the body, and
   * the body.
   */
  lemma PersonalSignBytes(body: seq<Byte>)
    ensures IsAscii("Ethereum Signed Message:\n" + DecimalString(|body|))
    ensures SignedBytes(EncodeDefunct(body))
      == [EIP191_PREFIX] + Ascii("Ethereum Signed Message:\n" + DecimalString(|body|)) + body
  {
    var m := EncodeDefunct(body);
    Regroup(EIP191_PREFIX, m.version, m.header, m.body);
  }

  /** Regrouping a concatenation that starts with two single bytes. */
  lemma Regroup(a: Byte, b: Byte, h: seq<Byte>, t: seq<Byte>)
    ensures [a, b] + h + t == [a] + ([b] + h) + t
  {
  }

  /**
   * For a 32-byte digest the signed bytes are 0x19, the ASCII text
   * "Ethereum Signed Message:\n32" and the digest: 60 bytes in all, with
   * the digest as the last 32.
   */
  lemma PersonalSignOfDigest(h: seq<Byte>)
    requires |h| == 32
    ensures SignedBytes(EncodeDefunct(h)) == DIGEST_MESSAGE_PREFIX + h
    ensures |SignedBytes(EncodeDefunct(h))| == 60
    ensures SignedBytes(EncodeDefunct(h))[28..] == h
  {
    PersonalSignBytes(h);
    assert DecimalString(32) == "32";
  }

  /** Different 32-byte digests give different signed messages. */
  lemma PersonalSignInjective(a: seq<Byte>, b: seq<Byte>)
    requires |a| == 32 && |b| == 32
    requires SignedBytes(EncodeDefunct(a)) == SignedBytes(EncodeDefunct(b))
    ensures a == b
  {
    PersonalSignOfDigest(a);
    PersonalSignOfDigest(b);
  }
}
