/**
  The RSA public key as a DER byte string: the SubjectPublicKeyInfo layout of
  section 4.1 of RFC 5280 wrapping the RSAPublicKey of Appendix A.1.1 of
  RFC 8017, for a 1024-bit modulus (129 bytes with its sign byte) and public
  exponent 3. The verifier rebuilds it from a fixed head and tail around the
  modulus found in the image; the signer cuts the modulus out of the key the
  provider exports.
 */
module PublicKey {
  import opened Wrappers
  import opened Bytes
  import opened Firmware

  /**
    SEQUENCE (157) { SEQUENCE (13) { OID rsaEncryption, NULL },
    BIT STRING (139, no unused bits) { SEQUENCE (135) { INTEGER (129) ... } } }
   */
  const PubKeyHeader: seq<byte> :=
    [0x30, 0x81, 0x9D, 0x30, 0x0D, 0x06, 0x09, 0x2A, 0x86, 0x48, 0x86, 0xF7, 0x0D, 0x01,
     0x01, 0x01, 0x05, 0x00, 0x03, 0x81, 0x8B, 0x00, 0x30, 0x81, 0x87, 0x02, 0x81, 0x81]

  /** INTEGER 3: the public exponent. */
  const PubKeyFooter: seq<byte> := [0x02, 0x01, 0x03]

  /** The content of the OID 1.2.840.113549.1.1.1 (rsaEncryption). */
  const RsaEncryptionOid: seq<byte> := [0x2A, 0x86, 0x48, 0x86, 0xF7, 0x0D, 0x01, 0x01, 0x01]

  /** Where the modulus sits inside an exported key: bytes [28, 157). */
  const ModulusStart: nat := 28
  const ModulusStop: nat := 157

  /** `PUB_KEY_HEADER + modulus + PUB_KEY_FOOTER`. */
  function BuildEnvelope(modulus: seq<byte>): (e: seq<byte>)
    ensures |e| == |modulus| + 31
    ensures e[..|PubKeyHeader|] == PubKeyHeader
    ensures e[|PubKeyHeader|..|PubKeyHeader| + |modulus|] == modulus
    ensures e[|PubKeyHeader| + |modulus|..] == PubKeyFooter
  {
    PubKeyHeader + modulus + PubKeyFooter
  }

  /**
    `pubkey[28:157]`, required to be exactly the 129 modulus bytes: a key
    shorter than 157 bytes is malformed.
   */
  function ExtractModulus(der: seq<byte>): (r: Option<seq<byte>>)
    ensures r.Some? <==> |der| >= ModulusStop
    ensures r.Some? ==> |r.value| == ModulusLength && r.value == der[ModulusStart..ModulusStop]
  {
    if |der| < ModulusStop then None else Some(der[ModulusStart..ModulusStop])
  }

  /** The envelope gives back its modulus at the offsets the signer cuts at. */
  lemma ExtractBuiltEnvelope(m: seq<byte>)
    requires |m| == ModulusLength
    ensures |BuildEnvelope(m)| == 160
    ensures ExtractModulus(BuildEnvelope(m)) == Some(m)
  {
    var e := BuildEnvelope(m);
    assert e[ModulusStart..ModulusStop] == m;
  }

  /**
    Any 160-byte key with the fixed head and tail is the envelope of the
    modulus cut out of it.
   */
  lemma BuildExtractedModulus(der: seq<byte>)
    requires |der| == 160
    requires der[..ModulusStart] == PubKeyHeader && der[ModulusStop..] == PubKeyFooter
    ensures ExtractModulus(der).Some?
    ensures BuildEnvelope(ExtractModulus(der).value) == der
  {
    assert der == der[..ModulusStart] + der[ModulusStart..ModulusStop] + der[ModulusStop..];
  }

  // ---------------------------------------------------------------------------
  // A DER reading of the envelope, as an independent account of its layout

  /** A DER element: its tag and the half-open range of its content. */
  datatype Tlv = Tlv(tag: byte, contentStart: nat, contentEnd: nat)

  /**
    Reads the tag and length at `at`, in short form (one byte below 0x80) or in
    the one-byte long form (0x81 then the length); the content must fit.
   */
  function ReadTlv(s: seq<byte>, at: nat): (r: Option<Tlv>)
    ensures r.Some? ==> r.value.contentStart <= r.value.contentEnd <= |s|
  {
    if |s| < at + 2 then None
    else if s[at + 1] < 0x80 then
      if at + 2 + s[at + 1] as int <= |s| then Some(Tlv(s[at], at + 2, at + 2 + s[at + 1] as int)) else None
    else if s[at + 1] == 0x81 && at + 3 <= |s| && at + 3 + s[at + 2] as int <= |s| then
      Some(Tlv(s[at], at + 3, at + 3 + s[at + 2] as int))
    else None
  }

  /**
    For a 129-byte modulus the envelope is 160 bytes and every DER length in
    the fixed head closes exactly where its element ends: the outer SEQUENCE
    (0x9D = 157) and the BIT STRING (0x8B = 139) and the RSAPublicKey SEQUENCE
    (0x87 = 135) all end at byte 160, the modulus INTEGER (0x81 = 129) is bytes
    [28, 157), and the exponent INTEGER holding 3 follows it.
   */
  lemma EnvelopeLayout(m: seq<byte>)
    requires |m| == ModulusLength
    ensures var e := BuildEnvelope(m);
      && |e| == 160
      && ReadTlv(e, 0) == Some(Tlv(0x30, 3, 160))
      && ReadTlv(e, 3) == Some(Tlv(0x30, 5, 18))
      && ReadTlv(e, 5) == Some(Tlv(0x06, 7, 16)) && e[7..16] == RsaEncryptionOid
      && ReadTlv(e, 16) == Some(Tlv(0x05, 18, 18))
      && ReadTlv(e, 18) == Some(Tlv(0x03, 21, 160)) && e[21] == 0
      && ReadTlv(e, 22) == Some(Tlv(0x30, 25, 160))
      && ReadTlv(e, 25) == Some(Tlv(0x02, ModulusStart, ModulusStop)) && e[ModulusStart..ModulusStop] == m
      && ReadTlv(e, 157) == Some(Tlv(0x02, 159, 160)) && e[159] == 3
  {
    EnvelopeAlgorithm(m);
    EnvelopeBitString(m);
    EnvelopeKey(m);
  }

  /** The outer SEQUENCE and the AlgorithmIdentifier naming rsaEncryption. */
  lemma EnvelopeAlgorithm(m: seq<byte>)
    requires |m| == ModulusLength
    ensures var e := BuildEnvelope(m);
      && ReadTlv(e, 0) == Some(Tlv(0x30, 3, 160))
      && ReadTlv(e, 3) == Some(Tlv(0x30, 5, 18))
      && ReadTlv(e, 5) == Some(Tlv(0x06, 7, 16)) && e[7..16] == RsaEncryptionOid
  {
    var e := BuildEnvelope(m);
    EnvelopeBytes(m);
    assert e[7..16] == e[..28][7..16] == PubKeyHeader[7..16] == RsaEncryptionOid;
  }

  /** The NULL parameters and the BIT STRING with no unused bits. */
  lemma EnvelopeBitString(m: seq<byte>)
    requires |m| == ModulusLength
    ensures var e := BuildEnvelope(m);
      && ReadTlv(e, 16) == Some(Tlv(0x05, 18, 18))
      && ReadTlv(e, 18) == Some(Tlv(0x03, 21, 160)) && e[21] == 0
  {
    EnvelopeBytes(m);
  }

  /** The RSAPublicKey SEQUENCE with its modulus and exponent INTEGERs. */
  lemma EnvelopeKey(m: seq<byte>)
    requires |m| == ModulusLength
    ensures var e := BuildEnvelope(m);
      && ReadTlv(e, 22) == Some(Tlv(0x30, 25, 160))
      && ReadTlv(e, 25) == Some(Tlv(0x02, ModulusStart, ModulusStop)) && e[ModulusStart..ModulusStop] == m
      && ReadTlv(e, 157) == Some(Tlv(0x02, 159, 160)) && e[159] == 3
  {
    EnvelopeBytes(m);
  }

  /** The envelope byte by byte: the fixed head, the modulus, the fixed tail. */
  lemma EnvelopeBytes(m: seq<byte>)
    requires |m| == ModulusLength
    ensures var e := BuildEnvelope(m);
      && |e| == 160
      && (forall i :: 0 <= i < 28 ==> e[i] == PubKeyHeader[i])
      && e[157] == 0x02 && e[158] == 0x01 && e[159] == 0x03
  {
    var e := BuildEnvelope(m);
    assert e[157..] == PubKeyFooter;
  }
}
