/**
  The verification script (verify_signature.py), a pure function of the image:
  it strips the prefix, finds the TCPA block, compares the stored content hash
  with a fresh one, rebuilds the public key from the modulus in the image and
  checks that the raw RSA public operation on the stored signature ends with
  the SHA-1 of the block. Digests are compared as lowercase hex, as the script
  does.

  SHA-1 is the parameter `sha1`; `rawVerify(signature, key)` is what
  `openssl rsautl -verify -raw` prints for a signature and a DER public key
  (the RSAVP1 primitive of section 5.2.2 of RFC 8017, with no padding removed).
 */
module VerifySignature {
  import opened Wrappers
  import opened Bytes
  import opened Hexadecimal
  import opened Firmware
  import opened PublicKey

  /** The script exits on a missing marker; a truncated size field raises `struct.error`. */
  datatype VerifyError = MarkerNotFound | SizeFieldTruncated

  /** Both outcomes of a run that reaches the end; neither mismatch aborts it. */
  datatype Report = Report(hashMatches: bool, signatureValid: bool)

  /**
    The verifier looks at the flag first and only then for the Broadwell
    header, the opposite order from the signer.
   */
  function DetectLayout(image: seq<byte>, sandy: bool): (l: Layout)
    ensures l == SandyCompat <==> sandy
    ensures l == Broadwell <==> !sandy && HasIntelHeader(image)
    ensures l == Plain <==> !sandy && !HasIntelHeader(image)
  {
    if sandy then SandyCompat else if HasIntelHeader(image) then Broadwell else Plain
  }

  // ---------------------------------------------------------------------------
  // Hash check

  /**
    `data[hash_offset:hash_offset + 20].hex()`: at most 40 characters, and
    the hex of the 20 bytes at tcpa+32 when they lie inside the region.
   */
  function StoredHashHex(w: seq<byte>, tcpa: nat): (h: string)
    ensures |h| <= 2 * 20
    ensures tcpa + HashEnd <= |w| ==> |h| == 2 * 20 && h == Hex(w[tcpa + HashOffset .. tcpa + HashEnd])
  {
    Hex(Slice(w, tcpa + HashOffset, tcpa + HashEnd))
  }

  /**
    `hashlib.sha1(data[:size]).hexdigest()`: 40 characters, the hex of the
    digest of the region's first min(size, len) bytes.
   */
  function CalculatedHashHex(w: seq<byte>, tcpa: nat, sha1: seq<byte> -> Digest): (h: string)
    requires tcpa + SizeEnd <= |w|
    ensures |h| == 2 * 20
    ensures h == Hex(sha1(w[..Min(ContentSize(w, tcpa), |w|)]))
  {
    Hex(sha1(Content(w, tcpa)))
  }

  /**
    `hash == calculated_hash`: the hex comparison holds exactly when the 20
    bytes at tcpa+32 are the SHA-1 digest of `data[:min(size, len)]`.
   */
  function HashMatches(w: seq<byte>, tcpa: nat, sha1: seq<byte> -> Digest): (b: bool)
    requires tcpa + SizeEnd <= |w|
    ensures b <==> w[tcpa + HashOffset .. tcpa + HashEnd] == sha1(w[..Min(ContentSize(w, tcpa), |w|)])
  {
    HexInjective(Slice(w, tcpa + HashOffset, tcpa + HashEnd), sha1(Content(w, tcpa)));
    StoredHashHex(w, tcpa) == CalculatedHashHex(w, tcpa, sha1)
  }

  // ---------------------------------------------------------------------------
  // Signature check

  /**
    `hashlib.sha1(data[tcpa_offset:tcpa_offset + 107]).hexdigest()`: 40
    characters, the hex of the digest of [tcpa, tcpa+107) when that window
    lies inside the region.
   */
  function BlockHashHex(w: seq<byte>, tcpa: nat, sha1: seq<byte> -> Digest): (h: string)
    ensures |h| == 2 * 20
    ensures tcpa + SignedLength <= |w| ==> h == Hex(sha1(w[tcpa .. tcpa + SignedLength]))
  {
    Hex(sha1(Slice(w, tcpa, tcpa + SignedLength)))
  }

  /**
    `data[signature_offset:signature_offset + 128]`: the 128 bytes at
    tcpa+110 when they fit, fewer when the image ends sooner.
   */
  function StoredSignature(w: seq<byte>, tcpa: nat): (s: seq<byte>)
    ensures |s| <= SignatureLength
    ensures tcpa + SignatureEnd <= |w| ==> s == w[tcpa + SignatureOffset .. tcpa + SignatureEnd]
  {
    Slice(w, tcpa + SignatureOffset, tcpa + SignatureEnd)
  }

  /**
    `find(pattern) + delta` with no check of the search result: a missing
    anchor silently gives delta - 1, that is 17 or 81.
   */
  function ModulusOffset(w: seq<byte>, sandy: bool): (r: int)
    ensures r >= AnchorDelta(sandy) - 1
    ensures r == AnchorDelta(sandy) - 1 <==> forall i :: !OccursAt(w, AnchorPattern(sandy), i)
    ensures r != AnchorDelta(sandy) - 1 ==> OccursAt(w, AnchorPattern(sandy), r - AnchorDelta(sandy))
    ensures forall i :: 0 <= i < r - AnchorDelta(sandy) ==> !OccursAt(w, AnchorPattern(sandy), i)
  {
    Find(w, AnchorPattern(sandy)) + AnchorDelta(sandy)
  }

  /**
    `data[modulus_offset:modulus_offset + 129]`: the 129 bytes at the modulus
    offset when they fit, fewer when the image ends sooner.
   */
  function StoredModulus(w: seq<byte>, sandy: bool): (m: seq<byte>)
    ensures |m| <= ModulusLength
    ensures ModulusOffset(w, sandy) + ModulusLength <= |w| ==>
      m == w[ModulusOffset(w, sandy) .. ModulusOffset(w, sandy) + ModulusLength]
  {
    var offset := ModulusOffset(w, sandy);
    Slice(w, offset, offset + ModulusLength)
  }

  /**
    What the provider returns for the stored signature under the rebuilt key:
    when both windows fit, the 128 bytes at tcpa+110 checked against the
    envelope of the 129 bytes at the modulus offset.
   */
  function Recovered(w: seq<byte>, tcpa: nat, sandy: bool,
                     rawVerify: (seq<byte>, seq<byte>) -> seq<byte>): (out: seq<byte>)
    ensures var offset := ModulusOffset(w, sandy);
      tcpa + SignatureEnd <= |w| && offset + ModulusLength <= |w| ==>
        out == rawVerify(w[tcpa + SignatureOffset .. tcpa + SignatureEnd],
                         BuildEnvelope(w[offset .. offset + ModulusLength]))
  {
    rawVerify(StoredSignature(w, tcpa), BuildEnvelope(StoredModulus(w, sandy)))
  }

  /**
    `recovered.hex()[-len(tcpa_hash):] == tcpa_hash`: the signature is valid
    exactly when the provider's output has at least 20 bytes and its last 20
    bytes are the SHA-1 of the block window.
   */
  function SignatureValid(w: seq<byte>, tcpa: nat, sandy: bool, sha1: seq<byte> -> Digest,
                          rawVerify: (seq<byte>, seq<byte>) -> seq<byte>): (b: bool)
    ensures var out := Recovered(w, tcpa, sandy, rawVerify);
      b <==> |out| >= 20 && out[|out| - 20..] == sha1(Slice(w, tcpa, tcpa + SignedLength))
  {
    TailMatchesIff(Recovered(w, tcpa, sandy, rawVerify), sha1(Slice(w, tcpa, tcpa + SignedLength)));
    LastChars(Hex(Recovered(w, tcpa, sandy, rawVerify)), |BlockHashHex(w, tcpa, sha1)|) == BlockHashHex(w, tcpa, sha1)
  }

  // ---------------------------------------------------------------------------
  // The whole script

  /**
    A run fails only when the marker is missing or the size field runs past
    the end of the image; otherwise it reports both checks, the signature
    check whatever the hash check found.
   */
  function Verify(image: seq<byte>, sandy: bool, sha1: seq<byte> -> Digest,
                  rawVerify: (seq<byte>, seq<byte>) -> seq<byte>): (r: Result<Report, VerifyError>)
    ensures var w := Working(image, DetectLayout(image, sandy));
      && (r == Err(MarkerNotFound) <==> forall i :: !OccursAt(w, TcpaMarker, i))
      && (r == Err(SizeFieldTruncated) <==> Find(w, TcpaMarker) != -1 && |w| < Find(w, TcpaMarker) + SizeEnd)
      && (r.Ok? ==>
            var tcpa := Find(w, TcpaMarker);
            && tcpa >= 0 && tcpa + SizeEnd <= |w|
            && r.value.hashMatches == HashMatches(w, tcpa, sha1)
            && r.value.signatureValid == SignatureValid(w, tcpa, sandy, sha1, rawVerify))
  {
    var w := Working(image, DetectLayout(image, sandy));
    var tcpa := Find(w, TcpaMarker);
    if tcpa == -1 then Err(MarkerNotFound)
    else if |w| < tcpa + SizeEnd then Err(SizeFieldTruncated)
    else Ok(Report(HashMatches(w, tcpa, sha1), SignatureValid(w, tcpa, sandy, sha1, rawVerify)))
  }
}
