/**
  What the two scripts promise each other: when the signer and the verifier
  pick the same layout, the provider's raw sign and verify undo each other,
  and the patched windows keep clear of what the verifier reads, an image the
  signer produced passes both of the verifier's checks.
 */
module RoundTrip {
  import opened Bytes
  import opened Wrappers
  import opened Firmware
  import opened PublicKey
  import ReplaceSignature
  import VerifySignature

  /**
    The scripts test the layout in opposite orders, so they disagree exactly
    on a Broadwell image signed or checked with `--sandy`.
   */
  lemma LayoutsAgree(image: seq<byte>, sandy: bool)
    ensures ReplaceSignature.DetectLayout(image, sandy) == VerifySignature.DetectLayout(image, sandy) <==>
      !(sandy && HasIntelHeader(image))
  {
  }

  /**
    The provider's raw private operation and raw public operation under the
    envelope of the exported modulus undo each other on every 128-byte input
    whose big-endian value is below 2^160, as `SigningMessage` always is.
    Raw RSA inverts exactly the inputs below the modulus, and a 1024-bit
    modulus is at least 2^1023, so a correct provider meets this.
   */
  ghost predicate RawInverse(rawSign: seq<byte> -> seq<byte>, rawVerify: (seq<byte>, seq<byte>) -> seq<byte>,
                             publicKey: seq<byte>)
  {
    && |publicKey| >= ModulusStop
    && forall m {:trigger rawSign(m)} :: |m| == SignatureLength && BigEndian(m) < Pow256(20) ==>
         rawVerify(rawSign(m), BuildEnvelope(publicKey[ModulusStart..ModulusStop])) == m
  }

  /**
    The windows keep clear of what the verifier reads: the content ends before
    the hash field, and the modulus window lies outside the content, the
    signed window [tcpa, tcpa+107) and the signature window.
   */
  predicate WindowsSeparate(w: seq<byte>, tcpa: nat, modulusOffset: nat)
    requires tcpa + SizeEnd <= |w|
  {
    var size := ContentSize(w, tcpa);
    && size <= tcpa + HashOffset
    && size <= modulusOffset
    && Disjoint(modulusOffset, modulusOffset + ModulusLength, tcpa, tcpa + SignedLength)
    && Disjoint(modulusOffset, modulusOffset + ModulusLength, tcpa + SignatureOffset, tcpa + SignatureEnd)
  }

  /**
    The verifier, searching the signed region, finds the first marker and the
    first anchor where the signer found them in the input.
   */
  predicate SearchesAgree(w: seq<byte>, sandy: bool, signed: seq<byte>)
  {
    && Find(signed, TcpaMarker) == Find(w, TcpaMarker)
    && Find(signed, AnchorPattern(sandy)) == Find(w, AnchorPattern(sandy))
  }

  /**
    Below the hash field and the modulus window the patched region is the
    input: the signature window lies further up still.
   */
  lemma KeptBelow(w: seq<byte>, p: seq<byte>, tcpa: nat, modulusOffset: nat, k: nat)
    requires |p| == |w| && k <= |w|
    requires k <= tcpa + HashOffset && k <= modulusOffset
    requires forall i :: 0 <= i < |w| && !ReplaceSignature.Written(i, tcpa, modulusOffset) ==> p[i] == w[i]
    ensures p[..k] == w[..k]
  {
    assert forall i :: 0 <= i < k ==> !ReplaceSignature.Written(i, tcpa, modulusOffset);
  }

  /**
    The verifier finds the marker in the patched region where the signer
    found it when every patched window lies past the marker itself.
   */
  lemma MarkerSurvives(w: seq<byte>, tcpa: nat, modulusOffset: nat, sha1: seq<byte> -> Digest,
                       rawSign: seq<byte> -> seq<byte>, publicKey: seq<byte>)
    requires tcpa + SignatureEnd <= |w| && modulusOffset + ModulusLength <= |w|
    requires ReplaceSignature.PatchedRegion(w, tcpa, modulusOffset, sha1, rawSign, publicKey).Ok?
    requires Find(w, TcpaMarker) == tcpa
    requires tcpa + |TcpaMarker| <= modulusOffset
    ensures Find(ReplaceSignature.PatchedRegion(w, tcpa, modulusOffset, sha1, rawSign, publicKey).value, TcpaMarker) == tcpa
  {
    var p := ReplaceSignature.PatchedRegion(w, tcpa, modulusOffset, sha1, rawSign, publicKey).value;
    ReplaceSignature.PatchedRegionContents(w, tcpa, modulusOffset, sha1, rawSign, publicKey);
    KeptBelow(w, p, tcpa, modulusOffset, tcpa + |TcpaMarker|);
    FindPreserved(w, p, TcpaMarker, tcpa + |TcpaMarker|);
  }

  /**
    The verifier finds the anchor in the patched region where the signer
    found it when the first anchor ends before the hash field (the modulus
    window always starts at or after the anchor's end).
   */
  lemma AnchorSurvives(w: seq<byte>, sandy: bool, tcpa: nat, modulusOffset: nat, sha1: seq<byte> -> Digest,
                       rawSign: seq<byte> -> seq<byte>, publicKey: seq<byte>)
    requires tcpa + SignatureEnd <= |w| && modulusOffset + ModulusLength <= |w|
    requires ReplaceSignature.PatchedRegion(w, tcpa, modulusOffset, sha1, rawSign, publicKey).Ok?
    requires ReplaceSignature.ModulusAnchor(w, sandy) == modulusOffset
    requires Find(w, AnchorPattern(sandy)) + |AnchorPattern(sandy)| <= tcpa + HashOffset
    ensures var p := ReplaceSignature.PatchedRegion(w, tcpa, modulusOffset, sha1, rawSign, publicKey).value;
      VerifySignature.ModulusOffset(p, sandy) == modulusOffset
  {
    var p := ReplaceSignature.PatchedRegion(w, tcpa, modulusOffset, sha1, rawSign, publicKey).value;
    ReplaceSignature.PatchedRegionContents(w, tcpa, modulusOffset, sha1, rawSign, publicKey);
    var anchorEnd := Find(w, AnchorPattern(sandy)) + |AnchorPattern(sandy)|;
    KeptBelow(w, p, tcpa, modulusOffset, anchorEnd);
    FindPreserved(w, p, AnchorPattern(sandy), anchorEnd);
  }

  /** The bytes the verifier reads before the signature come back from the patched region as the signer left them. */
  lemma SignedFieldsIntact(w: seq<byte>, tcpa: nat, modulusOffset: nat, sha1: seq<byte> -> Digest,
                           rawSign: seq<byte> -> seq<byte>, publicKey: seq<byte>)
    requires tcpa + SignatureEnd <= |w| && modulusOffset + ModulusLength <= |w|
    requires ReplaceSignature.PatchedRegion(w, tcpa, modulusOffset, sha1, rawSign, publicKey).Ok?
    requires WindowsSeparate(w, tcpa, modulusOffset)
    ensures var p := ReplaceSignature.PatchedRegion(w, tcpa, modulusOffset, sha1, rawSign, publicKey).value;
      && ContentSize(p, tcpa) == ContentSize(w, tcpa)
      && Content(p, tcpa) == Content(w, tcpa)
  {
    var p := ReplaceSignature.PatchedRegion(w, tcpa, modulusOffset, sha1, rawSign, publicKey).value;
    ReplaceSignature.PatchedRegionContents(w, tcpa, modulusOffset, sha1, rawSign, publicKey);
    assert !ReplaceSignature.Written(tcpa + 56, tcpa, modulusOffset);
    assert !ReplaceSignature.Written(tcpa + 57, tcpa, modulusOffset);
    assert !ReplaceSignature.Written(tcpa + 58, tcpa, modulusOffset);
    KeptBelow(w, p, tcpa, modulusOffset, ContentSize(w, tcpa));
  }

  /** The signed window [tcpa, tcpa+107) of the output is the one the signer hashed for the signature. */
  lemma SignedWindowIntact(w: seq<byte>, tcpa: nat, modulusOffset: nat, sha1: seq<byte> -> Digest,
                           rawSign: seq<byte> -> seq<byte>, publicKey: seq<byte>)
    requires tcpa + SignatureEnd <= |w| && modulusOffset + ModulusLength <= |w|
    requires ReplaceSignature.PatchedRegion(w, tcpa, modulusOffset, sha1, rawSign, publicKey).Ok?
    requires Disjoint(modulusOffset, modulusOffset + ModulusLength, tcpa, tcpa + SignedLength)
    ensures var p := ReplaceSignature.PatchedRegion(w, tcpa, modulusOffset, sha1, rawSign, publicKey).value;
      var w1 := ReplaceSignature.WithContentHash(w, tcpa, sha1);
      p[tcpa .. tcpa + SignedLength] == w1[tcpa .. tcpa + SignedLength]
  {
    var w1 := ReplaceSignature.WithContentHash(w, tcpa, sha1);
    var signature := rawSign(ReplaceSignature.SigningMessage(w1, tcpa, sha1));
    ReplaceSignature.PatchedRegionSteps(w, tcpa, modulusOffset, sha1, rawSign, publicKey);
    OverwriteTwiceOutside(w1, tcpa + SignatureOffset, signature, modulusOffset, publicKey[ModulusStart..ModulusStop],
                          tcpa, tcpa + SignedLength);
  }

  /** The verifier's hash check passes on a patched region. */
  lemma HashCheckPasses(w: seq<byte>, tcpa: nat, modulusOffset: nat, sha1: seq<byte> -> Digest,
                        rawSign: seq<byte> -> seq<byte>, publicKey: seq<byte>)
    requires tcpa + SignatureEnd <= |w| && modulusOffset + ModulusLength <= |w|
    requires ReplaceSignature.PatchedRegion(w, tcpa, modulusOffset, sha1, rawSign, publicKey).Ok?
    requires WindowsSeparate(w, tcpa, modulusOffset)
    ensures var p := ReplaceSignature.PatchedRegion(w, tcpa, modulusOffset, sha1, rawSign, publicKey).value;
      VerifySignature.HashMatches(p, tcpa, sha1)
  {
    var p := ReplaceSignature.PatchedRegion(w, tcpa, modulusOffset, sha1, rawSign, publicKey).value;
    ReplaceSignature.PatchedRegionContents(w, tcpa, modulusOffset, sha1, rawSign, publicKey);
    SignedFieldsIntact(w, tcpa, modulusOffset, sha1, rawSign, publicKey);
    assert Disjoint(modulusOffset, modulusOffset + ModulusLength, tcpa + HashOffset, tcpa + HashEnd);
    assert p[tcpa + HashOffset .. tcpa + HashEnd] == sha1(Content(p, tcpa));
  }

  /**
    Under the key rebuilt from the modulus stored in a region, the provider
    gives back a message whose signature is stored in it, when the stored
    modulus is the exported one and the message is one the provider inverts.
   */
  lemma ProviderRecoversMessage(p: seq<byte>, sandy: bool, tcpa: nat, message: seq<byte>,
                                rawSign: seq<byte> -> seq<byte>, rawVerify: (seq<byte>, seq<byte>) -> seq<byte>,
                                publicKey: seq<byte>)
    requires RawInverse(rawSign, rawVerify, publicKey)
    requires |message| == SignatureLength && BigEndian(message) < Pow256(20)
    requires tcpa + SignatureEnd <= |p|
    requires p[tcpa + SignatureOffset .. tcpa + SignatureEnd] == rawSign(message)
    requires var offset := VerifySignature.ModulusOffset(p, sandy);
      offset + ModulusLength <= |p| && p[offset .. offset + ModulusLength] == publicKey[ModulusStart..ModulusStop]
    ensures VerifySignature.Recovered(p, tcpa, sandy, rawVerify) == message
  {
  }

  /**
    The verifier's signature check passes on a patched region in which it
    finds the modulus where the signer wrote it.
   */
  lemma SignatureCheckPasses(w: seq<byte>, sandy: bool, tcpa: nat, modulusOffset: nat, sha1: seq<byte> -> Digest,
                             rawSign: seq<byte> -> seq<byte>, rawVerify: (seq<byte>, seq<byte>) -> seq<byte>,
                             publicKey: seq<byte>)
    requires tcpa + SignatureEnd <= |w| && modulusOffset + ModulusLength <= |w|
    requires ReplaceSignature.PatchedRegion(w, tcpa, modulusOffset, sha1, rawSign, publicKey).Ok?
    requires RawInverse(rawSign, rawVerify, publicKey)
    requires Disjoint(modulusOffset, modulusOffset + ModulusLength, tcpa, tcpa + SignedLength)
    requires Disjoint(modulusOffset, modulusOffset + ModulusLength, tcpa + SignatureOffset, tcpa + SignatureEnd)
    requires var p := ReplaceSignature.PatchedRegion(w, tcpa, modulusOffset, sha1, rawSign, publicKey).value;
      VerifySignature.ModulusOffset(p, sandy) == modulusOffset
    ensures var p := ReplaceSignature.PatchedRegion(w, tcpa, modulusOffset, sha1, rawSign, publicKey).value;
      VerifySignature.SignatureValid(p, tcpa, sandy, sha1, rawVerify)
  {
    var p := ReplaceSignature.PatchedRegion(w, tcpa, modulusOffset, sha1, rawSign, publicKey).value;
    var w1 := ReplaceSignature.WithContentHash(w, tcpa, sha1);
    var message := ReplaceSignature.SigningMessage(w1, tcpa, sha1);
    ReplaceSignature.PatchedRegionContents(w, tcpa, modulusOffset, sha1, rawSign, publicKey);
    ProviderRecoversMessage(p, sandy, tcpa, message, rawSign, rawVerify, publicKey);
    SignedWindowIntact(w, tcpa, modulusOffset, sha1, rawSign, publicKey);
    assert Slice(p, tcpa, tcpa + SignedLength) == w1[tcpa .. tcpa + SignedLength];
  }

  /**
    On the working region: a region the signer patched passes the hash check
    and the signature check, provided the patches leave the first marker and
    the first anchor where they were.
   */
  lemma SignedRegionVerifies(w: seq<byte>, sandy: bool, sha1: seq<byte> -> Digest,
                             rawSign: seq<byte> -> seq<byte>, rawVerify: (seq<byte>, seq<byte>) -> seq<byte>,
                             publicKey: seq<byte>)
    requires ReplaceSignature.SignedRegion(w, sandy, sha1, rawSign, publicKey).Ok?
    requires RawInverse(rawSign, rawVerify, publicKey)
    requires Find(w, TcpaMarker) != -1 && Find(w, TcpaMarker) + SizeEnd <= |w|
    requires WindowsSeparate(w, Find(w, TcpaMarker), ReplaceSignature.ModulusAnchor(w, sandy))
    requires SearchesAgree(w, sandy, ReplaceSignature.SignedRegion(w, sandy, sha1, rawSign, publicKey).value)
    ensures var signed := ReplaceSignature.SignedRegion(w, sandy, sha1, rawSign, publicKey).value;
      var tcpa := Find(w, TcpaMarker);
      && tcpa + SizeEnd <= |signed|
      && VerifySignature.HashMatches(signed, tcpa, sha1)
      && VerifySignature.SignatureValid(signed, tcpa, sandy, sha1, rawVerify)
  {
    var tcpa, modulusOffset := Find(w, TcpaMarker), ReplaceSignature.ModulusAnchor(w, sandy);
    ReplaceSignature.SignedRegionParts(w, sandy, sha1, rawSign, publicKey);
    HashCheckPasses(w, tcpa, modulusOffset, sha1, rawSign, publicKey);
    SignatureCheckPasses(w, sandy, tcpa, modulusOffset, sha1, rawSign, rawVerify, publicKey);
  }

  /** The verifier picks the signer's layout again on the signed image, and so the same working region. */
  lemma LayoutSurvives(image: seq<byte>, sandy: bool, sha1: seq<byte> -> Digest,
                       rawSign: seq<byte> -> seq<byte>, publicKey: seq<byte>)
    requires ReplaceSignature.SignedImage(image, sandy, sha1, rawSign, publicKey).Ok?
    requires ReplaceSignature.DetectLayout(image, sandy) == VerifySignature.DetectLayout(image, sandy)
    ensures var out := ReplaceSignature.SignedImage(image, sandy, sha1, rawSign, publicKey).value;
      var layout := ReplaceSignature.DetectLayout(image, sandy);
      && VerifySignature.DetectLayout(out, sandy) == layout
      && Working(out, layout) == ReplaceSignature.SignedRegion(Working(image, layout), sandy, sha1, rawSign, publicKey).value
  {
    var layout := ReplaceSignature.DetectLayout(image, sandy);
    var out := ReplaceSignature.SignedImage(image, sandy, sha1, rawSign, publicKey).value;
    ReplaceSignature.SignedImageKeepsPrefix(image, sandy, sha1, rawSign, publicKey);
    if !sandy && layout == Plain && |image| >= |IntelImageHeader| {
      PlainHeaderKept(image, sha1, rawSign, publicKey);
    } else if !sandy && layout == Broadwell {
      assert out[..19] == out[..Cut(image, layout)][..19] == image[..19];
    }
  }

  /**
    Without a prefix nothing is written below byte 19: the hash field is at
    32 or later and the modulus at 82 or later.
   */
  lemma PlainHeaderKept(image: seq<byte>, sha1: seq<byte> -> Digest,
                        rawSign: seq<byte> -> seq<byte>, publicKey: seq<byte>)
    requires ReplaceSignature.SignedRegion(image, false, sha1, rawSign, publicKey).Ok?
    requires |image| >= |IntelImageHeader|
    ensures var signed := ReplaceSignature.SignedRegion(image, false, sha1, rawSign, publicKey).value;
      signed[..|IntelImageHeader|] == image[..|IntelImageHeader|]
  {
    var tcpa, modulusOffset := Find(image, TcpaMarker), ReplaceSignature.ModulusAnchor(image, false);
    ReplaceSignature.SignedRegionParts(image, false, sha1, rawSign, publicKey);
    ReplaceSignature.PatchedRegionContents(image, tcpa, modulusOffset, sha1, rawSign, publicKey);
    var signed := ReplaceSignature.PatchedRegion(image, tcpa, modulusOffset, sha1, rawSign, publicKey).value;
    KeptBelow(image, signed, tcpa, modulusOffset, |IntelImageHeader|);
  }

  /**
    The signed image passes both checks of the verifier when: both scripts
    pick the same layout; the provider's raw operations undo each other; the
    content ends before the hash field; the modulus window keeps clear of the
    content, the signed window and the signature; and the verifier finds the
    marker and the anchor in the signed region where the signer found them
    (`MarkerSurvives` and `AnchorSurvives` give sufficient conditions).
   */
  lemma SignThenVerify(image: seq<byte>, sandy: bool, sha1: seq<byte> -> Digest,
                       rawSign: seq<byte> -> seq<byte>, rawVerify: (seq<byte>, seq<byte>) -> seq<byte>,
                       publicKey: seq<byte>)
    requires ReplaceSignature.SignedImage(image, sandy, sha1, rawSign, publicKey).Ok?
    requires ReplaceSignature.DetectLayout(image, sandy) == VerifySignature.DetectLayout(image, sandy)
    requires RawInverse(rawSign, rawVerify, publicKey)
    requires var layout := ReplaceSignature.DetectLayout(image, sandy);
      var w := Working(image, layout);
      var tcpa := Find(w, TcpaMarker);
      && tcpa != -1 && tcpa + SizeEnd <= |w|
      && WindowsSeparate(w, tcpa, ReplaceSignature.ModulusAnchor(w, sandy))
      && SearchesAgree(w, sandy, Working(ReplaceSignature.SignedImage(image, sandy, sha1, rawSign, publicKey).value, layout))
    ensures VerifySignature.Verify(ReplaceSignature.SignedImage(image, sandy, sha1, rawSign, publicKey).value,
                                   sandy, sha1, rawVerify) == Ok(VerifySignature.Report(true, true))
  {
    var w := Working(image, ReplaceSignature.DetectLayout(image, sandy));
    LayoutSurvives(image, sandy, sha1, rawSign, publicKey);
    SignedRegionVerifies(w, sandy, sha1, rawSign, rawVerify, publicKey);
  }

  /**
    The round trip when the modulus window starts past the marker, for
    instance after the record: the marker survives the patches, so only the
    anchor's survival is assumed.
   */
  lemma SignThenVerifyModulusAfterMarker(image: seq<byte>, sandy: bool, sha1: seq<byte> -> Digest,
                                         rawSign: seq<byte> -> seq<byte>, rawVerify: (seq<byte>, seq<byte>) -> seq<byte>,
                                         publicKey: seq<byte>)
    requires ReplaceSignature.SignedImage(image, sandy, sha1, rawSign, publicKey).Ok?
    requires ReplaceSignature.DetectLayout(image, sandy) == VerifySignature.DetectLayout(image, sandy)
    requires RawInverse(rawSign, rawVerify, publicKey)
    requires var layout := ReplaceSignature.DetectLayout(image, sandy);
      var w := Working(image, layout);
      var tcpa := Find(w, TcpaMarker);
      var modulusOffset := ReplaceSignature.ModulusAnchor(w, sandy);
      && tcpa != -1 && tcpa + SizeEnd <= |w|
      && WindowsSeparate(w, tcpa, modulusOffset)
      && tcpa + |TcpaMarker| <= modulusOffset
      && Find(Working(ReplaceSignature.SignedImage(image, sandy, sha1, rawSign, publicKey).value, layout), AnchorPattern(sandy))
         == Find(w, AnchorPattern(sandy))
    ensures VerifySignature.Verify(ReplaceSignature.SignedImage(image, sandy, sha1, rawSign, publicKey).value,
                                   sandy, sha1, rawVerify) == Ok(VerifySignature.Report(true, true))
  {
    var w := Working(image, ReplaceSignature.DetectLayout(image, sandy));
    LayoutSurvives(image, sandy, sha1, rawSign, publicKey);
    ReplaceSignature.SignedRegionParts(w, sandy, sha1, rawSign, publicKey);
    MarkerSurvives(w, Find(w, TcpaMarker), ReplaceSignature.ModulusAnchor(w, sandy), sha1, rawSign, publicKey);
    SignThenVerify(image, sandy, sha1, rawSign, rawVerify, publicKey);
  }

  /**
    The round trip when the first anchor ends before the hash field, so that
    the modulus lies before the record: the anchor survives the patches, so
    only the marker's survival is assumed.
   */
  lemma SignThenVerifyAnchorBeforeHash(image: seq<byte>, sandy: bool, sha1: seq<byte> -> Digest,
                                       rawSign: seq<byte> -> seq<byte>, rawVerify: (seq<byte>, seq<byte>) -> seq<byte>,
                                       publicKey: seq<byte>)
    requires ReplaceSignature.SignedImage(image, sandy, sha1, rawSign, publicKey).Ok?
    requires ReplaceSignature.DetectLayout(image, sandy) == VerifySignature.DetectLayout(image, sandy)
    requires RawInverse(rawSign, rawVerify, publicKey)
    requires var layout := ReplaceSignature.DetectLayout(image, sandy);
      var w := Working(image, layout);
      var tcpa := Find(w, TcpaMarker);
      && tcpa != -1 && tcpa + SizeEnd <= |w|
      && WindowsSeparate(w, tcpa, ReplaceSignature.ModulusAnchor(w, sandy))
      && Find(w, AnchorPattern(sandy)) + |AnchorPattern(sandy)| <= tcpa + HashOffset
      && Find(Working(ReplaceSignature.SignedImage(image, sandy, sha1, rawSign, publicKey).value, layout), TcpaMarker) == tcpa
    ensures VerifySignature.Verify(ReplaceSignature.SignedImage(image, sandy, sha1, rawSign, publicKey).value,
                                   sandy, sha1, rawVerify) == Ok(VerifySignature.Report(true, true))
  {
    var w := Working(image, ReplaceSignature.DetectLayout(image, sandy));
    LayoutSurvives(image, sandy, sha1, rawSign, publicKey);
    ReplaceSignature.SignedRegionParts(w, sandy, sha1, rawSign, publicKey);
    AnchorSurvives(w, sandy, Find(w, TcpaMarker), ReplaceSignature.ModulusAnchor(w, sandy), sha1, rawSign, publicKey);
    SignThenVerify(image, sandy, sha1, rawSign, rawVerify, publicKey);
  }
}
