/**
  The re-signing script (replace_signature.py). It strips the opaque prefix,
  finds the TCPA block and the modulus anchor, and patches in place, on a
  mutable copy of the working region, the content hash, a fresh raw-RSA
  signature of the block and the new public modulus; the output is the
  untouched prefix followed by the patched region.

  SHA-1 is the parameter `sha1`. The key pair that `openssl genrsa` creates is
  seen only through `rawSign` (what `openssl rsautl -sign -raw` returns for a
  message) and `publicKey` (the bytes `openssl rsa -pubout -outform der` exports).

  `SignedImage` and its step functions state the transform on values; the
  methods `Splice`, `PatchRegion`, `SignRegion` and `Resign` perform it on an
  array, as the script does on its `bytearray`, and are proved to agree with
  them.
 */
module ReplaceSignature {
  import opened Wrappers
  import opened Bytes
  import opened Firmware
  import opened PublicKey

  /**
    Why a run produces no output. The script itself exits only on the first;
    the others stand for its silent continuation after a missing anchor, the
    `struct.error` of a truncated size field, and the resizing slice
    assignments, which are not modelled.
   */
  datatype ResignError =
    | MarkerNotFound
    | ModulusAnchorNotFound
    | SizeFieldTruncated
    | WindowOutOfBounds
    | BadSignatureLength
    | MalformedKey

  /** The signer looks for the Broadwell header first and only then at the flag. */
  function DetectLayout(image: seq<byte>, sandy: bool): (l: Layout)
    ensures l == Broadwell <==> HasIntelHeader(image)
    ensures l == SandyCompat <==> sandy && !HasIntelHeader(image)
    ensures l == Plain <==> !sandy && !HasIntelHeader(image)
  {
    if HasIntelHeader(image) then Broadwell else if sandy then SandyCompat else Plain
  }

  /**
    The modulus offset: the first occurrence of the flag's anchor pattern plus
    the flag's delta, or -1 when the pattern occurs nowhere.
   */
  function ModulusAnchor(w: seq<byte>, sandy: bool): (r: int)
    ensures r == -1 <==> forall i :: !OccursAt(w, AnchorPattern(sandy), i)
    ensures r != -1 ==> AnchorDelta(sandy) <= r && OccursAt(w, AnchorPattern(sandy), r - AnchorDelta(sandy))
    ensures r != -1 ==> Find(w, AnchorPattern(sandy)) == r - AnchorDelta(sandy)
  {
    var x := Find(w, AnchorPattern(sandy));
    if x == -1 then -1 else x + AnchorDelta(sandy)
  }

  // ---------------------------------------------------------------------------
  // The transform on values

  /**
    Steps [1/6] and [2/6]: the SHA-1 of `data[:size]` is calculated and
    replaces bytes [tcpa+32, tcpa+52); nothing else changes.
   */
  function WithContentHash(w: seq<byte>, tcpa: nat, sha1: seq<byte> -> Digest): (w1: seq<byte>)
    requires tcpa + SizeEnd <= |w|
    ensures |w1| == |w|
    ensures w1[tcpa + HashOffset .. tcpa + HashEnd] == sha1(w[..Min(ContentSize(w, tcpa), |w|)])
    ensures forall i :: 0 <= i < |w| && !(tcpa + HashOffset <= i < tcpa + HashEnd) ==> w1[i] == w[i]
  {
    Overwrite(w, tcpa + HashOffset, sha1(Content(w, tcpa)))
  }

  /**
    The input of step [4/6]: the 128-byte raw-RSA message, 108 zero bytes
    and then the SHA-1 of the block window [tcpa, tcpa+107) as it stands
    when signing. As a big-endian integer it is just the digest's value.
   */
  function SigningMessage(w1: seq<byte>, tcpa: nat, sha1: seq<byte> -> Digest): (m: seq<byte>)
    requires tcpa + SignedLength <= |w1|
    ensures |m| == SignatureLength
    ensures forall i :: 0 <= i < 108 ==> m[i] == 0
    ensures m[108..] == sha1(w1[tcpa .. tcpa + SignedLength])
    ensures BigEndian(m) == BigEndian(m[108..]) < Pow256(20)
  {
    var d := sha1(w1[tcpa .. tcpa + SignedLength]);
    BigEndianLeadingZeros(108, d);
    BigEndianBound(d);
    assert (Zeros(108) + d)[108..] == d;
    Zeros(108) + d
  }

  /**
    Steps [1/6] to [6/6] on the working region, once the marker at `tcpa`
    and the modulus offset are known and every window lies inside the
    region: the content hash, then the signature of the block as patched so
    far, then the modulus cut from the exported key (step [3/6], the key
    generation, is outside the model: its results are the parameters). A signature of the wrong length or a
    key too short to hold a modulus is an error.
   */
  function PatchedRegion(w: seq<byte>, tcpa: nat, modulusOffset: nat, sha1: seq<byte> -> Digest,
                         rawSign: seq<byte> -> seq<byte>, publicKey: seq<byte>): (r: Result<seq<byte>, ResignError>)
    requires tcpa + SignatureEnd <= |w| && modulusOffset + ModulusLength <= |w|
    ensures r.Ok? ==> |r.value| == |w|
    ensures r.Err? ==> r.error == BadSignatureLength || r.error == MalformedKey
    ensures r == Err(BadSignatureLength) <==>
      |rawSign(SigningMessage(WithContentHash(w, tcpa, sha1), tcpa, sha1))| != SignatureLength
    ensures r == Err(MalformedKey) <==>
      |rawSign(SigningMessage(WithContentHash(w, tcpa, sha1), tcpa, sha1))| == SignatureLength &&
      |publicKey| < ModulusStop
  {
    var w1 := WithContentHash(w, tcpa, sha1);
    var signature := rawSign(SigningMessage(w1, tcpa, sha1));
    if |signature| != SignatureLength then Err(BadSignatureLength)
    else match ExtractModulus(publicKey)
      case None => Err(MalformedKey)
      case Some(modulus) => Ok(Overwrite(Overwrite(w1, tcpa + SignatureOffset, signature), modulusOffset, modulus))
  }

  /**
    The script on the working region: before step [1/6] it finds the marker
    and the modulus anchor; it then checks that every window fits and patches. A missing marker is
    the first error reported, before the anchor is looked for or any byte is
    patched; a successful run keeps the region's length.
   */
  function SignedRegion(w: seq<byte>, sandy: bool, sha1: seq<byte> -> Digest,
                        rawSign: seq<byte> -> seq<byte>, publicKey: seq<byte>): (r: Result<seq<byte>, ResignError>)
    ensures r == Err(MarkerNotFound) <==> forall i :: !OccursAt(w, TcpaMarker, i)
    ensures r.Ok? ==> |r.value| == |w|
  {
    var tcpa := Find(w, TcpaMarker);
    if tcpa == -1 then Err(MarkerNotFound)
    else
      var modulusOffset := ModulusAnchor(w, sandy);
      if modulusOffset == -1 then Err(ModulusAnchorNotFound)
      else if |w| < tcpa + SizeEnd then Err(SizeFieldTruncated)
      else if |w| < tcpa + SignatureEnd || |w| < modulusOffset + ModulusLength then Err(WindowOutOfBounds)
      else PatchedRegion(w, tcpa, modulusOffset, sha1, rawSign, publicKey)
  }

  /**
    The whole script: the prefix followed by the signed working region, of
    the input's length, or the error that stopped the run on the region.
   */
  function SignedImage(image: seq<byte>, sandy: bool, sha1: seq<byte> -> Digest,
                       rawSign: seq<byte> -> seq<byte>, publicKey: seq<byte>): (r: Result<seq<byte>, ResignError>)
    ensures var region := SignedRegion(Working(image, DetectLayout(image, sandy)), sandy, sha1, rawSign, publicKey);
      && (r.Ok? <==> region.Ok?)
      && (r.Err? ==> r.error == region.error)
      && (r.Ok? ==> |r.value| == |image|)
  {
    var layout := DetectLayout(image, sandy);
    match SignedRegion(Working(image, layout), sandy, sha1, rawSign, publicKey)
    case Err(e) => Err(e)
    case Ok(patched) => Ok(Prefix(image, layout) + patched)
  }

  // ---------------------------------------------------------------------------
  // Properties of the transform

  /** The three windows the signer writes. */
  predicate Written(i: int, tcpa: nat, modulusOffset: nat)
  {
    || tcpa + HashOffset <= i < tcpa + HashEnd
    || tcpa + SignatureOffset <= i < tcpa + SignatureEnd
    || modulusOffset <= i < modulusOffset + ModulusLength
  }

  /** A successful patch is the two overwrites on top of the content hash. */
  lemma PatchedRegionSteps(w: seq<byte>, tcpa: nat, modulusOffset: nat, sha1: seq<byte> -> Digest,
                           rawSign: seq<byte> -> seq<byte>, publicKey: seq<byte>)
    requires tcpa + SignatureEnd <= |w| && modulusOffset + ModulusLength <= |w|
    requires PatchedRegion(w, tcpa, modulusOffset, sha1, rawSign, publicKey).Ok?
    ensures var w1 := WithContentHash(w, tcpa, sha1);
      var signature := rawSign(SigningMessage(w1, tcpa, sha1));
      && |signature| == SignatureLength && |publicKey| >= ModulusStop
      && PatchedRegion(w, tcpa, modulusOffset, sha1, rawSign, publicKey).value
         == Overwrite(Overwrite(w1, tcpa + SignatureOffset, signature), modulusOffset, publicKey[ModulusStart..ModulusStop])
  {
  }

  /**
    What the patched region holds: the modulus window holds the exported
    modulus; the signature window holds the provider's signature of the
    signing message and the hash window the content hash, each unless the
    modulus was written over it; every other byte is the input's.
   */
  lemma PatchedRegionContents(w: seq<byte>, tcpa: nat, modulusOffset: nat, sha1: seq<byte> -> Digest,
                              rawSign: seq<byte> -> seq<byte>, publicKey: seq<byte>)
    requires tcpa + SignatureEnd <= |w| && modulusOffset + ModulusLength <= |w|
    requires PatchedRegion(w, tcpa, modulusOffset, sha1, rawSign, publicKey).Ok?
    ensures var p := PatchedRegion(w, tcpa, modulusOffset, sha1, rawSign, publicKey).value;
      var signature := rawSign(SigningMessage(WithContentHash(w, tcpa, sha1), tcpa, sha1));
      && p[modulusOffset .. modulusOffset + ModulusLength] == publicKey[ModulusStart..ModulusStop]
      && (Disjoint(modulusOffset, modulusOffset + ModulusLength, tcpa + SignatureOffset, tcpa + SignatureEnd) ==>
            p[tcpa + SignatureOffset .. tcpa + SignatureEnd] == signature)
      && (Disjoint(modulusOffset, modulusOffset + ModulusLength, tcpa + HashOffset, tcpa + HashEnd) ==>
            p[tcpa + HashOffset .. tcpa + HashEnd] == sha1(Content(w, tcpa)))
      && forall i :: 0 <= i < |w| && !Written(i, tcpa, modulusOffset) ==> p[i] == w[i]
  {
    var w1 := WithContentHash(w, tcpa, sha1);
    var signature := rawSign(SigningMessage(w1, tcpa, sha1));
    var modulus := publicKey[ModulusStart..ModulusStop];
    var w2 := Overwrite(w1, tcpa + SignatureOffset, signature);
    var p := Overwrite(w2, modulusOffset, modulus);
    assert PatchedRegion(w, tcpa, modulusOffset, sha1, rawSign, publicKey).value == p;
    if Disjoint(modulusOffset, modulusOffset + ModulusLength, tcpa + SignatureOffset, tcpa + SignatureEnd) {
      OverwriteOutside(w2, modulusOffset, modulus, tcpa + SignatureOffset, tcpa + SignatureEnd);
    }
    if Disjoint(modulusOffset, modulusOffset + ModulusLength, tcpa + HashOffset, tcpa + HashEnd) {
      OverwriteOutside(w2, modulusOffset, modulus, tcpa + HashOffset, tcpa + HashEnd);
      OverwriteOutside(w1, tcpa + SignatureOffset, signature, tcpa + HashOffset, tcpa + HashEnd);
    }
  }

  /**
    Byte by byte, where the modulus window overlaps neither: the signature
    window holds the signature and the hash window the content hash, even
    when the modulus covers part of them.
   */
  lemma PatchedRegionWindows(w: seq<byte>, tcpa: nat, modulusOffset: nat, sha1: seq<byte> -> Digest,
                             rawSign: seq<byte> -> seq<byte>, publicKey: seq<byte>)
    requires tcpa + SignatureEnd <= |w| && modulusOffset + ModulusLength <= |w|
    requires PatchedRegion(w, tcpa, modulusOffset, sha1, rawSign, publicKey).Ok?
    ensures var p := PatchedRegion(w, tcpa, modulusOffset, sha1, rawSign, publicKey).value;
      var signature := rawSign(SigningMessage(WithContentHash(w, tcpa, sha1), tcpa, sha1));
      && (forall i :: tcpa + SignatureOffset <= i < tcpa + SignatureEnd && !(modulusOffset <= i < modulusOffset + ModulusLength) ==>
            p[i] == signature[i - (tcpa + SignatureOffset)])
      && (forall i :: tcpa + HashOffset <= i < tcpa + HashEnd && !(modulusOffset <= i < modulusOffset + ModulusLength) ==>
            p[i] == sha1(Content(w, tcpa))[i - (tcpa + HashOffset)])
  {
    var w1 := WithContentHash(w, tcpa, sha1);
    var signature := rawSign(SigningMessage(w1, tcpa, sha1));
    var w2 := Overwrite(w1, tcpa + SignatureOffset, signature);
    assert PatchedRegion(w, tcpa, modulusOffset, sha1, rawSign, publicKey).value
        == Overwrite(w2, modulusOffset, publicKey[ModulusStart..ModulusStop]);
  }

  /**
    A successful run found the marker and the anchor, every window fits in
    the working region, and the region is patched as `PatchedRegion` says.
   */
  lemma SignedRegionParts(w: seq<byte>, sandy: bool, sha1: seq<byte> -> Digest,
                          rawSign: seq<byte> -> seq<byte>, publicKey: seq<byte>)
    requires SignedRegion(w, sandy, sha1, rawSign, publicKey).Ok?
    ensures var tcpa := Find(w, TcpaMarker);
      var modulusOffset := ModulusAnchor(w, sandy);
      && 0 <= tcpa && tcpa + SignatureEnd <= |w|
      && 0 <= modulusOffset && modulusOffset + ModulusLength <= |w|
      && SignedRegion(w, sandy, sha1, rawSign, publicKey) == PatchedRegion(w, tcpa, modulusOffset, sha1, rawSign, publicKey)
  {
  }

  /**
    Why a run on the working region stops, in the order the script meets the
    conditions, and when it succeeds: the marker and the anchor are found,
    every window fits, the provider's signature has 128 bytes and the
    exported key at least 157.
   */
  lemma SignedRegionOutcome(w: seq<byte>, sandy: bool, sha1: seq<byte> -> Digest,
                            rawSign: seq<byte> -> seq<byte>, publicKey: seq<byte>)
    ensures var r := SignedRegion(w, sandy, sha1, rawSign, publicKey);
      var tcpa := Find(w, TcpaMarker);
      var modulusOffset := ModulusAnchor(w, sandy);
      && (r == Err(ModulusAnchorNotFound) <==>
            tcpa != -1 && forall i :: !OccursAt(w, AnchorPattern(sandy), i))
      && (r == Err(SizeFieldTruncated) <==>
            tcpa != -1 && modulusOffset != -1 && |w| < tcpa + SizeEnd)
      && (r == Err(WindowOutOfBounds) <==>
            tcpa != -1 && modulusOffset != -1 && tcpa + SizeEnd <= |w| &&
            (|w| < tcpa + SignatureEnd || |w| < modulusOffset + ModulusLength))
      && (r == Err(BadSignatureLength) <==>
            && tcpa != -1 && modulusOffset != -1
            && tcpa + SignatureEnd <= |w| && modulusOffset + ModulusLength <= |w|
            && |rawSign(SigningMessage(WithContentHash(w, tcpa, sha1), tcpa, sha1))| != SignatureLength)
      && (r == Err(MalformedKey) <==>
            && tcpa != -1 && modulusOffset != -1
            && tcpa + SignatureEnd <= |w| && modulusOffset + ModulusLength <= |w|
            && |rawSign(SigningMessage(WithContentHash(w, tcpa, sha1), tcpa, sha1))| == SignatureLength
            && |publicKey| < ModulusStop)
      && (r.Ok? <==>
            && tcpa != -1 && modulusOffset != -1
            && tcpa + SignatureEnd <= |w| && modulusOffset + ModulusLength <= |w|
            && |rawSign(SigningMessage(WithContentHash(w, tcpa, sha1), tcpa, sha1))| == SignatureLength
            && |publicKey| >= ModulusStop)
  {
  }

  /**
    The output has the input's length and keeps its prefix byte for byte:
    only the working region is patched.
   */
  lemma SignedImageKeepsPrefix(image: seq<byte>, sandy: bool, sha1: seq<byte> -> Digest,
                               rawSign: seq<byte> -> seq<byte>, publicKey: seq<byte>)
    requires SignedImage(image, sandy, sha1, rawSign, publicKey).Ok?
    ensures var out := SignedImage(image, sandy, sha1, rawSign, publicKey).value;
      var cut := Cut(image, DetectLayout(image, sandy));
      |out| == |image| && out[..cut] == image[..cut]
  {
    var layout := DetectLayout(image, sandy);
    SignedRegionParts(Working(image, layout), sandy, sha1, rawSign, publicKey);
  }

  // ---------------------------------------------------------------------------
  // The transform on a mutable buffer

  /** `data[at:at+len(bytes)] = bytes` with an in-bounds, exact-length target. */
  method Splice(data: array<byte>, at: nat, bytes: seq<byte>)
    requires at + |bytes| <= data.Length
    modifies data
    ensures data[..] == Overwrite(old(data[..]), at, bytes)
    ensures forall i :: 0 <= i < data.Length && !(at <= i < at + |bytes|) ==> data[i] == old(data[i])
  {
    forall i | at <= i < at + |bytes| {
      data[i] := bytes[i - at];
    }
  }

  /**
    Steps [1/6] to [6/6] of the script on the working region held in
    `data`: the buffer ends as `PatchedRegion` of its old contents. A run
    that stops early leaves the patches made so far: the content hash alone
    when the signature has the wrong length, the hash and the signature when
    the key is malformed. Whatever the outcome, only the three windows may
    have changed.
   */
  method PatchRegion(data: array<byte>, tcpa: nat, modulusOffset: nat, sha1: seq<byte> -> Digest,
                     rawSign: seq<byte> -> seq<byte>, publicKey: seq<byte>) returns (r: Outcome<ResignError>)
    requires tcpa + SignatureEnd <= data.Length && modulusOffset + ModulusLength <= data.Length
    modifies data
    ensures var s := PatchedRegion(old(data[..]), tcpa, modulusOffset, sha1, rawSign, publicKey);
      && (r == Pass <==> s.Ok?)
      && (s.Err? ==> r == Fail(s.error))
      && (s.Ok? ==> data[..] == s.value)
    ensures r == Fail(BadSignatureLength) ==> data[..] == WithContentHash(old(data[..]), tcpa, sha1)
    ensures r == Fail(MalformedKey) ==>
      var w1 := WithContentHash(old(data[..]), tcpa, sha1);
      data[..] == Overwrite(w1, tcpa + SignatureOffset, rawSign(SigningMessage(w1, tcpa, sha1)))
    ensures forall i :: 0 <= i < data.Length && !Written(i, tcpa, modulusOffset) ==> data[i] == old(data[i])
  {
    var size := ContentSize(data[..], tcpa);
    var contentHash := sha1(Slice(data[..], 0, size));
    Splice(data, tcpa + HashOffset, contentHash);
    assert data[..] == WithContentHash(old(data[..]), tcpa, sha1);
    var signature := rawSign(SigningMessage(data[..], tcpa, sha1));
    if |signature| != SignatureLength {
      return Fail(BadSignatureLength);
    }
    Splice(data, tcpa + SignatureOffset, signature);
    assert data[..] == Overwrite(WithContentHash(old(data[..]), tcpa, sha1), tcpa + SignatureOffset, signature);
    var modulus := ExtractModulus(publicKey);
    if modulus.None? {
      return Fail(MalformedKey);
    }
    Splice(data, modulusOffset, modulus.value);
    PatchedRegionContents(old(data[..]), tcpa, modulusOffset, sha1, rawSign, publicKey);
    return Pass;
  }

  /**
    The working region searched, checked, and patched in a fresh copy: the
    result is the signed region or the error that stopped the run.
   */
  method SignRegion(region: seq<byte>, sandy: bool, sha1: seq<byte> -> Digest,
                    rawSign: seq<byte> -> seq<byte>, publicKey: seq<byte>) returns (r: Result<seq<byte>, ResignError>)
    ensures r == SignedRegion(region, sandy, sha1, rawSign, publicKey)
  {
    var tcpa := Find(region, TcpaMarker);
    if tcpa == -1 {
      return Err(MarkerNotFound);
    }
    var modulusOffset := ModulusAnchor(region, sandy);
    if modulusOffset == -1 {
      return Err(ModulusAnchorNotFound);
    }
    if |region| < tcpa + SizeEnd {
      return Err(SizeFieldTruncated);
    }
    if |region| < tcpa + SignatureEnd || |region| < modulusOffset + ModulusLength {
      return Err(WindowOutOfBounds);
    }
    r := PatchCopy(region, tcpa, modulusOffset, sha1, rawSign, publicKey);
  }

  /** `bytearray(region)` patched in place: the patched copy, or the error that stopped the patching. */
  method PatchCopy(region: seq<byte>, tcpa: nat, modulusOffset: nat, sha1: seq<byte> -> Digest,
                   rawSign: seq<byte> -> seq<byte>, publicKey: seq<byte>) returns (r: Result<seq<byte>, ResignError>)
    requires tcpa + SignatureEnd <= |region| && modulusOffset + ModulusLength <= |region|
    ensures r == PatchedRegion(region, tcpa, modulusOffset, sha1, rawSign, publicKey)
  {
    var data := new byte[|region|](i requires 0 <= i < |region| => region[i]);
    assert data[..] == region;
    var outcome := PatchRegion(data, tcpa, modulusOffset, sha1, rawSign, publicKey);
    if outcome.Fail? {
      return Err(outcome.error);
    }
    return Ok(data[..]);
  }

  /** The script end to end: the prefix is kept aside and written back before the signed region. */
  method Resign(image: seq<byte>, sandy: bool, sha1: seq<byte> -> Digest,
                rawSign: seq<byte> -> seq<byte>, publicKey: seq<byte>) returns (r: Result<seq<byte>, ResignError>)
    ensures r == SignedImage(image, sandy, sha1, rawSign, publicKey)
  {
    var layout := DetectLayout(image, sandy);
    var garbage, region := Prefix(image, layout), Working(image, layout);
    var patched := SignRegion(region, sandy, sha1, rawSign, publicKey);
    if patched.Err? {
      return Err(patched.error);
    }
    return Ok(garbage + patched.value);
  }
}
