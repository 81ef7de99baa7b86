/**
  The firmware image as both scripts see it: the fixed markers, the three
  layouts with their opaque prefixes, the modulus anchors, and the fields of
  the TCPA block at fixed offsets from the `TCPABIOS` marker.
 */
module Firmware {
  import opened Bytes

  /** ASCII "TCPABIOS": the marker that opens the TCPA block. */
  const TcpaMarker: seq<byte> := [0x54, 0x43, 0x50, 0x41, 0x42, 0x49, 0x4F, 0x53]

  /** Sixteen 0xFF bytes then 5A A5 F0: the Intel flash descriptor signature at offset 0. */
  const IntelImageHeader: seq<byte> :=
    [0xFF, 0xFF, 0xFF, 0xFF, 0xFF, 0xFF, 0xFF, 0xFF, 0xFF, 0xFF, 0xFF, 0xFF, 0xFF, 0xFF, 0xFF, 0xFF,
     0x5A, 0xA5, 0xF0]

  const BroadwellBiosRegionOffset: nat := 10485760
  const SandyPrefixLength: nat := 72

  /** "LenovoTpmOemPei" in UTF-16, 29 bytes (the final zero byte is not part of it). */
  const LenovoTpmOemPeiHeader: seq<byte> :=
    [0x4C, 0x00, 0x65, 0x00, 0x6E, 0x00, 0x6F, 0x00, 0x76, 0x00, 0x6F, 0x00, 0x54, 0x00, 0x70,
     0x00, 0x6D, 0x00, 0x4F, 0x00, 0x65, 0x00, 0x6D, 0x00, 0x50, 0x00, 0x65, 0x00, 0x69]

  /** Sixteen 0xFF bytes then 12 04: the modulus anchor on Sandy/Ivy Bridge images. */
  const SandyModulusPattern: seq<byte> :=
    [0xFF, 0xFF, 0xFF, 0xFF, 0xFF, 0xFF, 0xFF, 0xFF, 0xFF, 0xFF, 0xFF, 0xFF, 0xFF, 0xFF, 0xFF, 0xFF,
     0x12, 0x04]

  // Fields of the TCPA block, relative to the marker.
  const HashOffset: nat := 32
  const HashEnd: nat := 52
  const SizeOffset: nat := 56
  const SizeEnd: nat := 59
  const SignedLength: nat := 107
  const SignatureOffset: nat := 110
  const SignatureLength: nat := 128
  const SignatureEnd: nat := 238
  const ModulusLength: nat := 129

  /** Exactly one layout is selected per run. */
  datatype Layout = Plain | SandyCompat | Broadwell

  /** The length of the opaque prefix each layout keeps out of the working region. */
  function PrefixLength(layout: Layout): (n: nat)
    ensures n == 0 <==> layout == Plain
    ensures n <= BroadwellBiosRegionOffset
  {
    match layout
    case Plain => 0
    case SandyCompat => SandyPrefixLength
    case Broadwell => BroadwellBiosRegionOffset
  }

  /**
    `data[0:19] == INTEL_IMAGE_HEADER`, a clamped slice compared with 19
    bytes: the image starts with sixteen 0xFF bytes and then 5A A5 F0.
   */
  function HasIntelHeader(image: seq<byte>): (b: bool)
    ensures b <==>
      && |image| >= 19
      && (forall i :: 0 <= i < 16 ==> image[i] == 0xFF)
      && image[16] == 0x5A && image[17] == 0xA5 && image[18] == 0xF0
  {
    if |image| >= |IntelImageHeader| && image[..|IntelImageHeader|] == IntelImageHeader then
      true
    else
      assert |image| >= 19 ==> exists i :: 0 <= i < 19 && image[i] != IntelImageHeader[i];
      false
  }

  /** Where the working region starts: the prefix length, clamped to the image. */
  function Cut(image: seq<byte>, layout: Layout): (n: nat)
    ensures n <= |image|
    ensures n == PrefixLength(layout) || (n == |image| && |image| < PrefixLength(layout))
  {
    Min(PrefixLength(layout), |image|)
  }

  /**
    `data[:k]`: the bytes kept verbatim, the image's first bytes up to the
    layout's prefix length or the whole image when it is shorter; empty for
    the plain layout.
   */
  function Prefix(image: seq<byte>, layout: Layout): (p: seq<byte>)
    ensures |p| == Min(PrefixLength(layout), |image|)
    ensures forall i :: 0 <= i < |p| ==> p[i] == image[i]
    ensures layout == Plain ==> p == []
  {
    image[..Cut(image, layout)]
  }

  /** `data[k:]`: the bytes that are searched and patched. */
  function Working(image: seq<byte>, layout: Layout): (w: seq<byte>)
    ensures Prefix(image, layout) + w == image
    ensures |w| == |image| - Cut(image, layout)
  {
    image[Cut(image, layout)..]
  }

  /**
    The byte pattern that anchors the modulus; the choice depends only on the
    flag: 18 bytes ending in 12 04 under `--sandy`, else the 29-byte UTF-16 name.
   */
  function AnchorPattern(sandy: bool): (p: seq<byte>)
    ensures |p| == if sandy then 18 else 29
  {
    if sandy then SandyModulusPattern else LenovoTpmOemPeiHeader
  }

  /** How far past the start of the anchor pattern the modulus begins. */
  function AnchorDelta(sandy: bool): (d: nat)
    ensures d >= |AnchorPattern(sandy)|
  {
    if sandy then 18 else 82
  }

  /**
    The content size: the three bytes at tcpa+56, padded with five zero bytes
    and read as a signed 64-bit little-endian integer (`struct.unpack('<q')`).
    Its value is b0 + 256*b1 + 65536*b2, never above 0xFFFFFF.
   */
  function ContentSize(w: seq<byte>, tcpa: nat): (n: int)
    requires tcpa + SizeEnd <= |w|
    ensures n == w[tcpa + 56] as int + 256 * w[tcpa + 57] as int + 65536 * w[tcpa + 58] as int
    ensures 0 <= n <= 0xFF_FFFF
  {
    var field := w[tcpa + SizeOffset .. tcpa + SizeEnd];
    PaddedThreeByteDecode(field);
    Int64LE(field + Zeros(5))
  }

  /** `data[:size]`: the bytes covered by the content hash. */
  function Content(w: seq<byte>, tcpa: nat): (c: seq<byte>)
    requires tcpa + SizeEnd <= |w|
    ensures c == w[..Min(ContentSize(w, tcpa), |w|)]
  {
    Slice(w, 0, ContentSize(w, tcpa))
  }
}
