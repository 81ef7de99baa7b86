# TCPABIOS re-signing and verification, modelled in Dafny

Two scripts handle the "TCPABIOS" trust record that Lenovo ThinkPad firmware images
carry. `replace_signature.py` re-signs an image:

1. It strips an opaque prefix, finds the first `TCPABIOS` marker and finds the modulus anchor.
2. It writes the SHA-1 of the content into the record.
3. It signs the first 107 bytes of the record with a fresh 1024-bit, exponent-3 RSA key, using raw RSA with no padding.
4. It writes the signature and the new public modulus into the image.

`verify_signature.py` checks an image. It compares the stored content hash with a fresh one. It then rebuilds a DER public key around the modulus found in the image and checks that the raw RSA public operation on the stored signature ends with the SHA-1 of the record.

The model works on byte sequences (`seq<byte>`, with `byte` a newtype over 0..255) and has eight modules:

- `Wrappers` holds the `Option`, `Result` and `Outcome` types that carry errors.
- `Bytes`
  - Python's clamped read slice (`Slice`) and exact-length slice assignment (`Overwrite`).
  - `bytes.find` (`Find`: the least index, or -1).
  - The `struct '<q'` decode (`Int64LE`).
- `Hexadecimal` models `bytes.hex()` and `hexdigest()`, and `x[-n:]` on strings.
- `Firmware` holds what both scripts share:
  - the constants;
  - the three layouts and the prefix cut;
  - the anchor patterns;
  - the size decode and the hashed content.
- `PublicKey` builds the 160-byte DER envelope, extracts the modulus, and reads the envelope's DER layout independently. The envelope is the SubjectPublicKeyInfo of section 4.1 of RFC 5280 wrapping the RSAPublicKey of Appendix A.1.1 of RFC 8017.
- `ReplaceSignature` models the signer in two forms:
  - As value-level functions: `DetectLayout`, `ModulusAnchor`, `WithContentHash`, `SigningMessage`, `PatchedRegion`, `SignedRegion` and `SignedImage`.
  - As the imperative script over a mutable `array<byte>`: `Splice`, `PatchRegion`, `PatchCopy`, `SignRegion` and `Resign`. These methods are proved to agree with the functions.
- `VerifySignature` models the verifier as a pure function, `Verify`. It returns either an error or a `Report` of the two check results.
- `RoundTrip` relates the two scripts. It proves the conditions under which an image the signer produced passes both of the verifier's checks.

SHA-1 is a parameter `sha1: seq<byte> -> Digest` that returns 20 bytes. The `openssl` calls are also parameters:

- `rawSign` is what `rsautl -sign -raw` returns for a message.
- `publicKey` is the DER key that `rsa -pubout` exports.
- `rawVerify(signature, key)` is what `rsautl -verify -raw` prints. This is the RSAVP1 primitive of section 5.2.2 of RFC 8017, with no padding removed.

The two scripts choose the layout in opposite orders, and each keeps its own order:

- The signer tests for the Broadwell flash-descriptor header first and only then looks at `--sandy` (replace_signature.py:27-34).
- The verifier honours `--sandy` first (verify_signature.py:26-32).

`RoundTrip.LayoutsAgree` proves that they disagree exactly when `--sandy` is given for an image that starts with the Broadwell header.

A missing modulus anchor is a warning in the signer. The script then goes on and writes to a negative offset (replace_signature.py:55-56,88). The model stops with `ModulusAnchorNotFound` instead. The verifier performs no such check: with no anchor, it reads the modulus at offset 17 (`--sandy`) or 81. `VerifySignature.ModulusOffset` states this.

## Model

| member | source | states |
|---|---|---|
| Bytes.Find | replace_signature.py:38 | `bytes.find`: -1 exactly when the needle occurs nowhere; otherwise an occurrence with none before it |
| Bytes.FindPreserved | replace_signature.py:38-52 | changing bytes only at or after the end of the first occurrence leaves the first occurrence where it was |
| Bytes.Slice | verify_signature.py:42 | Python's read slice clamps both bounds to the length: the ordinary slice when in bounds, element by element otherwise |
| Bytes.Overwrite | replace_signature.py:66 | an in-bounds, exact-length slice assignment: same length, the window holds the new bytes, every other byte is kept |
| Bytes.OverwriteOutside | replace_signature.py:82 | a slice assignment leaves any range it does not touch unchanged |
| Bytes.Int64LE | replace_signature.py:61 | `struct.unpack('<q')` yields a signed 64-bit value |
| Bytes.PaddedThreeByteDecode | replace_signature.py:61 | three bytes padded with five zero bytes decode to b0 + 256*b1 + 65536*b2, within [0, 0xFFFFFF] |
| Hexadecimal.Hex | verify_signature.py:42 | `.hex()` gives two characters per byte |
| Hexadecimal.HexInjective | verify_signature.py:53 | two hex strings are equal exactly when the bytes are equal, so the hex comparison is a byte comparison |
| Hexadecimal.LastChars | verify_signature.py:85 | `x[-n:]` for n > 0: the last min(n, len x) characters of x |
| Hexadecimal.TailMatchesIff | verify_signature.py:85-87 | the last 40 hex characters of the output equal the hex of a digest exactly when the output has at least 20 bytes and ends with that digest |
| Firmware.PrefixLength | replace_signature.py:29-36 | the prefix length is zero exactly for the plain layout, and at most the Broadwell BIOS region offset |
| Firmware.Cut | replace_signature.py:29-34 | the cut lies inside the image: the prefix length, or the image's length when the image is shorter |
| Firmware.HasIntelHeader | replace_signature.py:27 | `data[0:19] == INTEL_IMAGE_HEADER` holds exactly when the image has at least 19 bytes, sixteen 0xFF and then 5A A5 F0 |
| Firmware.Prefix | replace_signature.py:29-36 | `garbage`: the image's first min(k, len) bytes for the layout's prefix length k, empty for the plain layout |
| Firmware.Working | replace_signature.py:29-36 | the prefix followed by the working region is the image, and the region's length is the image's minus the cut |
| Firmware.AnchorPattern | replace_signature.py:45-50 | the anchor depends only on the flag: 18 bytes under `--sandy`, else the 29-byte UTF-16 name |
| Firmware.AnchorDelta | replace_signature.py:45-52 | the offset added to the anchor (18 under `--sandy`, else 82) is at least the pattern's length, so the modulus window starts past the anchor |
| Firmware.ContentSize | replace_signature.py:60-61 | the size is the 3-byte little-endian value at tcpa+56, within [0, 0xFFFFFF] |
| Firmware.Content | replace_signature.py:62 | the hashed content is the region's bytes [0, min(size, len)) |
| PublicKey.BuildEnvelope | verify_signature.py:75 | the envelope is the fixed 28-byte head, the modulus and the 3-byte tail |
| PublicKey.ExtractModulus | replace_signature.py:88 | `pubkey[28:157]` exists exactly when the key has at least 157 bytes and is then the 129 bytes [28, 157) |
| PublicKey.ExtractBuiltEnvelope | replace_signature.py:88 | cutting [28, 157) out of the 160-byte envelope of a 129-byte modulus gives the modulus back |
| PublicKey.BuildExtractedModulus | verify_signature.py:8-9 | a 160-byte key with the fixed head and tail is the envelope of the modulus cut out of it |
| PublicKey.EnvelopeLayout | verify_signature.py:8-9 | read as DER, every length in the head closes where its element ends: outer SEQUENCE 157, BIT STRING 139, RSAPublicKey 135, modulus INTEGER [28, 157), exponent INTEGER 3 |
| PublicKey.EnvelopeBytes | verify_signature.py:9 | the envelope is 160 bytes: the head byte for byte, then the exponent-3 INTEGER at bytes 157 to 159 |
| ReplaceSignature.DetectLayout | replace_signature.py:27-36 | Broadwell exactly when the Intel header is present, even with `--sandy`; Sandy only with the flag and no header; plain otherwise |
| ReplaceSignature.ModulusAnchor | replace_signature.py:43-53 | -1 exactly when the flag's pattern occurs nowhere; otherwise the first occurrence plus the flag's delta, chosen by the flag alone |
| ReplaceSignature.WithContentHash | replace_signature.py:62-66 | the hash window holds SHA-1 of the region's first min(size, len) bytes and every other byte is unchanged |
| ReplaceSignature.SigningMessage | replace_signature.py:74-76 | 128 bytes: 108 zeros and then SHA-1 of [tcpa, tcpa+107) as read after the hash patch; as a big-endian number it is below 2^160 |
| ReplaceSignature.PatchedRegion | replace_signature.py:62-88 | the length is kept; the only errors are a signature that is not 128 bytes and a key shorter than 157 bytes, each exactly when it happens |
| ReplaceSignature.PatchedRegionContents | replace_signature.py:66-88 | the modulus window holds `pubkey[28:157]`; the signature and hash windows hold the signature and the content hash unless the modulus overlaps them; no other byte changes |
| ReplaceSignature.PatchedRegionWindows | replace_signature.py:66-88 | byte by byte, every signature-window byte the modulus does not cover holds the signature, and every such hash-window byte the content hash |
| ReplaceSignature.SignedRegion | replace_signature.py:38-88 | the run fails with the missing-marker error exactly when the marker occurs nowhere in the region; a successful run keeps the region's length |
| ReplaceSignature.SignedRegionOutcome | replace_signature.py:38-88 | each later error exactly when it is the first condition met (marker found but no anchor; size field past the end; a window past the end; a signature not of 128 bytes; a key shorter than 157 bytes); success exactly when marker and anchor are found, every window fits, the signature has 128 bytes and the key at least 157 |
| ReplaceSignature.SignedImage | replace_signature.py:27-92 | the image run succeeds exactly when the run on its working region does, fails with the same error otherwise, and keeps the image's length |
| ReplaceSignature.SignedImageKeepsPrefix | replace_signature.py:92 | the output has the input's length and the same prefix byte for byte |
| ReplaceSignature.Splice | replace_signature.py:66 | the array afterwards is the overwrite of its old contents, and nothing outside the window changes |
| ReplaceSignature.PatchRegion | replace_signature.py:60-88 | the buffer is patched in place into `PatchedRegion` of its old contents, or the matching error is returned; on a bad signature length the buffer holds the hash patch only, on a malformed key the hash and signature patches; in every case only the three windows can differ |
| ReplaceSignature.PatchCopy | replace_signature.py:25 | the patched mutable copy of the region equals `PatchedRegion` |
| ReplaceSignature.SignRegion | replace_signature.py:38-88 | searching, checking and patching the region gives `SignedRegion` |
| ReplaceSignature.Resign | replace_signature.py:27-92 | the imperative script's result is `SignedImage` of the input |
| VerifySignature.DetectLayout | verify_signature.py:26-32 | Sandy exactly when flagged, even with the Intel header; Broadwell only without the flag and with the header; plain otherwise |
| VerifySignature.StoredHashHex | verify_signature.py:41-42 | at most 40 characters, and the hex of the 20 bytes at tcpa+32 when they lie inside the region |
| VerifySignature.CalculatedHashHex | verify_signature.py:46-51 | 40 characters: the hex of SHA-1 of the region's first min(size, len) bytes |
| VerifySignature.HashMatches | verify_signature.py:41-53 | the hashes match exactly when the 20 bytes at tcpa+32 are SHA-1 of the region's first min(size, len) bytes |
| VerifySignature.BlockHashHex | verify_signature.py:61 | 40 characters: the hex of SHA-1 of [tcpa, tcpa+107) when that window lies inside the region |
| VerifySignature.StoredSignature | verify_signature.py:63-64 | at most 128 bytes, and exactly the 128 bytes at tcpa+110 when they fit |
| VerifySignature.ModulusOffset | verify_signature.py:66-70 | the first anchor plus the delta; exactly delta-1 (17 or 81) when the anchor is absent, with no error |
| VerifySignature.StoredModulus | verify_signature.py:72 | at most 129 bytes, and exactly the 129 bytes at the modulus offset when they fit |
| VerifySignature.Recovered | verify_signature.py:72-85 | when both windows fit, the provider's output for the 128 bytes at tcpa+110 under the envelope of the 129 bytes at the modulus offset |
| VerifySignature.SignatureValid | verify_signature.py:61-87 | the signature is valid exactly when the provider output has at least 20 bytes and its last 20 are SHA-1 of [tcpa, tcpa+107) |
| VerifySignature.Verify | verify_signature.py:26-90 | the run fails exactly when the marker is missing or the size field runs past the end; otherwise it reports both checks, each as its characterisation states |
| RoundTrip.LayoutsAgree | verify_signature.py:26-32 | the two scripts pick the same layout exactly unless `--sandy` is given for an image with the Intel header |
| RoundTrip.KeptBelow | replace_signature.py:66-88 | below the hash window and the modulus window the patched region equals its input |
| RoundTrip.MarkerSurvives | verify_signature.py:34 | if the modulus window starts past the marker, the verifier finds the signer's marker again |
| RoundTrip.AnchorSurvives | verify_signature.py:66-70 | if the first anchor ends before the hash window, the verifier finds the modulus where the signer wrote it |
| RoundTrip.SignedFieldsIntact | verify_signature.py:46-51 | when the content ends before the hash window and the modulus misses the content and the record, the verifier decodes the same size and hashes the same content |
| RoundTrip.SignedWindowIntact | verify_signature.py:61 | when the modulus misses [tcpa, tcpa+107), the verifier hashes exactly the window the signer signed |
| RoundTrip.HashCheckPasses | verify_signature.py:41-53 | the hash check passes on a signed region whose content ends before the hash window and whose modulus misses it |
| RoundTrip.ProviderRecoversMessage | verify_signature.py:72-85 | if the stored signature is `rawSign` of a 128-byte message below 2^160 and the verifier reads the exported modulus, the provider's output is that message |
| RoundTrip.SignatureCheckPasses | verify_signature.py:61-87 | if the provider's operations are inverse on messages below 2^160 and the verifier finds the modulus the signer wrote, the signature check passes |
| RoundTrip.LayoutSurvives | verify_signature.py:26-32 | when the scripts agree on the layout, the verifier picks it again on the signed image and sees the signed region |
| RoundTrip.SignedRegionVerifies | verify_signature.py:41-87 | a region the signer patched passes both checks under the separation and search conditions |
| RoundTrip.SignThenVerify | verify_signature.py:26-90 | the signed image verifies, with both checks true, under these conditions: the layouts agree; rawVerify(rawSign(m)) = m under the exported key for every 128-byte m below 2^160; size <= tcpa+32; the modulus misses the content, the record's first 107 bytes and the signature; the verifier finds the same marker and anchor |
| RoundTrip.SignThenVerifyModulusAfterMarker | verify_signature.py:26-90 | the same round trip when the modulus starts at least 8 bytes past the marker (for instance after the signature): the marker's survival is derived, and only the anchor's is assumed |
| RoundTrip.SignThenVerifyAnchorBeforeHash | verify_signature.py:26-90 | the same round trip when the first anchor ends before the hash field: the anchor's survival is derived, and only the marker's is assumed |

## Left out

- Command-line parsing, console output and its colours, reading the input file and writing the output file are left out. This is I/O (replace_signature.py:18-25,90-94; verify_signature.py:18-24).
- The four `openssl` subprocesses are not modelled. Key generation (`genrsa`) is random and becomes the pair of parameters `rawSign` and `publicKey`. The raw sign, the public-key export and the raw verify become the parameters `rawSign`, `publicKey` and `rawVerify`. RSA exponentiation itself is not modelled.
- SHA-1 is left out. It is the parameter `sha1`, which returns exactly 20 bytes. The `hexdigest`/`unhexlify` round trip in the signer is modelled on raw bytes.
- The verifier's temporary files `pub_key.der` and `tcpa_sign` are left out. Only their contents matter: `BuildEnvelope` of the modulus, and the stored signature.
- In the signer, four cases are modelled as errors instead of the script's behaviour:
  - a missing anchor (the script writes at a negative index);
  - a window running past the end of the region (the script's slice assignment would resize the `bytearray`);
  - a signature that is not 128 bytes (`BadSignatureLength`);
  - a key shorter than 157 bytes (`MalformedKey`).
  Negative-index and resizing slice assignment are not modelled.
- The model checks every window bound before any patch; the script checks none. The model returns `BadSignatureLength` or `MalformedKey` after the hash patch (and, for the key, the signature patch), and `PatchRegion` states what the buffer then holds. The script instead lets the slice assignment at replace_signature.py:82 or :88 resize the buffer, and writes the longer or shorter output. A size field cut short by the end of the region raises `struct.error` in both scripts and is `SizeFieldTruncated` here.
- The exit status of the scripts is not modelled. The two verifier outcomes are returned as booleans.
- Four tamper properties are left out:
  - flipping a content byte breaks the hash check;
  - flipping a byte of [tcpa, tcpa+107) breaks the signature;
  - corrupting the modulus breaks the signature;
  - a signature made by another key fails.
  Each needs collision resistance of SHA-1 or the security of RSA, which uninterpreted parameters cannot express.
- RoundTrip.SignThenVerify: assumes that the verifier finds the marker and the anchor in the signed image where the signer found them, because the patches could create an earlier occurrence of either. `MarkerSurvives` (the modulus starts at least 8 bytes past the marker) and `AnchorSurvives` (the first anchor ends before the hash field) each remove one of the two assumptions, and each fits the theorem's other conditions: a modulus after the signature, or an anchor and modulus before the record. Their premises cannot hold together with the separation condition: with both, the modulus would start between tcpa+8 and tcpa+85, inside the signed window [tcpa, tcpa+107). So `SignThenVerifyModulusAfterMarker` still assumes the anchor's survival and `SignThenVerifyAnchorBeforeHash` still assumes the marker's.
- RoundTrip.RawInverse: asks the provider to invert only 128-byte messages below 2^160, which is what the signer ever signs. RSA exponentiation itself is not modelled, so this stays a hypothesis.
