/**
  Lowercase hexadecimal text, as produced by Python's `bytes.hex()` and
  `hashlib`'s `hexdigest()`. The verifier compares digests in this form;
  the lemmas here show that doing so is the same as comparing the bytes.
 */
module Hexadecimal {
  import opened Bytes

  function HexDigit(n: int): (c: char)
    requires 0 <= n < 16
  {
    if n < 10 then ('0' as int + n) as char else ('a' as int + n - 10) as char
  }

  /** Two characters per byte, high nibble first. */
  function Hex(s: seq<byte>): (h: string)
    ensures |h| == 2 * |s|
  {
    if s == [] then []
    else [HexDigit(s[0] as int / 16), HexDigit(s[0] as int % 16)] + Hex(s[1..])
  }

  /** Python's `x[-n:]` for n > 0: the last n characters, or all of x when it is shorter. */
  function LastChars(x: string, n: nat): (r: string)
    requires n > 0
    ensures |r| == Min(n, |x|)
    ensures r == x[|x| - |r|..]
  {
    if |x| <= n then x else x[|x| - n..]
  }

  lemma {:induction false} HexAppend(a: seq<byte>, b: seq<byte>)
    ensures Hex(a + b) == Hex(a) + Hex(b)
  {
    if a != [] {
      assert (a + b)[1..] == a[1..] + b;
      HexAppend(a[1..], b);
    } else {
      assert a + b == b;
    }
  }

  /** Hex encoding is injective, so comparing hex strings compares bytes. */
  lemma {:induction false} HexInjective(a: seq<byte>, b: seq<byte>)
    ensures Hex(a) == Hex(b) <==> a == b
  {
    if Hex(a) == Hex(b) && a != [] {
      assert |b| == |a|;
      var ha, hb := Hex(a), Hex(b);
      assert ha[0] == hb[0] && ha[1] == hb[1];
      assert a[0] as int / 16 == b[0] as int / 16;
      assert a[0] as int % 16 == b[0] as int % 16;
      assert ha[2..] == Hex(a[1..]) && hb[2..] == Hex(b[1..]);
      HexInjective(a[1..], b[1..]);
      assert a == [a[0]] + a[1..] && b == [b[0]] + b[1..];
    }
  }

  /** For n > 0 at most |s|, the last 2n characters of Hex(s) encode the last n bytes of s. */
  lemma LastCharsOfHex(s: seq<byte>, n: nat)
    requires 0 < n <= |s|
    ensures LastChars(Hex(s), 2 * n) == Hex(s[|s| - n..])
  {
    var front, back := s[..|s| - n], s[|s| - n..];
    assert s == front + back;
    HexAppend(front, back);
    var h := Hex(s);
    assert |Hex(front)| == |h| - 2 * n;
    assert h[|h| - 2 * n..] == Hex(back);
  }

  /**
    The check the verifier performs on provider output: the last 40 hex
    characters of `out` equal the hex of a 20-byte digest exactly when `out`
    has at least 20 bytes and its last 20 bytes are that digest.
   */
  lemma TailMatchesIff(out: seq<byte>, d: Digest)
    ensures LastChars(Hex(out), |Hex(d)|) == Hex(d) <==> |out| >= 20 && out[|out| - 20..] == d
  {
    if |out| >= 20 {
      LongTailMatchesIff(out, d);
    } else {
      assert |LastChars(Hex(out), |Hex(d)|)| == 2 * |out| < |Hex(d)|;
    }
  }

  /** With at least 20 bytes of output the last 40 characters are the hex of its last 20 bytes. */
  lemma LongTailMatchesIff(out: seq<byte>, d: Digest)
    requires |out| >= 20
    ensures LastChars(Hex(out), |Hex(d)|) == Hex(d) <==> out[|out| - 20..] == d
  {
    var tail := out[|out| - 20..];
    assert |Hex(d)| == 2 * 20;
    LastCharsOfHex(out, 20);
    HexInjective(tail, d);
  }
}
