/**
 * Rendering a digest as text: every byte `b` becomes
 * `('0' + (b & 0xFF).toString(16)).slice(-2)` and the pieces are joined.
 * The bytes come from Apps Script as Java signed bytes (-128..127); `b & 0xFF`
 * is the byte read as unsigned, which is `b % 256` with Dafny's
 * non-negative remainder.
 */
module HexRendering {
  import opened JsonText
  import opened JsonParse

  predicate IsLowerHex(c: char)
  {
    ('0' <= c <= '9') || ('a' <= c <= 'f')
  }

  lemma LowerHexDigit(d: nat)
    requires d < 16
    ensures IsLowerHex(HexDigit(d)) && IsHexChar(HexDigit(d)) && HexValue(HexDigit(d)) == d
  {
  }

  /** `n.toString(16)`: lowercase hexadecimal without leading zeros. */
  function ToRadix16(n: nat): (s: string)
    ensures |s| >= 1 && (|s| == 1 <==> n < 16)
    ensures forall i :: 0 <= i < |s| ==> IsLowerHex(s[i])
  {
    if n < 16 then
      LowerHexDigit(n);
      [HexDigit(n)]
    else
      LowerHexDigit(n % 16);
      ToRadix16(n / 16) + [HexDigit(n % 16)]
  }

  /** The value of a two-digit hexadecimal text. */
  function PairValue(h: string): nat
    requires |h| == 2 && IsLowerHex(h[0]) && IsLowerHex(h[1])
  {
    16 * HexValue(h[0]) + HexValue(h[1])
  }

  /** `('0' + (b & 0xFF).toString(16)).slice(-2)` */
  function HexByte(b: int): (r: string)
    ensures |r| == 2 && IsLowerHex(r[0]) && IsLowerHex(r[1])
    ensures PairValue(r) == b % 256
  {
    var n := b % 256;
    var h := "0" + ToRadix16(n);
    LowerHexDigit(n / 16);
    LowerHexDigit(n % 16);
    if n < 16 then
      assert h == ['0', HexDigit(n)];
      h[|h| - 2..]
    else
      assert ToRadix16(n / 16) == [HexDigit(n / 16)];
      assert h == ['0', HexDigit(n / 16), HexDigit(n % 16)];
      h[|h| - 2..]
  }

  /** `bytes.map(byte => HexByte(byte)).join('')` */
  function HexDigest(bytes: seq<int>): (r: string)
    ensures |r| == 2 * |bytes|
    ensures forall i :: 0 <= i < |r| ==> IsLowerHex(r[i])
  {
    if |bytes| == 0 then ""
    else
      var h := HexByte(bytes[0]);
      var t := HexDigest(bytes[1..]);
      assert forall i :: 2 <= i < |h + t| ==> (h + t)[i] == t[i - 2];
      h + t
  }

  /** Reads a digest text back as unsigned byte values. */
  function DecodeHex(h: string): (bs: seq<nat>)
    requires |h| % 2 == 0 && forall i :: 0 <= i < |h| ==> IsLowerHex(h[i])
    ensures |bs| == |h| / 2
  {
    if |h| == 0 then [] else [PairValue(h[..2])] + DecodeHex(h[2..])
  }

  /** Each byte read as unsigned: `b & 0xFF`. */
  function Unsigned(bytes: seq<int>): (us: seq<nat>)
    ensures |us| == |bytes|
    ensures forall i :: 0 <= i < |bytes| ==> us[i] < 256 && (us[i] - bytes[i]) % 256 == 0
  {
    seq(|bytes|, i requires 0 <= i < |bytes| => bytes[i] % 256)
  }

  /** Decoding the rendering gives back every byte read as unsigned. */
  lemma {:induction false} HexDigestRoundTrip(bytes: seq<int>)
    ensures DecodeHex(HexDigest(bytes)) == Unsigned(bytes)
  {
    if |bytes| > 0 {
      var h := HexByte(bytes[0]);
      var t := HexDigest(bytes[1..]);
      HexDigestRoundTrip(bytes[1..]);
      assert (h + t)[..2] == h;
      assert (h + t)[2..] == t;
      assert Unsigned(bytes) == [bytes[0] % 256] + Unsigned(bytes[1..]);
    }
  }

  /** Digests whose bytes differ (as unsigned values) render differently. */
  lemma HexDigestInjective(a: seq<int>, b: seq<int>)
    requires HexDigest(a) == HexDigest(b)
    ensures |a| == |b| && forall i :: 0 <= i < |a| ==> a[i] % 256 == b[i] % 256
  {
    HexDigestRoundTrip(a);
    HexDigestRoundTrip(b);
    assert Unsigned(a) == Unsigned(b);
  }
}
