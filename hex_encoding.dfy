/**
 * `generateRandomIV`: fill a byte array with random values, then write every byte as
 * `byte.toString(16).padStart(2, '0')` and join the pieces. The random values are an
 * input of the model.
 */
module HexEncoding {

  /** An element of a `Uint8Array`. */
  newtype uint8 = x: int | 0 <= x < 256

  predicate IsLowerHexDigit(c: char) {
    '0' <= c <= '9' || 'a' <= c <= 'f'
  }

  /** The digit `Number.prototype.toString(16)` writes for a value below 16: `0`..`9`, then `a`..`f`. */
  function HexDigit(d: nat): (c: char)
    requires d < 16
    ensures IsLowerHexDigit(c)
  {
    if d < 10 then ('0' as int + d) as char else ('a' as int + d - 10) as char
  }

  /** The value of a lower-case hexadecimal digit (0 for any other character). */
  function HexValue(c: char): (d: nat)
    ensures d < 16
  {
    if '0' <= c <= '9' then c as int - '0' as int
    else if 'a' <= c <= 'f' then c as int - 'a' as int + 10
    else 0
  }

  /** Reading a written digit gives back its value, and different values get different digits. */
  lemma HexDigitRoundTrip(d: nat)
    requires d < 16
    ensures HexValue(HexDigit(d)) == d
  {
  }

  /** `n.toString(16)` for a non-negative integer: lower-case digits, most significant first, no leading zero. */
  function ToHexString(n: nat): (r: string)
    ensures |r| >= 1
    ensures forall i :: 0 <= i < |r| ==> IsLowerHexDigit(r[i])
  {
    if n < 16 then [HexDigit(n)] else ToHexString(n / 16) + [HexDigit(n % 16)]
  }

  /** The number a string of lower-case hexadecimal digits denotes. */
  function HexNumber(s: string): nat
  {
    if s == [] then 0 else HexNumber(s[..|s| - 1]) * 16 + HexValue(s[|s| - 1])
  }

  /** `toString(16)` is faithful: its digits denote `n`, and there is no leading zero except for 0 itself. */
  lemma {:induction false} ToHexStringDenotes(n: nat)
    ensures HexNumber(ToHexString(n)) == n
    ensures ToHexString(n)[0] == '0' <==> n == 0
  {
    if n < 16 {
      HexDigitRoundTrip(n);
    } else {
      ToHexStringDenotes(n / 16);
      var r := ToHexString(n);
      assert r[..|r| - 1] == ToHexString(n / 16);
      HexDigitRoundTrip(n % 16);
    }
  }

  /** `s.padStart(targetLength, fill)` for a one-character `fill`. */
  function PadStart(s: string, targetLength: nat, fill: char): (r: string)
    ensures |r| == if |s| >= targetLength then |s| else targetLength
    ensures r[|r| - |s|..] == s
    ensures forall i :: 0 <= i < |r| - |s| ==> r[i] == fill
  {
    if |s| >= targetLength then s else seq(targetLength - |s|, _ => fill) + s
  }

  /**
   * `byte.toString(16).padStart(2, '0')`: a byte is always written as exactly two
   * digits, its high nibble and then its low nibble.
   */
  function ByteToHex(b: uint8): (r: string)
    ensures r == [HexDigit(b as nat / 16), HexDigit(b as nat % 16)]
  {
    var n := b as nat;
    assert n >= 16 ==> ToHexString(n / 16) == [HexDigit(n / 16)];
    PadStart(ToHexString(n), 2, '0')
  }

  /** The hexadecimal string of a byte sequence: the pieces joined in order. */
  function HexEncode(bytes: seq<uint8>): (r: string)
    ensures |r| == 2 * |bytes|
    ensures forall j :: 0 <= j < |r| ==> IsLowerHexDigit(r[j])
  {
    if bytes == [] then "" else HexEncode(bytes[..|bytes| - 1]) + ByteToHex(bytes[|bytes| - 1])
  }

  /** Two lower-case hexadecimal digits per byte, byte `i` at positions `2i` (high) and `2i + 1` (low). */
  lemma {:induction false} HexEncodeShape(bytes: seq<uint8>)
    ensures forall i :: 0 <= i < |bytes| ==>
      HexEncode(bytes)[2 * i] == HexDigit(bytes[i] as nat / 16) && HexEncode(bytes)[2 * i + 1] == HexDigit(bytes[i] as nat % 16)
  {
    if bytes != [] {
      var init, last := bytes[..|bytes| - 1], bytes[|bytes| - 1];
      HexEncodeShape(init);
      var prefix := HexEncode(init);
      var r := HexEncode(bytes);
      assert r == prefix + [HexDigit(last as nat / 16), HexDigit(last as nat % 16)];
      forall i | 0 <= i < |bytes|
        ensures r[2 * i] == HexDigit(bytes[i] as nat / 16) && r[2 * i + 1] == HexDigit(bytes[i] as nat % 16)
      {
        if i < |init| {
          assert r[2 * i] == prefix[2 * i] && r[2 * i + 1] == prefix[2 * i + 1];
          assert bytes[i] == init[i];
        }
      }
    }
  }

  /** Reads a string of digit pairs back into bytes, high nibble first (an unpaired leading digit is ignored). */
  function HexDecode(s: string): seq<uint8>
  {
    if |s| < 2 then []
    else HexDecode(s[..|s| - 2]) + [(HexValue(s[|s| - 2]) * 16 + HexValue(s[|s| - 1])) as uint8]
  }

  /** The two digits of a byte read back as that byte. */
  lemma NibblesRecombine(b: uint8)
    ensures HexValue(HexDigit(b as nat / 16)) * 16 + HexValue(HexDigit(b as nat % 16)) == b as nat
  {
    HexDigitRoundTrip(b as nat / 16);
    HexDigitRoundTrip(b as nat % 16);
  }

  /** Decoding a string followed by one byte's two digits decodes the string, then gives that byte. */
  lemma DecodeLastPair(p: string, b: uint8)
    ensures HexDecode(p + [HexDigit(b as nat / 16), HexDigit(b as nat % 16)]) == HexDecode(p) + [b]
  {
    var hi, lo := HexDigit(b as nat / 16), HexDigit(b as nat % 16);
    var s := p + [hi, lo];
    assert s[..|s| - 2] == p;
    assert s[|s| - 2] == hi && s[|s| - 1] == lo;
    NibblesRecombine(b);
    assert HexDecode(s) == HexDecode(p) + [(HexValue(hi) * 16 + HexValue(lo)) as uint8];
    assert (HexValue(hi) * 16 + HexValue(lo)) as uint8 == b;
  }

  /** Decoding the digit pairs recovers the bytes. */
  lemma {:induction false} HexDecodeEncode(bytes: seq<uint8>)
    ensures HexDecode(HexEncode(bytes)) == bytes
  {
    if bytes != [] {
      var init, last := bytes[..|bytes| - 1], bytes[|bytes| - 1];
      assert init + [last] == bytes;
      HexDecodeEncode(init);
      DecodeLastPair(HexEncode(init), last);
    }
  }

  /**
   * Allocates a `Uint8Array` of `length` bytes, fills it in place with `randomValues`
   * (what `crypto.getRandomValues` wrote), then maps every byte to its two digits and
   * joins them.
   */
  method GenerateRandomIV(length: nat, randomValues: seq<uint8>) returns (iv: string)
    requires |randomValues| == length
    ensures iv == HexEncode(randomValues)
    ensures |iv| == 2 * length
  {
    var bytes := new uint8[length];
    for i := 0 to length
      invariant bytes[..i] == randomValues[..i]
    {
      bytes[i] := randomValues[i];
    }
    assert bytes[..] == randomValues;
    iv := "";
    for i := 0 to length
      invariant bytes[..] == randomValues
      invariant iv == HexEncode(randomValues[..i])
    {
      assert bytes[i] == randomValues[i];
      HexEncodeStep(randomValues, i);
      iv := iv + ByteToHex(bytes[i]);
    }
    assert randomValues[..length] == randomValues;
  }

  /** Encoding one more byte appends its two digits. */
  lemma HexEncodeStep(bytes: seq<uint8>, i: nat)
    requires i < |bytes|
    ensures HexEncode(bytes[..i + 1]) == HexEncode(bytes[..i]) + ByteToHex(bytes[i])
  {
    assert bytes[..i + 1][..i] == bytes[..i];
  }

  /** The IV of the AES demo: 16 random bytes give 32 digits, which decode back to those bytes. */
  lemma AesIvShape(randomValues: seq<uint8>)
    requires |randomValues| == 16
    ensures |HexEncode(randomValues)| == 32
    ensures HexDecode(HexEncode(randomValues)) == randomValues
  {
    HexDecodeEncode(randomValues);
  }

}
