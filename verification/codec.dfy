/**
 * The watermark codec of `src/logic/embed.py`: a watermark token is a hex
 * string; it is decoded with Python's `bytes.fromhex`, unpacked into bits
 * most-significant bit first, and mapped to a tap pattern by `2 * bits - 1`,
 * evaluated in numpy's `uint8` arithmetic.
 */
module Codec {
  import opened Wrappers

  /** A numpy `uint8` value. */
  type byte = x: int | 0 <= x < 256

  type bit = x: int | 0 <= x < 2

  datatype CodecError =
    | InvalidHex          // `bytes.fromhex` raises ValueError
    | NotMultipleOf8      // `generate_watermark` raises ValueError
    | NegativeByteCount   // `os.urandom` raises ValueError on a negative count

  /** The value of a hexadecimal digit, in either case. */
  function HexDigit(ch: char): (d: Option<nat>)
    ensures d.Some? ==> d.value < 16
  {
    if '0' <= ch <= '9' then Some(ch as nat - '0' as nat)
    else if 'a' <= ch <= 'f' then Some(ch as nat - 'a' as nat + 10)
    else if 'A' <= ch <= 'F' then Some(ch as nat - 'A' as nat + 10)
    else None
  }

  /** The characters `bytes.fromhex` skips between byte pairs (ASCII whitespace). */
  predicate IsAsciiSpace(ch: char)
  {
    ch == ' ' || ch == '\t' || ch == '\n' || ch == '\r' || ch == '\U{B}' || ch == '\U{C}'
  }

  const LowerHexDigits: string := "0123456789abcdef"

  /** A digit of canonical (lower-case) hexadecimal. */
  predicate IsLowerHexDigit(ch: char)
  {
    '0' <= ch <= '9' || 'a' <= ch <= 'f'
  }

  /** Python's `bytes.fromhex`: whitespace is skipped between byte pairs, each byte is
      two hex digits of either case, anything else raises. */
  function FromHex(s: string): (r: Result<seq<byte>, CodecError>)
    ensures r.Ok? ==> 2 * |r.value| <= |s|
    decreases |s|
  {
    if |s| == 0 then Ok([])
    else if IsAsciiSpace(s[0]) then FromHex(s[1..])
    else if |s| < 2 || HexDigit(s[0]).None? || HexDigit(s[1]).None? then Err(InvalidHex)
    else
      var rest :- FromHex(s[2..]);
      Ok([HexDigit(s[0]).value * 16 + HexDigit(s[1]).value] + rest)
  }

  /** A string of hex digits only, of even length: what a canonical token looks like. */
  predicate IsHexString(s: string)
  {
    |s| % 2 == 0 && forall i :: 0 <= i < |s| ==> HexDigit(s[i]).Some?
  }

  /** On strings without whitespace, `fromhex` succeeds exactly on even-length strings
      of hex digits, and yields one byte per two characters. */
  lemma {:induction false} FromHexWithoutSpaces(s: string)
    requires forall i :: 0 <= i < |s| ==> !IsAsciiSpace(s[i])
    ensures FromHex(s).Ok? <==> IsHexString(s)
    ensures FromHex(s).Ok? ==> 2 * |FromHex(s).value| == |s|
    decreases |s|
  {
    if |s| == 0 {
    } else if |s| < 2 {
      assert !IsHexString(s);
    } else {
      var t := s[2..];
      FromHexWithoutSpaces(t);
      assert IsHexString(s) <==> HexDigit(s[0]).Some? && HexDigit(s[1]).Some? && IsHexString(t) by {
        assert forall i :: 0 <= i < |t| ==> t[i] == s[i + 2];
        if HexDigit(s[0]).Some? && HexDigit(s[1]).Some? && IsHexString(t) {
          forall i | 0 <= i < |s|
            ensures HexDigit(s[i]).Some?
          {
            if i >= 2 {
              assert s[i] == t[i - 2];
            }
          }
        }
      }
    }
  }

  /** The lower-case hex encoding of a byte string (`bytes.hex()`, `secrets.token_hex`). */
  function ToHex(bs: seq<byte>): (h: string)
    ensures |h| == 2 * |bs|
    ensures forall i :: 0 <= i < |h| ==> IsLowerHexDigit(h[i])
  {
    if |bs| == 0 then ""
    else [LowerHexDigits[bs[0] / 16], LowerHexDigits[bs[0] % 16]] + ToHex(bs[1..])
  }

  lemma LowerHexDigitValue(v: nat)
    requires v < 16
    ensures HexDigit(LowerHexDigits[v]) == Some(v)
    ensures IsLowerHexDigit(LowerHexDigits[v])
  {
  }

  lemma LowerHexDigitIsDigit(ch: char)
    requires IsLowerHexDigit(ch)
    ensures HexDigit(ch).Some? && !IsAsciiSpace(ch)
  {
  }

  /** Hex encoding is undone by `fromhex`. */
  lemma {:induction false} HexRoundTrip(bs: seq<byte>)
    ensures FromHex(ToHex(bs)) == Ok(bs)
  {
    if |bs| > 0 {
      var h := ToHex(bs);
      ToHexHead(bs);
      HexRoundTrip(bs[1..]);
      FromHexPair(h, bs[1..]);
      assert [bs[0] / 16 * 16 + bs[0] % 16] + bs[1..] == bs;
    }
  }

  /** The first two characters of an encoding are the digits of the first byte, and
      the rest encodes the remaining bytes. */
  lemma ToHexHead(bs: seq<byte>)
    requires |bs| > 0
    ensures |ToHex(bs)| >= 2 && !IsAsciiSpace(ToHex(bs)[0])
    ensures HexDigit(ToHex(bs)[0]) == Some(bs[0] / 16) && HexDigit(ToHex(bs)[1]) == Some(bs[0] % 16)
    ensures ToHex(bs)[2..] == ToHex(bs[1..])
  {
    var h := ToHex(bs);
    var hi, lo := bs[0] / 16, bs[0] % 16;
    LowerHexDigitValue(hi);
    LowerHexDigitValue(lo);
    assert h[0] == LowerHexDigits[hi] && h[1] == LowerHexDigits[lo];
    LowerHexDigitIsDigit(h[0]);
    assert h[2..] == ToHex(bs[1..]);
  }

  /** One step of `fromhex`: a leading pair of hex digits becomes the first byte. */
  lemma FromHexPair(h: string, rest: seq<byte>)
    requires |h| >= 2 && !IsAsciiSpace(h[0]) && HexDigit(h[0]).Some? && HexDigit(h[1]).Some?
    requires FromHex(h[2..]) == Ok(rest)
    ensures FromHex(h) == Ok([HexDigit(h[0]).value * 16 + HexDigit(h[1]).value] + rest)
  {
  }

  // ---------------------------------------------------------------------------
  // Bits

  function Pow2(n: nat): (p: nat)
    ensures p >= 1
  {
    if n == 0 then 1 else 2 * Pow2(n - 1)
  }

  /** `v >> i`. */
  function Shr(v: nat, i: nat): nat
  {
    if i == 0 then v else Shr(v / 2, i - 1)
  }

  /** Bit `i` of `v`, counting from the least significant bit. */
  function BitOf(v: nat, i: nat): bit
  {
    Shr(v, i) % 2
  }

  /** The `w` low bits of `v`, most significant first. */
  function NatToBits(v: nat, w: nat): (bits: seq<bit>)
    ensures |bits| == w
  {
    if w == 0 then [] else NatToBits(v / 2, w - 1) + [v % 2]
  }

  /** The number whose bits, most significant first, are `bits`. */
  function BitsToNat(bits: seq<bit>): nat
  {
    if |bits| == 0 then 0 else 2 * BitsToNat(bits[..|bits| - 1]) + bits[|bits| - 1]
  }

  /** Position `j` of the MSB-first expansion is bit `w - 1 - j`. */
  lemma {:induction false} NatToBitsAt(v: nat, w: nat, j: nat)
    requires j < w
    ensures NatToBits(v, w)[j] == BitOf(v, w - 1 - j)
  {
    if j < w - 1 {
      NatToBitsAt(v / 2, w - 1, j);
    }
  }

  lemma {:induction false} BitsToNatBound(bits: seq<bit>)
    ensures BitsToNat(bits) < Pow2(|bits|)
  {
    if |bits| > 0 {
      BitsToNatBound(bits[..|bits| - 1]);
    }
  }

  /** Expanding `v` into `w` bits and reading them back gives `v` when it fits. */
  lemma {:induction false} BitsRoundTrip(v: nat, w: nat)
    requires v < Pow2(w)
    ensures BitsToNat(NatToBits(v, w)) == v
  {
    if w > 0 {
      BitsRoundTrip(v / 2, w - 1);
      var bits := NatToBits(v, w);
      assert bits[..w - 1] == NatToBits(v / 2, w - 1);
    }
  }

  /** `np.unpackbits` on a `uint8` array: eight bits per byte, most significant first. */
  function UnpackBits(bs: seq<byte>): (bits: seq<bit>)
    ensures |bits| == 8 * |bs|
    ensures forall i :: 0 <= i < |bits| ==> bits[i] == BitOf(bs[i / 8], 7 - i % 8)
  {
    if |bs| == 0 then []
    else
      var head := NatToBits(bs[0], 8);
      var rest := UnpackBits(bs[1..]);
      var bits := head + rest;
      assert forall i :: 0 <= i < |bits| ==> bits[i] == BitOf(bs[i / 8], 7 - i % 8) by {
        forall i | 0 <= i < |bits|
          ensures bits[i] == BitOf(bs[i / 8], 7 - i % 8)
        {
          if i < 8 {
            NatToBitsAt(bs[0], 8, i);
          } else {
            assert bits[i] == rest[i - 8];
            assert (i - 8) / 8 == i / 8 - 1 && (i - 8) % 8 == i % 8;
          }
        }
      }
      bits
  }

  /** `np.packbits`: groups of eight bits, most significant first, back into bytes. */
  function PackBits(bits: seq<bit>): (bs: seq<byte>)
    requires |bits| % 8 == 0
    ensures 8 * |bs| == |bits|
  {
    if |bits| == 0 then []
    else
      BitsToNatBound(bits[..8]);
      [BitsToNat(bits[..8]) as byte] + PackBits(bits[8..])
  }

  /** Unpacking is undone by packing. */
  lemma {:induction false} PackUnpack(bs: seq<byte>)
    ensures PackBits(UnpackBits(bs)) == bs
  {
    if |bs| > 0 {
      var head := NatToBits(bs[0], 8);
      UnpackStep(bs);
      PackStep(head, UnpackBits(bs[1..]));
      BitsRoundTrip(bs[0], 8);
      PackUnpack(bs[1..]);
      assert [bs[0]] + bs[1..] == bs;
    }
  }

  lemma UnpackStep(bs: seq<byte>)
    requires |bs| > 0
    ensures UnpackBits(bs) == NatToBits(bs[0], 8) + UnpackBits(bs[1..])
  {
  }

  lemma PackStep(head: seq<bit>, rest: seq<bit>)
    requires |head| == 8 && |rest| % 8 == 0
    ensures BitsToNat(head) < 256
    ensures PackBits(head + rest) == [BitsToNat(head) as byte] + PackBits(rest)
  {
    BitsToNatBound(head);
    var bits := head + rest;
    assert bits[..8] == head && bits[8..] == rest;
  }

  // ---------------------------------------------------------------------------
  // Bipolar pattern

  /** A numpy `uint8` result: integer arithmetic on `uint8` arrays wraps modulo 256. */
  function Uint8(x: int): byte
  {
    x % 256
  }

  /** `2 * bits - 1` on the `uint8` array `np.unpackbits` returns. */
  function BitsToBipolar(bits: seq<bit>): (p: seq<byte>)
    ensures |p| == |bits|
    ensures forall i :: 0 <= i < |bits| ==> p[i] == (if bits[i] == 1 then 1 else 255)
  {
    seq(|bits|, i requires 0 <= i < |bits| => Uint8(2 * (bits[i] as int) - 1))
  }

  /** Reads a pattern back as bits: tap 1 is a 1 bit, anything else a 0 bit. */
  function BipolarToBits(p: seq<byte>): (bits: seq<bit>)
    ensures |bits| == |p|
  {
    seq(|p|, i requires 0 <= i < |p| => if p[i] == 1 then 1 else 0)
  }

  lemma BipolarRoundTrip(bits: seq<bit>)
    ensures BipolarToBits(BitsToBipolar(bits)) == bits
  {
  }

  /** `watermark_to_bipolar`: hex token to tap pattern. A 1 bit gives tap 1; a 0 bit
      gives 255, not -1, because the subtraction wraps in `uint8`. */
  function WatermarkToBipolar(h: string): (r: Result<seq<byte>, CodecError>)
    ensures r.Ok? <==> FromHex(h).Ok?
    ensures r.Ok? ==> |r.value| == 8 * |FromHex(h).value|
    ensures r.Ok? ==> forall i :: 0 <= i < |r.value| ==>
              r.value[i] == (if BitOf(FromHex(h).value[i / 8], 7 - i % 8) == 1 then 1 else 255)
    ensures r.Ok? ==> forall i :: 0 <= i < |r.value| ==> r.value[i] == 1 || r.value[i] == 255
  {
    var bytes :- FromHex(h);
    Ok(BitsToBipolar(UnpackBits(bytes)))
  }

  /** The real value of each `uint8` tap, as numpy converts it when the pattern meets
      floating-point samples. */
  function TapValues(p: seq<byte>): (t: seq<real>)
    ensures |t| == |p|
    ensures forall i :: 0 <= i < |p| ==> t[i] == p[i] as real
  {
    seq(|p|, i requires 0 <= i < |p| => p[i] as real)
  }

  /** The taps the bits of `bs` select, read straight off the bytes: tap `i` comes
      from bit `7 - i % 8` of byte `i / 8` and is 1 for a set bit, 255 for a clear one. */
  function BitTaps(bs: seq<byte>): (t: seq<real>)
    ensures |t| == 8 * |bs|
  {
    seq(8 * |bs|, i requires 0 <= i < 8 * |bs| => if BitOf(bs[i / 8], 7 - i % 8) == 1 then 1.0 else 255.0)
  }

  /** The real taps `embed_echo` passes on are the bit taps of the token's bytes. */
  lemma TokenTaps(h: string)
    requires FromHex(h).Ok?
    ensures TapValues(WatermarkToBipolar(h).value) == BitTaps(FromHex(h).value)
  {
    var bs := FromHex(h).value;
    var p := WatermarkToBipolar(h).value;
    PatternTaps(p, bs);
  }

  /** A pattern whose taps follow the bits of `bs` has the bit taps of `bs` as real values. */
  lemma PatternTaps(p: seq<byte>, bs: seq<byte>)
    requires |p| == 8 * |bs|
    requires forall i :: 0 <= i < |p| ==> p[i] == (if BitOf(bs[i / 8], 7 - i % 8) == 1 then 1 else 255)
    ensures TapValues(p) == BitTaps(bs)
  {
    var t := TapValues(p);
    var b := BitTaps(bs);
    forall i | 0 <= i < |t|
      ensures t[i] == b[i]
    {
      var bit := BitOf(bs[i / 8], 7 - i % 8);
      assert b[i] == (if bit == 1 then 1.0 else 255.0);
    }
  }

  /** The token a pattern carries, in canonical lower-case hex. */
  function BipolarToHex(p: seq<byte>): string
    requires |p| % 8 == 0
  {
    ToHex(PackBits(BipolarToBits(p)))
  }

  /** Decoding a token to its pattern loses nothing: the pattern gives back the token's
      bytes, in canonical lower-case hex. */
  lemma TokenRoundTrip(h: string)
    requires FromHex(h).Ok?
    ensures BipolarToHex(WatermarkToBipolar(h).value) == ToHex(FromHex(h).value)
  {
    var bs := FromHex(h).value;
    BipolarRoundTrip(UnpackBits(bs));
    PackUnpack(bs);
  }

  /** `generate_watermark(length)`: `length // 8` random bytes, lower-case hex. The
      random bytes are the parameter `entropy`. */
  function GenerateWatermark(length: int, entropy: seq<byte>): (r: Result<string, CodecError>)
    requires length >= 0 && length % 8 == 0 ==> |entropy| == length / 8
    ensures r.Ok? <==> length >= 0 && length % 8 == 0
    ensures length % 8 != 0 ==> r == Err(NotMultipleOf8)
    ensures length % 8 == 0 && length < 0 ==> r == Err(NegativeByteCount)
    ensures r.Ok? ==> |r.value| == length / 4 && IsHexString(r.value)
    ensures r.Ok? ==> forall i :: 0 <= i < |r.value| ==> IsLowerHexDigit(r.value[i])
    ensures r.Ok? ==> FromHex(r.value) == Ok(entropy)
  {
    if length % 8 != 0 then Err(NotMultipleOf8)
    else if length < 0 then Err(NegativeByteCount)
    else
      var h := ToHex(entropy);
      ToHexIsHexString(entropy);
      assert |h| == length / 4;
      Ok(h)
  }

  /** The lower-case hex of any bytes is a hex string that decodes back to them. */
  lemma ToHexIsHexString(bs: seq<byte>)
    ensures IsHexString(ToHex(bs))
    ensures FromHex(ToHex(bs)) == Ok(bs)
  {
    HexRoundTrip(bs);
    var h := ToHex(bs);
    DoubleIsEven(|bs|);
    assert |h| % 2 == 0;
    LowerHexIsHexString(h);
  }

  lemma DoubleIsEven(n: nat)
    ensures (2 * n) % 2 == 0
  {
  }

  lemma LowerHexIsHexString(h: string)
    requires |h| % 2 == 0 && forall i :: 0 <= i < |h| ==> IsLowerHexDigit(h[i])
    ensures IsHexString(h)
  {
    forall i | 0 <= i < |h|
      ensures HexDigit(h[i]).Some?
    {
      LowerHexDigitIsDigit(h[i]);
    }
  }

  /** A freshly generated `length`-bit token decodes to a pattern of `length` taps,
      each 1 or 255. */
  lemma GeneratedPatternLength(length: nat, entropy: seq<byte>)
    requires length % 8 == 0 && |entropy| == length / 8
    ensures WatermarkToBipolar(GenerateWatermark(length, entropy).value).Ok?
    ensures |WatermarkToBipolar(GenerateWatermark(length, entropy).value).value| == length
  {
  }
}
