/**
 * RGBA colors and their textual form: eight hexadecimal digits, two per
 * channel in the order red, green, blue, alpha. Encoding always writes
 * lower-case digits; decoding accepts either case, as the hex crate does.
 */
module Colors {
  import opened Wrappers

  type byte = b: int | 0 <= b < 256

  /** One pixel's four channels. */
  datatype Rgba = Rgba(r: byte, g: byte, b: byte, a: byte)

  /** Why a string is not a color, in the order the decoder checks. */
  datatype HexError =
    | OddLength
    | InvalidStringLength
    | InvalidHexCharacter(c: char, index: nat)

  predicate IsLowerHexChar(c: char) {
    '0' <= c <= '9' || 'a' <= c <= 'f'
  }

  predicate IsHexChar(c: char) {
    IsLowerHexChar(c) || 'A' <= c <= 'F'
  }

  /** A well-formed color text: exactly eight digits of either case. */
  predicate IsHexColor(s: string) {
    |s| == 8 && forall i :: 0 <= i < |s| ==> IsHexChar(s[i])
  }

  function HexValue(c: char): (v: nat)
    requires IsHexChar(c)
    ensures v < 16
  {
    if '0' <= c <= '9' then c as int - '0' as int
    else if 'a' <= c <= 'f' then c as int - 'a' as int + 10
    else c as int - 'A' as int + 10
  }

  function HexDigit(d: nat): (c: char)
    requires d < 16
    ensures IsLowerHexChar(c) && HexValue(c) == d
  {
    if d < 10 then ('0' as int + d) as char else ('a' as int + d - 10) as char
  }

  function LowerChar(c: char): char {
    if 'A' <= c <= 'F' then (c as int - 'A' as int + 'a' as int) as char else c
  }

  function ToLower(s: string): (t: string)
    ensures |t| == |s|
    ensures forall i :: 0 <= i < |s| ==> t[i] == LowerChar(s[i])
  {
    seq(|s|, i requires 0 <= i < |s| => LowerChar(s[i]))
  }

  /** The byte written by the digit pair starting at position 2k. */
  function PairValue(s: string, k: nat): nat
    requires 2 * k + 1 < |s| && IsHexChar(s[2 * k]) && IsHexChar(s[2 * k + 1])
  {
    HexValue(s[2 * k]) * 16 + HexValue(s[2 * k + 1])
  }

  function EncodeByte(b: byte): (s: string)
    ensures |s| == 2 && IsLowerHexChar(s[0]) && IsLowerHexChar(s[1])
    ensures PairValue(s, 0) == b
  {
    [HexDigit(b / 16), HexDigit(b % 16)]
  }

  /** The color text: each channel as two lower-case hex digits, zero-padded, red first and alpha last. */
  function Encode(c: Rgba): (s: string)
    ensures |s| == 8
    ensures forall i :: 0 <= i < |s| ==> IsLowerHexChar(s[i])
    ensures PairValue(s, 0) == c.r && PairValue(s, 1) == c.g
    ensures PairValue(s, 2) == c.b && PairValue(s, 3) == c.a
  {
    var s := EncodeByte(c.r) + EncodeByte(c.g) + EncodeByte(c.b) + EncodeByte(c.a);
    assert s[6..] == EncodeByte(c.a);
    s
  }

  function DigitAt(s: string, i: nat): (r: Result<nat, HexError>)
    requires i < |s|
    ensures r.Ok? <==> IsHexChar(s[i])
    ensures r.Ok? ==> r.value == HexValue(s[i])
    ensures r.Err? ==> r.error == InvalidHexCharacter(s[i], i)
  {
    if IsHexChar(s[i]) then Ok(HexValue(s[i])) else Err(InvalidHexCharacter(s[i], i))
  }

  /** The k-th byte: high digit first, then low digit; the first bad digit is reported. */
  function ByteAt(s: string, k: nat): (r: Result<byte, HexError>)
    requires 2 * k + 1 < |s|
    ensures r.Ok? <==> IsHexChar(s[2 * k]) && IsHexChar(s[2 * k + 1])
    ensures r.Ok? ==> r.value == PairValue(s, k)
  {
    var hi :- DigitAt(s, 2 * k);
    var lo :- DigitAt(s, 2 * k + 1);
    Ok(hi * 16 + lo)
  }

  /**
   * `<[u8; 4]>::from_hex`: the length is checked first (odd, then not
   * twice four), then the digits left to right.
   */
  function Decode(s: string): (r: Result<Rgba, HexError>)
    ensures r.Ok? <==> IsHexColor(s)
    ensures |s| % 2 == 1 ==> r == Err(OddLength)
    ensures |s| % 2 == 0 && |s| != 8 ==> r == Err(InvalidStringLength)
    ensures r.Ok? ==> PairValue(s, 0) == r.value.r && PairValue(s, 1) == r.value.g
    ensures r.Ok? ==> PairValue(s, 2) == r.value.b && PairValue(s, 3) == r.value.a
  {
    if |s| % 2 != 0 then Err(OddLength)
    else if |s| / 2 != 4 then Err(InvalidStringLength)
    else
      var red :- ByteAt(s, 0);
      var green :- ByteAt(s, 1);
      var blue :- ByteAt(s, 2);
      var alpha :- ByteAt(s, 3);
      Ok(Rgba(red, green, blue, alpha))
  }

  /** Decoding an encoded color gives the color back. */
  lemma DecodeEncode(c: Rgba)
    ensures Decode(Encode(c)) == Ok(c)
  {
    var s := Encode(c);
    assert IsHexColor(s);
  }

  lemma LowerDigitOfValue(c: char)
    requires IsHexChar(c)
    ensures HexDigit(HexValue(c)) == LowerChar(c)
  {
  }

  /** A decoded text encodes back to itself with its digits in lower case. */
  lemma EncodeDecode(s: string)
    requires Decode(s).Ok?
    ensures Encode(Decode(s).value) == ToLower(s)
  {
    var t := Encode(Decode(s).value);
    SamePairSameDigits(t, s, 0);
    SamePairSameDigits(t, s, 1);
    SamePairSameDigits(t, s, 2);
    SamePairSameDigits(t, s, 3);
    assert forall i :: 0 <= i < 8 ==> t[i] == ToLower(s)[i];
  }

  /** Two digit pairs denoting the same byte are the same digits up to case. */
  lemma SamePairSameDigits(t: string, s: string, k: nat)
    requires 2 * k + 1 < |t| && 2 * k + 1 < |s|
    requires IsLowerHexChar(t[2 * k]) && IsLowerHexChar(t[2 * k + 1])
    requires IsHexChar(s[2 * k]) && IsHexChar(s[2 * k + 1])
    requires PairValue(t, k) == PairValue(s, k)
    ensures t[2 * k] == LowerChar(s[2 * k]) && t[2 * k + 1] == LowerChar(s[2 * k + 1])
  {
    assert HexValue(t[2 * k]) == HexValue(s[2 * k]);
    assert HexValue(t[2 * k + 1]) == HexValue(s[2 * k + 1]);
    LowerDigitOfValue(s[2 * k]);
    LowerDigitOfValue(s[2 * k + 1]);
    LowerDigitOfValue(t[2 * k]);
    LowerDigitOfValue(t[2 * k + 1]);
  }

  /** The alpha pair of an encoded color reads "00" exactly when the alpha channel is zero. */
  lemma TransparentIffAlphaZero(c: Rgba)
    ensures Encode(c)[6..] == "00" <==> c.a == 0
  {
    var s := Encode(c);
    if c.a == 0 {
      assert HexValue(s[6]) == 0 && HexValue(s[7]) == 0;
      assert s[6..] == "00";
    }
  }
}
