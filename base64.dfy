/**
 * Base64 as Node's `Buffer.from(data, 'base64')` reads it on well-formed input:
 * the standard alphabet of section 4 of RFC 4648 and the URL- and filename-safe
 * alphabet of section 5 of RFC 4648 are both accepted (also mixed), and the
 * trailing `=` padding is optional. The encoder is the partner of the decoder:
 * every encoding, in either alphabet, padded or not, decodes back to its bytes.
 */
module Base64 {

  type byte = x: int | 0 <= x < 256

  /** The value of one base64 digit. */
  type sextet = x: int | 0 <= x < 64

  /** Section 4 (`+`, `/`) or section 5 (`-`, `_`) of RFC 4648. */
  datatype Alphabet = Standard | UrlSafe

  predicate IsLetterOrDigit(c: char) {
    ('A' <= c <= 'Z') || ('a' <= c <= 'z') || ('0' <= c <= '9')
  }

  /** The digits of one alphabet. */
  predicate InAlphabet(c: char, alphabet: Alphabet) {
    IsLetterOrDigit(c) ||
    (alphabet == Standard && (c == '+' || c == '/')) ||
    (alphabet == UrlSafe && (c == '-' || c == '_'))
  }

  /** The digits the decoder accepts: those of either alphabet. */
  predicate IsDigit(c: char) {
    InAlphabet(c, Standard) || InAlphabet(c, UrlSafe)
  }

  function DigitValue(c: char): sextet
    requires IsDigit(c)
  {
    if 'A' <= c <= 'Z' then c as int - 'A' as int
    else if 'a' <= c <= 'z' then c as int - 'a' as int + 26
    else if '0' <= c <= '9' then c as int - '0' as int + 52
    else if c == '+' || c == '-' then 62
    else 63
  }

  /** The digit that stands for `v` in `alphabet`; the decoder reads it back as `v`. */
  function Digit(v: sextet, alphabet: Alphabet): (c: char)
    ensures InAlphabet(c, alphabet) && c != '='
    ensures DigitValue(c) == v
  {
    if v < 26 then ('A' as int + v) as char
    else if v < 52 then ('a' as int + (v - 26)) as char
    else if v < 62 then ('0' as int + (v - 52)) as char
    else if v == 62 then (if alphabet == Standard then '+' else '-')
    else (if alphabet == Standard then '/' else '_')
  }

  predicate AllDigits(s: string) {
    forall i | 0 <= i < |s| :: IsDigit(s[i])
  }

  /** The text without its trailing `==` or `=`. */
  function StripPadding(s: string): (u: string)
    ensures u <= s && |s| - 2 <= |u|
    ensures forall i | |u| <= i < |s| :: s[i] == '='
  {
    if |s| >= 2 && s[|s| - 2] == '=' && s[|s| - 1] == '=' then s[..|s| - 2]
    else if |s| >= 1 && s[|s| - 1] == '=' then s[..|s| - 1]
    else s
  }

  /**
   * Well-formed input: digits of either alphabet, never a lone digit in the last
   * group, and, when padding is present, a total length that is a multiple of four.
   */
  predicate IsWellFormed(s: string) {
    var u := StripPadding(s);
    AllDigits(u) && |u| % 4 != 1 && (|u| < |s| ==> |s| % 4 == 0)
  }

  type Base64Text = s: string | IsWellFormed(s) witness ""

  /** The first, second and third byte of a group, from its digits' values. */
  function Byte0(v0: sextet, v1: sextet): byte { v0 * 4 + v1 / 16 }
  function Byte1(v1: sextet, v2: sextet): byte { (v1 % 16) * 16 + v2 / 4 }
  function Byte2(v2: sextet, v3: sextet): byte { (v2 % 4) * 64 + v3 }

  /** Decodes digits in groups of four; a final group of two or three digits gives one or two bytes. */
  function DecodeDigits(u: string): (b: seq<byte>)
    requires AllDigits(u) && |u| % 4 != 1
    ensures 4 * |b| <= 3 * |u| < 4 * |b| + 4
  {
    if |u| == 0 then []
    else if |u| == 2 then
      [Byte0(DigitValue(u[0]), DigitValue(u[1]))]
    else if |u| == 3 then
      [Byte0(DigitValue(u[0]), DigitValue(u[1])), Byte1(DigitValue(u[1]), DigitValue(u[2]))]
    else
      var rest := u[4..];
      assert |rest| % 4 == |u| % 4 && AllDigits(rest);
      [Byte0(DigitValue(u[0]), DigitValue(u[1])), Byte1(DigitValue(u[1]), DigitValue(u[2])),
       Byte2(DigitValue(u[2]), DigitValue(u[3]))] + DecodeDigits(rest)
  }

  /** The bytes a well-formed base64 text stands for; only the empty text stands for no bytes. */
  function Decode(s: Base64Text): (b: seq<byte>)
    ensures b == [] <==> s == ""
  {
    DecodeDigits(StripPadding(s))
  }

  /** The four digit values of a group of three bytes; a missing byte counts as zero. */
  function Sextet0(b0: byte): sextet { b0 / 4 }
  function Sextet1(b0: byte, b1: byte): sextet { (b0 % 4) * 16 + b1 / 16 }
  function Sextet2(b1: byte, b2: byte): sextet { (b1 % 16) * 4 + b2 / 64 }
  function Sextet3(b2: byte): sextet { b2 % 64 }

  /** Encodes three bytes per group of four digits, without padding. */
  function EncodeDigits(b: seq<byte>, alphabet: Alphabet): (s: string)
    ensures |s| % 4 == (if |b| % 3 == 0 then 0 else |b| % 3 + 1)
    ensures forall i | 0 <= i < |s| :: InAlphabet(s[i], alphabet)
  {
    if |b| == 0 then ""
    else if |b| == 1 then
      [Digit(Sextet0(b[0]), alphabet), Digit(Sextet1(b[0], 0), alphabet)]
    else if |b| == 2 then
      [Digit(Sextet0(b[0]), alphabet), Digit(Sextet1(b[0], b[1]), alphabet),
       Digit(Sextet2(b[1], 0), alphabet)]
    else
      var group := [Digit(Sextet0(b[0]), alphabet), Digit(Sextet1(b[0], b[1]), alphabet),
                    Digit(Sextet2(b[1], b[2]), alphabet), Digit(Sextet3(b[2]), alphabet)];
      var rest := EncodeDigits(b[3..], alphabet);
      GroupShiftsLength(|b| - 3, |rest|);
      AlphabetConcat(group, rest, alphabet);
      group + rest
  }

  /** A further group of three bytes and of four digits keeps both lengths' remainders. */
  lemma GroupShiftsLength(n: nat, m: nat)
    ensures (n + 3) % 3 == n % 3 && (m + 4) % 4 == m % 4
  {
  }

  lemma AlphabetConcat(s: string, t: string, alphabet: Alphabet)
    requires forall i | 0 <= i < |s| :: InAlphabet(s[i], alphabet)
    requires forall i | 0 <= i < |t| :: InAlphabet(t[i], alphabet)
    ensures forall i | 0 <= i < |s + t| :: InAlphabet((s + t)[i], alphabet)
  {
    forall i | 0 <= i < |s + t|
      ensures InAlphabet((s + t)[i], alphabet)
    {
      if i >= |s| {
        assert (s + t)[i] == t[i - |s|];
      }
    }
  }

  /** `==` after one leftover byte, `=` after two. */
  function Padding(leftover: nat): string {
    if leftover == 1 then "==" else if leftover == 2 then "=" else ""
  }

  /** The base64 text of `b` in `alphabet`, with or without its padding. */
  function Encode(b: seq<byte>, alphabet: Alphabet, padded: bool): string {
    EncodeDigits(b, alphabet) + (if padded then Padding(|b| % 3) else "")
  }

  /** The bytes of one group survive encoding and decoding. */
  lemma GroupRoundTrip(b0: byte, b1: byte, b2: byte)
    ensures Byte0(Sextet0(b0), Sextet1(b0, b1)) == b0
    ensures Byte1(Sextet1(b0, b1), Sextet2(b1, b2)) == b1
    ensures Byte2(Sextet2(b1, b2), Sextet3(b2)) == b2
  {
  }

  /** An encoding is valid decoder input; this follows from the contract of `EncodeDigits`. */
  lemma EncodeDigitsShape(b: seq<byte>, alphabet: Alphabet)
    ensures AllDigits(EncodeDigits(b, alphabet))
    ensures |EncodeDigits(b, alphabet)| % 4 != 1
  {
  }

  /** Encoding three or more bytes starts with the digits of the first three. */
  lemma EncodeDigitsGroup(b: seq<byte>, alphabet: Alphabet)
    requires |b| >= 3
    ensures var s := EncodeDigits(b, alphabet);
      |s| >= 4 && s[4..] == EncodeDigits(b[3..], alphabet) &&
      DigitValue(s[0]) == Sextet0(b[0]) && DigitValue(s[1]) == Sextet1(b[0], b[1]) &&
      DigitValue(s[2]) == Sextet2(b[1], b[2]) && DigitValue(s[3]) == Sextet3(b[2])
  {
  }

  /** Decoding four or more digits starts with the bytes of the first group. */
  lemma DecodeDigitsGroup(u: string)
    requires AllDigits(u) && |u| % 4 != 1 && |u| >= 4
    ensures DecodeDigits(u) ==
      [Byte0(DigitValue(u[0]), DigitValue(u[1])), Byte1(DigitValue(u[1]), DigitValue(u[2])),
       Byte2(DigitValue(u[2]), DigitValue(u[3]))] + DecodeDigits(u[4..])
  {
  }

  /** One leftover byte survives encoding and decoding. */
  lemma DecodeEncodeOne(b0: byte, alphabet: Alphabet)
    ensures DecodeDigits([Digit(Sextet0(b0), alphabet), Digit(Sextet1(b0, 0), alphabet)]) == [b0]
  {
    GroupRoundTrip(b0, 0, 0);
  }

  /** Two leftover bytes survive encoding and decoding. */
  lemma DecodeEncodeTwo(b0: byte, b1: byte, alphabet: Alphabet)
    ensures DecodeDigits([Digit(Sextet0(b0), alphabet), Digit(Sextet1(b0, b1), alphabet),
                          Digit(Sextet2(b1, 0), alphabet)]) == [b0, b1]
  {
    GroupRoundTrip(b0, b1, 0);
  }

  /** Encoding then decoding three or more bytes gives back the first three, then the rest. */
  lemma DecodeEncodeGroup(b: seq<byte>, alphabet: Alphabet)
    requires |b| >= 3
    ensures AllDigits(EncodeDigits(b[3..], alphabet)) && |EncodeDigits(b[3..], alphabet)| % 4 != 1
    ensures DecodeDigits(EncodeDigits(b, alphabet)) ==
      [b[0], b[1], b[2]] + DecodeDigits(EncodeDigits(b[3..], alphabet))
  {
    var s := EncodeDigits(b, alphabet);
    GroupRoundTrip(b[0], b[1], b[2]);
    EncodeDigitsGroup(b, alphabet);
    EncodeDigitsShape(b, alphabet);
    EncodeDigitsShape(b[3..], alphabet);
    DecodeDigitsGroup(s);
  }

  /** One or two bytes survive encoding and decoding. */
  lemma DecodeEncodeShort(b: seq<byte>, alphabet: Alphabet)
    requires |b| < 3
    ensures AllDigits(EncodeDigits(b, alphabet)) && |EncodeDigits(b, alphabet)| % 4 != 1
    ensures DecodeDigits(EncodeDigits(b, alphabet)) == b
  {
    if |b| == 1 {
      DecodeEncodeOne(b[0], alphabet);
    } else if |b| == 2 {
      DecodeEncodeTwo(b[0], b[1], alphabet);
    }
  }

  lemma {:induction false} DecodeEncodeDigits(b: seq<byte>, alphabet: Alphabet)
    ensures AllDigits(EncodeDigits(b, alphabet)) && |EncodeDigits(b, alphabet)| % 4 != 1
    ensures DecodeDigits(EncodeDigits(b, alphabet)) == b
  {
    EncodeDigitsShape(b, alphabet);
    if |b| < 3 {
      DecodeEncodeShort(b, alphabet);
    } else {
      DecodeEncodeGroup(b, alphabet);
      DecodeEncodeDigits(b[3..], alphabet);
      assert b == b[..3] + b[3..];
      assert b[..3] == [b[0], b[1], b[2]];
    }
  }

  /** Removing the padding from digits followed by padding leaves the digits. */
  lemma StripPaddingAfterDigits(digits: string, pad: string)
    requires AllDigits(digits)
    requires pad == "" || pad == "=" || pad == "=="
    ensures StripPadding(digits + pad) == digits
  {
    var s := digits + pad;
    var n := |digits|;
    if pad == "==" {
      assert s[n] == '=' && s[n + 1] == '=';
      assert s[..n] == digits;
    } else if pad == "=" {
      assert s[n] == '=';
      assert n >= 1 ==> s[n - 1] == digits[n - 1] && IsDigit(digits[n - 1]) && s[n - 1] != '=';
      assert s[..n] == digits;
    } else {
      assert s == digits;
      assert n >= 1 ==> IsDigit(s[n - 1]);
    }
  }

  /** Padding that completes the last group makes the length a multiple of four. */
  lemma FillsGroup(n: nat, k: nat)
    requires n % 4 + k == 4
    ensures (n + k) % 4 == 0
  {
    var q := n / 4;
    assert n + k == 4 * (q + 1);
  }

  /** Digits followed by the padding that completes their last group form well-formed text. */
  lemma PaddedDigitsWellFormed(digits: string, pad: string)
    requires AllDigits(digits) && |digits| % 4 != 1
    requires pad == "" || (pad == "=" && |digits| % 4 == 3) || (pad == "==" && |digits| % 4 == 2)
    ensures StripPadding(digits + pad) == digits
    ensures IsWellFormed(digits + pad)
  {
    StripPaddingAfterDigits(digits, pad);
    if pad != "" {
      FillsGroup(|digits|, |pad|);
    }
  }

  /** The padding `Encode` appends completes the last group of the digits. */
  lemma EncodePadding(b: seq<byte>, alphabet: Alphabet, padded: bool)
    ensures var digits := EncodeDigits(b, alphabet);
      var pad := if padded then Padding(|b| % 3) else "";
      && Encode(b, alphabet, padded) == digits + pad
      && (pad == "" || (pad == "=" && |digits| % 4 == 3) || (pad == "==" && |digits| % 4 == 2))
  {
  }

  /** Every encoding is well-formed, and decoding it gives back the bytes. */
  lemma DecodeEncode(b: seq<byte>, alphabet: Alphabet, padded: bool)
    ensures IsWellFormed(Encode(b, alphabet, padded))
    ensures Decode(Encode(b, alphabet, padded)) == b
  {
    var digits := EncodeDigits(b, alphabet);
    var pad := if padded then Padding(|b| % 3) else "";
    DecodeEncodeDigits(b, alphabet);
    EncodePadding(b, alphabet, padded);
    PaddedDigitsWellFormed(digits, pad);
  }
}
