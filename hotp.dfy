/**
 * The steps of RFC 4226 that Otp.generate and Totp.generate share: the moving factor as an
 * 8-byte buffer, dynamic truncation of the MAC (section 5.3), and the decimal code.
 */
module Hotp {
  import opened JavaNum
  import opened ByteSeq
  import opened Decimal
  import Hmac

  lemma Pow2Values()
    ensures Pow2(4) == 16 && Pow2(7) == 128 && Pow2(63) == 0x8000_0000_0000_0000
  {
    Pow2Seven();
    assert Pow2(4) == 16;
    Pow2Add(8, 7);
    Pow2Add(8, 8);
    Pow2Add(16, 15);
    Pow2Add(16, 16);
    Pow2Add(32, 31);
  }


  /**
   * The 8-byte moving factor: BigInteger.toByteArray of the counter, right-aligned in a
   * zero-filled 8-byte buffer (a long never needs more than 8 bytes).
   */
  function MovingFactor(c: int): (r: seq<byte>)
    requires IsLong(c)
    ensures |r| == 8
  {
    CounterFits(c);
    LeftPad(ToByteArray(c), 8)
  }

  /** A long never needs more than 8 bytes. */
  lemma CounterFits(c: int)
    requires IsLong(c)
    ensures |ToByteArray(c)| <= 8
  {
    Pow2Values();
    TwosLengthAtMost(c, 8);
  }

  /** The counter code of Otp.getCounter and Totp.getMovingFactor: toByteArray, then arraycopy into `new byte[8]`. */
  method CounterBuffer(c: int) returns (padded: array<byte>)
    requires IsLong(c)
    ensures fresh(padded)
    ensures padded[..] == MovingFactor(c)
  {
    var counter := ToByteArray(c);
    CounterFits(c);
    padded := new byte[8](_ => 0);
    assert padded[..8 - |counter|] == Zeros(8 - |counter|);
    assert padded[8..] == [];
    ArrayCopy(counter, 0, padded, 8 - |counter|, |counter|);
    assert counter[0..|counter|] == counter;
    PadIsZeros(counter, 8);
  }

  /** For every counter a long can hold that is not negative, the buffer is its 8-byte big-endian encoding. */
  lemma MovingFactorBigEndian(c: int)
    requires 0 <= c <= LongMax
    ensures MovingFactor(c) == BigEndian(c, 8)
    ensures FromBigEndian(MovingFactor(c)) == c
  {
    Pow2Values();
    ToByteArrayShape(c, 8);
    BigEndianFirstByte(c, 8);
    DivAtLeast(c, Pow2(56), 128);
    Pow2Add(56, 7);
    BigEndianValue(c, 8);
    DivModUnique(c, Pow2(64), 0, c);
    Pow2Add(63, 1);
  }

  /** A counter below 256 fills only the last byte. */
  lemma MovingFactorOneByte(c: int)
    requires 0 <= c < 256
    ensures MovingFactor(c) == Zeros(7) + [c]
  {
    MovingFactorBigEndian(c);
    BigEndianOneByte(c, 8);
  }

  /**
   * A negative counter is not sign-extended: toByteArray gives its shortest two's-complement
   * form and the rest of the buffer stays zero, so -1 becomes 00 .. 00 FF.
   */
  lemma MovingFactorNegative(c: int)
    requires -128 <= c < 0
    ensures MovingFactor(c) == Zeros(7) + [c + 256]
  {
    Pow2Seven();
    assert ToByteArray(c) == [c + 256];
  }

  /** `b & 0x0F`: Java sign-extends the byte first, which leaves its low four bits unchanged. */
  function LowNibble(b: byte): (r: nat)
    ensures r < 16 && r == b % 16
  {
    Pow2Values();
    BitAndLowMask(b, 4);
    BitAnd(b, 0x0F)
  }

  /** `b & 0x7f`: the byte with its sign bit cleared. */
  function ClearSign(b: byte): (r: byte)
    ensures r == b % 128
  {
    Pow2Values();
    BitAndLowMask(b, 7);
    BitAnd(b, 0x7F)
  }

  /** Arrays.copyOfRange: the elements from `from` up to `to`, zero-filled past the end of `a`. */
  method CopyOfRange(a: seq<byte>, from: nat, to: nat) returns (r: array<byte>)
    requires from <= |a| && from <= to
    ensures fresh(r)
    ensures r[..] == (a + Zeros(to - from))[from..to]
  {
    r := new byte[to - from](_ => 0);
    var n := if to <= |a| then to - from else |a| - from;
    ArrayCopy(a, from, r, 0, n);
    assert r[..] == a[from..from + n] + Zeros(to - from - n);
  }

  /** The offset dynamic truncation reads: the low four bits of the last MAC byte. */
  function Offset(mac: seq<byte>): (o: nat)
    requires |mac| >= 1
    ensures o < 16
  {
    mac[|mac| - 1] % 16
  }

  /** The code copies a window only while the offset lies inside the MAC (copyOfRange throws otherwise). */
  predicate Truncatable(mac: seq<byte>) {
    |mac| >= 1 && Offset(mac) <= |mac|
  }

  /**
   * RFC 4226 section 5.3, DT: the four bytes at the offset, read big-endian with the top bit
   * cleared (bytes past the end read as zero, as copyOfRange fills them).
   */
  function TruncatedValue(mac: seq<byte>): (v: nat)
    requires Truncatable(mac)
    ensures v < 0x8000_0000
  {
    var o := Offset(mac);
    var w := mac + Zeros(4);
    (w[o] as int % 128) * 0x100_0000 + w[o + 1] as int * 0x1_0000 + w[o + 2] as int * 0x100 + w[o + 3]
  }

  lemma FromBigEndianFour(w: seq<byte>)
    requires |w| == 4
    ensures FromBigEndian(w) == w[0] as int * 0x100_0000 + w[1] as int * 0x1_0000 + w[2] as int * 0x100 + w[3]
  {
    var a: int, b: int, c: int, d: int := w[0], w[1], w[2], w[3];
    assert w[..3][..2][..1][..0] == [];
    assert FromBigEndian(w[..3][..2][..1]) == a;
    assert FromBigEndian(w[..3][..2]) == a * 256 + b;
    assert FromBigEndian(w[..3]) == (a * 256 + b) * 256 + c;
    assert FromBigEndian(w) == ((a * 256 + b) * 256 + c) * 256 + d;
  }


  /**
   * The truncation code of Otp.generate and Totp.generate: offset from the last byte, a
   * 4-byte copy, `result[0] &= 0x7f` in place, then new BigInteger(result).longValueExact().
   */
  method DynamicTruncate(mac: seq<byte>) returns (otp: int)
    requires Truncatable(mac)
    ensures otp == TruncatedValue(mac)
  {
    var offset := LowNibble(mac[|mac| - 1]);
    var result := CopyOfRange(mac, offset, offset + 4);
    result[0] := ClearSign(result[0]);
    assert result[..] == [(mac + Zeros(4))[offset] % 128] + (mac + Zeros(4))[offset + 1..offset + 4];
    FromBigEndianFour(result[..]);
    otp := FromTwosComplement(result[..]);
  }

  /** Every MAC the algorithms produce is long enough for any offset, so the window is a plain slice. */
  lemma TruncatableDigests(mac: seq<byte>)
    requires |mac| >= 20
    ensures Truncatable(mac)
    ensures Offset(mac) + 4 <= |mac|
    ensures TruncatedValue(mac) == FromBigEndian([mac[Offset(mac)] % 128] + mac[Offset(mac) + 1..Offset(mac) + 4])
  {
    var o := Offset(mac);
    FromBigEndianFour([mac[o] % 128] + mac[o + 1..o + 4]);
  }

  /** For a MAC of at least 20 bytes dynamic truncation reads four bytes inside it. */
  lemma TruncatedInside(mac: seq<byte>)
    requires |mac| >= 20
    ensures Truncatable(mac)
    ensures var o := Offset(mac);
      TruncatedValue(mac) == (mac[o] as int % 128) * 0x100_0000 + mac[o + 1] as int * 0x1_0000 + mac[o + 2] as int * 0x100 + mac[o + 3]
  {
    var o := Offset(mac);
    var w := mac + Zeros(4);
    assert w[o] == mac[o] && w[o + 1] == mac[o + 1] && w[o + 2] == mac[o + 2] && w[o + 3] == mac[o + 3];
  }

  /** The printed code: the truncated value modulo 10^digits, as `%0<digits>d` formats it. */
  function Code(otp: nat, digits: nat): string {
    FormatZeroPadded(JavaRem(otp, Pow10(digits)), digits)
  }

  /** The code has exactly `digits` decimal characters and denotes the value modulo 10^digits. */
  lemma CodeShape(otp: nat, digits: nat)
    requires digits >= 1
    ensures |Code(otp, digits)| == digits
    ensures AllDigits(Code(otp, digits))
    ensures DecimalValue(Code(otp, digits)) == otp % Pow10(digits)
  {
    FormatZeroPaddedShape(otp % Pow10(digits), digits);
  }

  /** A code whose value modulo 10^6 has six digits is those digits, with no padding. */
  lemma SixDigitCode(otp: nat, code: nat, text: string)
    requires otp % 1000000 == code && ToDecimal(code) == text && |text| == 6
    ensures Code(otp, 6) == text
  {
    assert Pow10(6) == 1000000;
  }

  /** The full HOTP value of a key and counter under one algorithm. */
  function HotpCode(mac: Hmac.MacFunction, alg: Hmac.Algorithm, key: seq<byte>, counter: int, digits: nat): string
    requires Hmac.WellFormed(mac) && IsLong(counter)
  {
    var h := mac(alg, key, MovingFactor(counter));
    TruncatableDigests(h);
    Code(TruncatedValue(h), digits)
  }

  /** The example MAC of RFC 4226 section 5.4. */
  const Section54Mac: seq<byte> :=
    [0x1f, 0x86, 0x98, 0x69, 0x0e, 0x02, 0xca, 0x16, 0x61, 0x85,
     0x50, 0xef, 0x7f, 0x19, 0xda, 0x8e, 0x94, 0x5b, 0x55, 0x5a]

  /** The worked example of RFC 4226 section 5.4: offset 10, value 0x50ef7f19, six-digit code 872921. */
  lemma Section54Example()
    ensures Offset(Section54Mac) == 10
    ensures TruncatedValue(Section54Mac) == 0x50ef7f19
    ensures Code(TruncatedValue(Section54Mac), 6) == "872921"
  {
    var m := Section54Mac;
    assert Offset(m) == 10;
    TruncatedInside(m);
    assert TruncatedValue(m) == 0x50ef7f19;
    Section54Code();
  }

  lemma Section54Code()
    ensures Code(0x50ef7f19, 6) == "872921"
  {
    assert ToDecimal(8) == "8";
    assert ToDecimal(87) == "87";
    assert ToDecimal(872) == "872";
    assert ToDecimal(8729) == "8729";
    assert ToDecimal(87292) == "87292";
    assert ToDecimal(872921) == "872921";
    SixDigitCode(0x50ef7f19, 872921, "872921");
  }

  /** The HMAC-SHA-1 values of RFC 4226 Appendix D, for the secret "12345678901234567890" and counters 0 to 9. */
  function AppendixDMac(i: nat): (m: seq<byte>)
    requires i < 10
  {
    if i == 0 then [0xcc, 0x93, 0xcf, 0x18, 0x50, 0x8d, 0x94, 0x93, 0x4c, 0x64, 0xb6, 0x5d, 0x8b, 0xa7, 0x66, 0x7f, 0xb7, 0xcd, 0xe4, 0xb0]
    else if i == 1 then [0x75, 0xa4, 0x8a, 0x19, 0xd4, 0xcb, 0xe1, 0x00, 0x64, 0x4e, 0x8a, 0xc1, 0x39, 0x7e, 0xea, 0x74, 0x7a, 0x2d, 0x33, 0xab]
    else if i == 2 then [0x0b, 0xac, 0xb7, 0xfa, 0x08, 0x2f, 0xef, 0x30, 0x78, 0x22, 0x11, 0x93, 0x8b, 0xc1, 0xc5, 0xe7, 0x04, 0x16, 0xff, 0x44]
    else if i == 3 then [0x66, 0xc2, 0x82, 0x27, 0xd0, 0x3a, 0x2d, 0x55, 0x29, 0x26, 0x2f, 0xf0, 0x16, 0xa1, 0xe6, 0xef, 0x76, 0x55, 0x7e, 0xce]
    else if i == 4 then [0xa9, 0x04, 0xc9, 0x00, 0xa6, 0x4b, 0x35, 0x90, 0x98, 0x74, 0xb3, 0x3e, 0x61, 0xc5, 0x93, 0x8a, 0x8e, 0x15, 0xed, 0x1c]
    else if i == 5 then [0xa3, 0x7e, 0x78, 0x3d, 0x7b, 0x72, 0x33, 0xc0, 0x83, 0xd4, 0xf6, 0x29, 0x26, 0xc7, 0xa2, 0x5f, 0x23, 0x8d, 0x03, 0x16]
    else if i == 6 then [0xbc, 0x9c, 0xd2, 0x85, 0x61, 0x04, 0x2c, 0x83, 0xf2, 0x19, 0x32, 0x4d, 0x3c, 0x60, 0x72, 0x56, 0xc0, 0x32, 0x72, 0xae]
    else if i == 7 then [0xa4, 0xfb, 0x96, 0x0c, 0x0b, 0xc0, 0x6e, 0x1e, 0xab, 0xb8, 0x04, 0xe5, 0xb3, 0x97, 0xcd, 0xc4, 0xb4, 0x55, 0x96, 0xfa]
    else if i == 8 then [0x1b, 0x3c, 0x89, 0xf6, 0x5e, 0x6c, 0x9e, 0x88, 0x30, 0x12, 0x05, 0x28, 0x23, 0x44, 0x3f, 0x04, 0x8b, 0x43, 0x32, 0xdb]
    else [0x16, 0x37, 0x40, 0x98, 0x09, 0xa6, 0x79, 0xdc, 0x69, 0x82, 0x07, 0x31, 0x0c, 0x8c, 0x7f, 0xc0, 0x72, 0x90, 0xd9, 0xe5]
  }

  const AppendixDCodes: seq<string> := ["755224", "287082", "359152", "969429", "338314", "254676", "287922", "162583", "399871", "520489"]

  /** Dynamic truncation of one Appendix D MAC gives the Appendix D value for that counter. */
  predicate VectorHolds(i: nat)
    requires i < 10
  {
    Truncatable(AppendixDMac(i)) && Code(TruncatedValue(AppendixDMac(i)), 6) == AppendixDCodes[i]
  }

  lemma AppendixDVector0()
    ensures VectorHolds(0)
  {
    var m := AppendixDMac(0);
    assert Offset(m) == 0;
    TruncatedInside(m);
    assert TruncatedValue(m) == 1284755224;
    AppendixDCode0();
  }

  lemma AppendixDCode0()
    ensures Code(1284755224, 6) == "755224"
  {
    assert ToDecimal(7) == "7";
    assert ToDecimal(75) == "75";
    assert ToDecimal(755) == "755";
    assert ToDecimal(7552) == "7552";
    assert ToDecimal(75522) == "75522";
    assert ToDecimal(755224) == "755224";
    SixDigitCode(1284755224, 755224, "755224");
  }

  lemma AppendixDVector1()
    ensures VectorHolds(1)
  {
    var m := AppendixDMac(1);
    assert Offset(m) == 11;
    TruncatedInside(m);
    assert TruncatedValue(m) == 1094287082;
    AppendixDCode1();
  }

  lemma AppendixDCode1()
    ensures Code(1094287082, 6) == "287082"
  {
    assert ToDecimal(2) == "2";
    assert ToDecimal(28) == "28";
    assert ToDecimal(287) == "287";
    assert ToDecimal(2870) == "2870";
    assert ToDecimal(28708) == "28708";
    assert ToDecimal(287082) == "287082";
    SixDigitCode(1094287082, 287082, "287082");
  }

  lemma AppendixDVector2()
    ensures VectorHolds(2)
  {
    var m := AppendixDMac(2);
    assert Offset(m) == 4;
    TruncatedInside(m);
    assert TruncatedValue(m) == 137359152;
    AppendixDCode2();
  }

  lemma AppendixDCode2()
    ensures Code(137359152, 6) == "359152"
  {
    assert ToDecimal(3) == "3";
    assert ToDecimal(35) == "35";
    assert ToDecimal(359) == "359";
    assert ToDecimal(3591) == "3591";
    assert ToDecimal(35915) == "35915";
    assert ToDecimal(359152) == "359152";
    SixDigitCode(137359152, 359152, "359152");
  }

  lemma AppendixDVector3()
    ensures VectorHolds(3)
  {
    var m := AppendixDMac(3);
    assert Offset(m) == 14;
    TruncatedInside(m);
    assert TruncatedValue(m) == 1726969429;
    AppendixDCode3();
  }

  lemma AppendixDCode3()
    ensures Code(1726969429, 6) == "969429"
  {
    assert ToDecimal(9) == "9";
    assert ToDecimal(96) == "96";
    assert ToDecimal(969) == "969";
    assert ToDecimal(9694) == "9694";
    assert ToDecimal(96942) == "96942";
    assert ToDecimal(969429) == "969429";
    SixDigitCode(1726969429, 969429, "969429");
  }

  lemma AppendixDVector4()
    ensures VectorHolds(4)
  {
    var m := AppendixDMac(4);
    assert Offset(m) == 12;
    TruncatedInside(m);
    assert TruncatedValue(m) == 1640338314;
    AppendixDCode4();
  }

  lemma AppendixDCode4()
    ensures Code(1640338314, 6) == "338314"
  {
    assert ToDecimal(3) == "3";
    assert ToDecimal(33) == "33";
    assert ToDecimal(338) == "338";
    assert ToDecimal(3383) == "3383";
    assert ToDecimal(33831) == "33831";
    assert ToDecimal(338314) == "338314";
    SixDigitCode(1640338314, 338314, "338314");
  }

  lemma AppendixDVector5()
    ensures VectorHolds(5)
  {
    var m := AppendixDMac(5);
    assert Offset(m) == 6;
    TruncatedInside(m);
    assert TruncatedValue(m) == 868254676;
    AppendixDCode5();
  }

  lemma AppendixDCode5()
    ensures Code(868254676, 6) == "254676"
  {
    assert ToDecimal(2) == "2";
    assert ToDecimal(25) == "25";
    assert ToDecimal(254) == "254";
    assert ToDecimal(2546) == "2546";
    assert ToDecimal(25467) == "25467";
    assert ToDecimal(254676) == "254676";
    SixDigitCode(868254676, 254676, "254676");
  }

  lemma AppendixDVector6()
    ensures VectorHolds(6)
  {
    var m := AppendixDMac(6);
    assert Offset(m) == 14;
    TruncatedInside(m);
    assert TruncatedValue(m) == 1918287922;
    AppendixDCode6();
  }

  lemma AppendixDCode6()
    ensures Code(1918287922, 6) == "287922"
  {
    assert ToDecimal(2) == "2";
    assert ToDecimal(28) == "28";
    assert ToDecimal(287) == "287";
    assert ToDecimal(2879) == "2879";
    assert ToDecimal(28792) == "28792";
    assert ToDecimal(287922) == "287922";
    SixDigitCode(1918287922, 287922, "287922");
  }

  lemma AppendixDVector7()
    ensures VectorHolds(7)
  {
    var m := AppendixDMac(7);
    assert Offset(m) == 10;
    TruncatedInside(m);
    assert TruncatedValue(m) == 82162583;
    AppendixDCode7();
  }

  lemma AppendixDCode7()
    ensures Code(82162583, 6) == "162583"
  {
    assert ToDecimal(1) == "1";
    assert ToDecimal(16) == "16";
    assert ToDecimal(162) == "162";
    assert ToDecimal(1625) == "1625";
    assert ToDecimal(16258) == "16258";
    assert ToDecimal(162583) == "162583";
    SixDigitCode(82162583, 162583, "162583");
  }

  lemma AppendixDVector8()
    ensures VectorHolds(8)
  {
    var m := AppendixDMac(8);
    assert Offset(m) == 11;
    TruncatedInside(m);
    assert TruncatedValue(m) == 673399871;
    AppendixDCode8();
  }

  lemma AppendixDCode8()
    ensures Code(673399871, 6) == "399871"
  {
    assert ToDecimal(3) == "3";
    assert ToDecimal(39) == "39";
    assert ToDecimal(399) == "399";
    assert ToDecimal(3998) == "3998";
    assert ToDecimal(39987) == "39987";
    assert ToDecimal(399871) == "399871";
    SixDigitCode(673399871, 399871, "399871");
  }

  lemma AppendixDVector9()
    ensures VectorHolds(9)
  {
    var m := AppendixDMac(9);
    assert Offset(m) == 5;
    TruncatedInside(m);
    assert TruncatedValue(m) == 645520489;
    AppendixDCode9();
  }

  lemma AppendixDCode9()
    ensures Code(645520489, 6) == "520489"
  {
    assert ToDecimal(5) == "5";
    assert ToDecimal(52) == "52";
    assert ToDecimal(520) == "520";
    assert ToDecimal(5204) == "5204";
    assert ToDecimal(52048) == "52048";
    assert ToDecimal(520489) == "520489";
    SixDigitCode(645520489, 520489, "520489");
  }

  /** The HOTP values of RFC 4226 Appendix D, from its HMAC values. */
  lemma AppendixDVector(i: nat)
    requires i < 10
    ensures VectorHolds(i)
  {
    if i == 0 {
      AppendixDVector0();
    } else if i == 1 {
      AppendixDVector1();
    } else if i == 2 {
      AppendixDVector2();
    } else if i == 3 {
      AppendixDVector3();
    } else if i == 4 {
      AppendixDVector4();
    } else if i == 5 {
      AppendixDVector5();
    } else if i == 6 {
      AppendixDVector6();
    } else if i == 7 {
      AppendixDVector7();
    } else if i == 8 {
      AppendixDVector8();
    } else if i == 9 {
      AppendixDVector9();
    }
  }

  /** Any MAC that agrees with Appendix D on the 8-byte counters 0 to 9 yields its HOTP values. */
  lemma AppendixD(mac: Hmac.MacFunction, key: seq<byte>, i: nat)
    requires Hmac.WellFormed(mac) && i < 10
    requires mac(Hmac.HmacSHA1, key, Zeros(7) + [i]) == AppendixDMac(i)
    ensures HotpCode(mac, Hmac.HmacSHA1, key, i, 6) == AppendixDCodes[i]
  {
    MovingFactorOneByte(i);
    AppendixDVector(i);
  }
}
