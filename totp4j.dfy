/**
 * The standalone TOTP generator: HmacSHA1, a 30-second step from the epoch millisecond,
 * six digits printed over the previous line, and its own copy of the Base32 decoder, which
 * pads short results but never removes the sign byte toByteArray adds.
 */
module Totp4j {
  import opened JavaNum
  import opened ByteSeq
  import opened Decimal
  import Base32
  import Hmac
  import Hotp
  import Otp
  import opened Options

  const TotpInterval: int := 30
  const PrintInterval: int := 2
  const NumDigits: nat := 6

  /** The algorithm name hmacSha1 asks Mac.getInstance for. */
  const HmacSha1: string := "HmacSHA1"

  lemma HmacSha1Name()
    ensures Hmac.Name(Hmac.HmacSHA1) == HmacSha1
  {
  }

  /**
   * What decodeBase32 returns: the same stream prefix as Base32.decode as toByteArray gives
   * it, left-padded to numBytes when shorter and returned unchanged otherwise.
   */
  function DecodedBase32(encoded: string): seq<byte> {
    var vs := Base32.Values(Base32.UpperCase(encoded));
    var result := ToByteArray(Base32.StreamPrefix(vs));
    var numBytes := Base32.NumBytes(|vs|);
    if |result| < numBytes then LeftPad(result, numBytes) else result
  }

  /** decodeBase32: the accumulator grows by shiftLeft(5).add, then the same overshoot and byte count as Base32.decode. */
  method DecodeBase32(encoded: string) returns (decoded: array<byte>)
    ensures fresh(decoded)
    ensures decoded[..] == DecodedBase32(encoded)
  {
    var upperCaseEncoded := Base32.UpperCase(encoded);
    var value: nat := 0;
    var numEncodedChars: nat := 0;
    ghost var vs: seq<nat> := [];
    for i := 0 to |upperCaseEncoded|
      invariant vs == Base32.Values(upperCaseEncoded[..i])
      invariant numEncodedChars == |vs|
      invariant value == Base32.Accumulated(vs)
    {
      Base32.ValuesStep(upperCaseEncoded, i);
      var nextBits := Base32.BitValue(upperCaseEncoded[i]);
      if nextBits.Some? {
        numEncodedChars := numEncodedChars + 1;
        Base32.AccumulatedAppend(vs, nextBits.value);
        value := value * 32 + nextBits.value;
        vs := vs + [nextBits.value];
      }
    }
    assert upperCaseEncoded[..|upperCaseEncoded|] == upperCaseEncoded;
    var numBitsInLastChar := 8 - JavaRem(5 * (numEncodedChars - 1), 8);
    var numBitsOvershot := 5 - numBitsInLastChar;
    var shifted := ShiftRight(value, numBitsOvershot);
    assert numBitsOvershot == Base32.NumBitsOvershot(|vs|);
    Base32.ValuesBound(upperCaseEncoded);
    Base32.ShiftedIsStreamPrefix(vs);
    var numBytes := JavaDiv(numEncodedChars * 5 - numBitsOvershot, 8);
    assert numBytes == Base32.NumBytes(|vs|);
    assert shifted == Base32.StreamPrefix(vs);
    var result := ToByteArray(shifted);
    decoded := PadOnly(result, numBytes);
  }

  /** The last step of decodeBase32: a shorter result is copied behind zero bytes, any other is kept whole. */
  method PadOnly(result: seq<byte>, numBytes: nat) returns (decoded: array<byte>)
    ensures fresh(decoded)
    ensures |result| < numBytes ==> decoded[..] == LeftPad(result, numBytes)
    ensures |result| >= numBytes ==> decoded[..] == result
  {
    if |result| < numBytes {
      var padded := new byte[numBytes](_ => 0);
      ArrayCopy(result, 0, padded, numBytes - |result|, |result|);
      return padded;
    }
    decoded := new byte[|result|](_ => 0);
    ArrayCopy(result, 0, decoded, 0, |result|);
    assert result[0..|result|] == result;
  }

  /**
   * The copy agrees with Base32.decode except that a stream whose first bit is set comes
   * back with an extra leading zero byte; the value read big-endian is the same.
   */
  lemma DecodedBase32Shape(encoded: string)
    ensures var d := Base32.Decoded(encoded);
      DecodedBase32(encoded) == if d[0] >= 128 then [0] + d else d
  {
    var vs := Base32.Values(Base32.UpperCase(encoded));
    Base32.ValuesBound(Base32.UpperCase(encoded));
    Base32.ShiftedIsStreamPrefix(vs);
    PadOnlyShape(Base32.StreamPrefix(vs), Base32.NumBytes(|vs|));
  }

  /** The same comparison on the value and byte count the two decoders share. */
  lemma PadOnlyShape(v: nat, k: nat)
    requires k >= 1 && v < Pow2(8 * k)
    ensures var r := ToByteArray(v);
      var d := BigEndian(v, k);
      (if |r| < k then LeftPad(r, k) else r) == if d[0] >= 128 then [0] + d else d
  {
    ToByteArrayShape(v, k);
    var r := ToByteArray(v);
    if |r| == k {
      assert LeftPad(r, k) == r;
    }
  }

  /** The value read big-endian is the same either way, so only the key's length differs. */
  lemma DecodedBase32Value(encoded: string)
    ensures FromBigEndian(DecodedBase32(encoded)) == FromBigEndian(Base32.Decoded(encoded))
  {
    DecodedBase32Shape(encoded);
    FromBigEndianLeadingZero(Base32.Decoded(encoded));
  }

  /**
   * "QAAAAAAA" is the RFC 4648 encoding of the five bytes 80 00 00 00 00; Base32.decode
   * returns them, decodeBase32 returns six bytes 00 80 00 00 00 00.
   */
  lemma LeadingZeroByte()
    ensures Base32.Decoded("QAAAAAAA") == [0x80, 0, 0, 0, 0]
    ensures DecodedBase32("QAAAAAAA") == [0, 0x80, 0, 0, 0, 0]
  {
    QuantumDecoded();
    var s := "QAAAAAAA";
    QuantumSignByte(s);
  }

  lemma QuantumSignByte(s: string)
    requires s == "QAAAAAAA"
    ensures DecodedBase32(s) == [0, 0x80, 0, 0, 0, 0]
  {
    QuantumDecoded();
    SignByteAdded(s, 0x80, [0, 0, 0, 0]);
  }

  lemma SignByteAdded(encoded: string, first: byte, rest: seq<byte>)
    requires Base32.Decoded(encoded) == [first] + rest && first >= 128
    ensures DecodedBase32(encoded) == [0, first] + rest
  {
    DecodedBase32Shape(encoded);
    assert [0] + ([first] + rest) == [0, first] + rest;
  }

  lemma QuantumDecoded()
    ensures Base32.Decoded("QAAAAAAA") == [0x80, 0, 0, 0, 0]
  {
    var s := "QAAAAAAA";
    QuantumUpper();
    QuantumValues();
    Base32.DecodeEightCharacters(s);
  }

  lemma QuantumUpper()
    ensures Base32.UpperCase("QAAAAAAA") == "QAAAAAAA"
  {
  }

  lemma QuantumValues()
    ensures Base32.Values("QAAAAAAA") == [16, 0, 0, 0, 0, 0, 0, 0]
  {
    Base32.ValuesAppend("", 'Q');
    assert "" + ['Q'] == "Q";
    RunOfA(7);
    assert "QAAAAAAA" == "Q" + seq(7, _ => 'A');
    Base32.ValuesConcat("Q", seq(7, _ => 'A'));
  }

  lemma {:induction false} RunOfA(n: nat)
    ensures Base32.Values(seq(n, _ => 'A')) == seq(n, _ => 0)
  {
    if n > 0 {
      var s := seq(n, _ => 'A');
      assert s[..n - 1] == seq(n - 1, _ => 'A');
      RunOfA(n - 1);
      assert seq(n, _ => 0) == seq(n - 1, _ => 0) + [0];
    }
  }

  /**
   * The round trip fails for every byte string whose first byte has its top bit set: the
   * key comes back one byte longer, with a leading zero, so the HMAC is keyed differently.
   */
  lemma RoundTripFails(b: seq<byte>)
    requires |b| >= 1 && b[0] >= 128
    ensures DecodedBase32(Base32.Encode(b)) == [0] + b
    ensures DecodedBase32(Base32.Encode(b)) != b
  {
    Base32.RoundTrip(b);
    DecodedBase32Shape(Base32.Encode(b));
    assert ([0] + b)[0] == 0;
  }

  /** ... and holds for every other non-empty byte string. */
  lemma RoundTripHolds(b: seq<byte>)
    requires |b| >= 1 && b[0] < 128
    ensures DecodedBase32(Base32.Encode(b)) == b
  {
    Base32.RoundTrip(b);
    DecodedBase32Shape(Base32.Encode(b));
  }

  /** The moving factor's counter: the epoch millisecond over 1000 and then over 30, in long division. */
  function Intervals(epochMilli: int): (c: int)
    requires IsLong(epochMilli)
    ensures IsLong(c)
  {
    JavaDiv(JavaDiv(epochMilli, 1000), TotpInterval)
  }

  /** getMovingFactor: toByteArray of the interval count, right-aligned in 8 bytes. */
  method GetMovingFactor(epochMilli: int) returns (movingFactor: array<byte>)
    requires IsLong(epochMilli)
    ensures fresh(movingFactor)
    ensures movingFactor[..] == Hotp.MovingFactor(Intervals(epochMilli))
  {
    var intervalsSinceEpoch := JavaDiv(JavaDiv(epochMilli, 1000), TotpInterval);
    movingFactor := Hotp.CounterBuffer(intervalsSinceEpoch);
  }

  /**
   * From 1970 on the counter is the number of whole 30-second steps, the same counter that
   * Otp's TOTP mode computes from the epoch second with the default step, and the moving
   * factor is its 8-byte big-endian encoding.
   */
  lemma IntervalsSinceEpoch(epochMilli: int)
    requires 0 <= epochMilli <= LongMax
    ensures Intervals(epochMilli) == epochMilli / 30000
    ensures Intervals(epochMilli) == Otp.CounterValue(Defaults, epochMilli / 1000)
    ensures Hotp.MovingFactor(Intervals(epochMilli)) == BigEndian(epochMilli / 30000, 8)
  {
    DivDiv(epochMilli, 1000, 30);
    Hotp.MovingFactorBigEndian(epochMilli / 30000);
  }

  /** printOtp: carriage return, the value modulo 10^digits zero-padded to `digits`, then " <---". */
  function PrintOtp(otp: nat, digits: nat): string {
    "\r" + FormatZeroPadded(JavaRem(otp, Pow10(digits)), digits) + " <---"
  }

  /** The printed text is the six-digit code between the carriage return and the arrow. */
  lemma PrintOtpShape(otp: nat, digits: nat)
    requires digits >= 1
    ensures var line := PrintOtp(otp, digits);
      && |line| == digits + 6
      && line[0] == '\r' && line[digits + 1..] == " <---"
      && line[1..digits + 1] == Hotp.Code(otp, digits)
      && AllDigits(line[1..digits + 1]) && DecimalValue(line[1..digits + 1]) == otp % Pow10(digits)
  {
    Hotp.CodeShape(otp, digits);
    var code := Hotp.Code(otp, digits);
    var line := PrintOtp(otp, digits);
    assert line == "\r" + code + " <---";
    assert line[1..digits + 1] == code;
    assert line[digits + 1..] == " <---";
  }

  /** The sign-cleared window of the HmacSHA1 digest of the moving factor under the given key bytes. */
  function KeyedValue(keyBytes: seq<byte>, mac: Hmac.MacFunction, epochMilli: int): nat
    requires Hmac.WellFormed(mac) && IsLong(epochMilli)
  {
    var h := mac(Hmac.HmacSHA1, keyBytes, Hotp.MovingFactor(Intervals(epochMilli)));
    Hotp.TruncatableDigests(h);
    Hotp.TruncatedValue(h)
  }

  /** The window generate computes: the key is decoded by decodeBase32, sign byte included. */
  function TotpValue(key: string, mac: Hmac.MacFunction, epochMilli: int): nat
    requires Hmac.WellFormed(mac) && IsLong(epochMilli)
  {
    KeyedValue(DecodedBase32(key), mac, epochMilli)
  }

  /** The window with the key decoded by Base32.decode, which removes the sign byte. */
  function CorrectedTotpValue(key: string, mac: Hmac.MacFunction, epochMilli: int): nat
    requires Hmac.WellFormed(mac) && IsLong(epochMilli)
  {
    KeyedValue(Base32.Decoded(key), mac, epochMilli)
  }

  /** generate: moving factor, HmacSHA1 keyed by decodeBase32's bytes, dynamic truncation, six digits. */
  method Generate(key: string, mac: Hmac.MacFunction, epochMilli: int) returns (line: string)
    requires Hmac.WellFormed(mac) && IsLong(epochMilli)
    ensures line == PrintOtp(TotpValue(key, mac, epochMilli), NumDigits)
  {
    var movingFactor := GetMovingFactor(epochMilli);
    var text := movingFactor[..];
    var keyBytes := DecodeBase32(key);
    var hmac := mac(Hmac.HmacSHA1, keyBytes[..], text);
    Hotp.TruncatableDigests(hmac);
    var otp := Hotp.DynamicTruncate(hmac);
    line := PrintOtp(otp, NumDigits);
  }

  /** generate with the key decoded by Base32.decode instead, as the rest of the program decodes keys. */
  method GenerateCorrected(key: string, mac: Hmac.MacFunction, epochMilli: int) returns (line: string)
    requires Hmac.WellFormed(mac) && IsLong(epochMilli)
    ensures line == PrintOtp(CorrectedTotpValue(key, mac, epochMilli), NumDigits)
  {
    var movingFactor := GetMovingFactor(epochMilli);
    var text := movingFactor[..];
    var keyBytes := Base32.Decode(key);
    var hmac := mac(Hmac.HmacSHA1, keyBytes[..], text);
    Hotp.TruncatableDigests(hmac);
    var otp := Hotp.DynamicTruncate(hmac);
    line := PrintOtp(otp, NumDigits);
  }

  /**
   * Which key generate hands to HmacSHA1: Base32.decode's bytes when their first byte is
   * below 0x80, and otherwise those bytes behind an extra zero byte, a different key.
   */
  lemma GenerateKey(key: string, mac: Hmac.MacFunction, epochMilli: int)
    requires Hmac.WellFormed(mac) && IsLong(epochMilli)
    ensures Base32.Decoded(key)[0] < 128 ==> TotpValue(key, mac, epochMilli) == CorrectedTotpValue(key, mac, epochMilli)
    ensures Base32.Decoded(key)[0] >= 128 ==>
      && DecodedBase32(key) != Base32.Decoded(key)
      && TotpValue(key, mac, epochMilli) == KeyedValue([0] + Base32.Decoded(key), mac, epochMilli)
  {
    DecodedBase32Shape(key);
  }

  /**
   * For times from 1970 on and keys whose decoded first byte is below 0x80, the standalone
   * generator prints the code Otp prints for the same key in TOTP mode with the defaults.
   */
  lemma AgreesWithOtp(key: string, mac: Hmac.MacFunction, epochMilli: int)
    requires Hmac.WellFormed(mac) && 0 <= epochMilli <= LongMax
    requires Base32.Decoded(key)[0] < 128
    ensures var o := Defaults.(keys := [key]);
      Valid(o) && PrintOtp(TotpValue(key, mac, epochMilli), NumDigits) == "\r" + Otp.Codes(o, mac, epochMilli / 1000)[0] + " <---"
  {
    GenerateKey(key, mac, epochMilli);
    CorrectedAgreesWithOtp(key, mac, epochMilli);
  }

  /** With the corrected decoder the agreement with Otp holds for every key. */
  lemma CorrectedAgreesWithOtp(key: string, mac: Hmac.MacFunction, epochMilli: int)
    requires Hmac.WellFormed(mac) && 0 <= epochMilli <= LongMax
    ensures var o := Defaults.(keys := [key]);
      Valid(o) && PrintOtp(CorrectedTotpValue(key, mac, epochMilli), NumDigits) == "\r" + Otp.Codes(o, mac, epochMilli / 1000)[0] + " <---"
  {
    var o := Defaults.(keys := [key]);
    IntervalsSinceEpoch(epochMilli);
    assert Otp.CounterValue(o, epochMilli / 1000) == Intervals(epochMilli);
    Otp.CodeAt(o, mac, epochMilli / 1000, 0);
    Otp.KeyCodeOf(o, mac, Intervals(epochMilli), key);
  }
}
