/**
 * Base32.decode: a case-insensitive RFC 4648 section 6 decoder that skips every character
 * outside the alphabet, accumulates 5 bits per recognised character in a BigInteger, corrects
 * for the bits the last character over- or under-supplies, and sizes the result from the
 * character count rather than from the BigInteger's own byte length.
 */
module Base32 {
  import opened Wrappers
  import opened JavaNum
  import opened ByteSeq

  /** The alphabet of RFC 4648 section 6; a character's position is its 5-bit value. */
  const Alphabet: string := "ABCDEFGHIJKLMNOPQRSTUVWXYZ234567"

  lemma AlphabetChars()
    ensures |Alphabet| == 32
    ensures forall i :: 0 <= i < 26 ==> Alphabet[i] as int == 'A' as int + i
    ensures forall i :: 26 <= i < 32 ==> Alphabet[i] as int == '2' as int + i - 26
  {
  }

  /**
   * The content of the bitValues map: the alphabet position of `c`, or None when the map
   * has no entry for it.
   */
  function BitValue(c: char): (r: Option<nat>)
    ensures r.Some? ==> r.value < 32
  {
    if 'A' <= c <= 'Z' then Some(c as int - 'A' as int)
    else if '2' <= c <= '7' then Some(c as int - '2' as int + 26)
    else None
  }

  /** BitValue is position in the alphabet: defined exactly on its 32 characters, each mapped to its index. */
  lemma BitValueIsAlphabetIndex(c: char)
    ensures BitValue(c).Some? <==> c in Alphabet
    ensures BitValue(c).Some? ==> Alphabet[BitValue(c).value] == c
  {
    AlphabetChars();
  }

  /** The alphabet character at position k, by its character code. */
  function Letter(k: nat): (c: char)
    requires k < 32
    ensures BitValue(c) == Some(k) && ToUpper(c) == c
  {
    if k < 26 then ('A' as int + k) as char else ('2' as int + k - 26) as char
  }

  /** Letter is the alphabet read by position. */
  lemma LetterIsAlphabet(k: nat)
    requires k < 32
    ensures Letter(k) == Alphabet[k]
  {
    AlphabetChars();
  }

  /** The static block: maps each alphabet character to its position, 0 to 31. */
  method BuildBitValues() returns (bitValues: map<char, nat>)
    ensures forall c :: c in bitValues <==> BitValue(c).Some?
    ensures forall c :: c in bitValues ==> bitValues[c] == BitValue(c).value
  {
    AlphabetChars();
    bitValues := map[];
    for i := 0 to |Alphabet|
      invariant forall c :: c in bitValues <==> c in Alphabet[..i]
      invariant forall c :: c in bitValues ==> bitValues[c] < i && Alphabet[bitValues[c]] == c
    {
      bitValues := bitValues[Alphabet[i] := i];
    }
    assert Alphabet[..|Alphabet|] == Alphabet;
    forall c
      ensures (c in bitValues <==> BitValue(c).Some?) && (c in bitValues ==> bitValues[c] == BitValue(c).value)
    {
      BitValueIsAlphabetIndex(c);
      if c in bitValues {
        var k := bitValues[c];
        var j := BitValue(c).value;
        assert Alphabet[k] == Alphabet[j];
      }
    }
  }

  /** String.toUpperCase on ASCII letters; every other character is left as it is. */
  function ToUpper(c: char): char {
    if 'a' <= c <= 'z' then (c as int - 32) as char else c
  }

  function UpperCase(s: string): string {
    seq(|s|, i requires 0 <= i < |s| => ToUpper(s[i]))
  }

  /** What one character adds to the decoded stream: its 5-bit value, or nothing. */
  function CharValues(c: char): seq<nat> {
    match BitValue(c)
    case Some(v) => [v]
    case None => []
  }

  /** The 5-bit values of the recognised characters of `s`, in order. */
  function Values(s: string): seq<nat> {
    if s == [] then [] else Values(s[..|s| - 1]) + CharValues(s[|s| - 1])
  }

  /** Every value is a 5-bit value, one at most per character. */
  lemma {:induction false} ValuesBound(s: string)
    ensures forall k :: 0 <= k < |Values(s)| ==> Values(s)[k] < 32
    ensures |Values(s)| <= |s|
  {
    if s != [] {
      ValuesBound(s[..|s| - 1]);
    }
  }

  /** The accumulator after the loop: each value is appended as the next 5 bits, most significant first. */
  function Accumulated(vs: seq<nat>): nat {
    if vs == [] then 0 else Accumulated(vs[..|vs| - 1]) * 32 + vs[|vs| - 1]
  }

  /** numBitsInLastChar, computed with Java's truncating `%` (13 when no character was recognised). */
  function NumBitsInLastChar(n: nat): int {
    8 - JavaRem(5 * (n - 1), 8)
  }

  /** numBitsOvershot: how far the last shiftLeft(5) overshot the byte boundary; negative means undershot. */
  function NumBitsOvershot(n: nat): int {
    5 - NumBitsInLastChar(n)
  }

  /**
   * numBytes: the division by 8 it performs is always exact, and it is one more than
   * 5(n-1) div 8 when characters were recognised, one byte when none were.
   */
  function NumBytes(n: nat): (r: nat)
    ensures r * 8 == 5 * n - NumBitsOvershot(n)
    ensures r == if n == 0 then 1 else 5 * (n - 1) / 8 + 1
  {
    BitsOfBytes(n);
    var m := if n == 0 then 1 else 5 * (n - 1) / 8 + 1;
    DivModUnique(8 * m, 8, m, 0);
    JavaDiv(5 * n - NumBitsOvershot(n), 8)
  }

  /** The bit count numBytes divides is a whole number of bytes. */
  lemma BitsOfBytes(n: nat)
    ensures 5 * n - NumBitsOvershot(n) == 8 * (if n == 0 then 1 else 5 * (n - 1) / 8 + 1)
  {
    if n == 0 {
      assert JavaRem(-5, 8) == -5;
    } else {
      var q, r := 5 * (n - 1) / 8, 5 * (n - 1) % 8;
      assert JavaRem(5 * (n - 1), 8) == r;
      assert 5 * (n - 1) == 8 * q + r;
    }
  }

  /**
   * The value of the first 8·numBytes bits of the 5n-bit stream of `vs`, with zero bits
   * appended when the stream is shorter than that.
   */
  function StreamPrefix(vs: seq<nat>): nat {
    Scaled(Accumulated(vs), 5 * |vs|, 8 * NumBytes(|vs|))
  }

  /** An e-bit value re-read as an f-bit value: a * 2^f / 2^e. */
  function Scaled(a: nat, e: nat, f: nat): nat {
    var p: nat := Pow2(f);
    var d := Pow2(e);
    NonNegativeProduct(a, p);
    var x: nat := a * p;
    NonNegativeQuotient(x, d);
    x / d
  }

  lemma NonNegativeProduct(a: nat, b: nat)
    ensures a * b >= 0
  {
  }

  lemma NonNegativeQuotient(x: nat, d: int)
    requires d > 0
    ensures x / d >= 0
  {
  }

  /**
   * What Base32.decode returns: the first 8·numBytes bits of the stream of recognised
   * characters of the upper-cased input, as exactly numBytes big-endian bytes.
   */
  function Decoded(encoded: string): seq<byte> {
    var vs := Values(UpperCase(encoded));
    BigEndian(StreamPrefix(vs), NumBytes(|vs|))
  }

  lemma {:induction false} AccumulatedBound(vs: seq<nat>)
    requires forall k :: 0 <= k < |vs| ==> vs[k] < 32
    ensures Accumulated(vs) < Pow2(5 * |vs|)
  {
    if vs != [] {
      var init := vs[..|vs| - 1];
      AccumulatedBound(init);
      Pow2Add(5 * |init|, 5);
    }
  }

  lemma ScaleDown(a: nat, e: nat, f: nat)
    requires e >= f
    ensures a / Pow2(e - f) == a * Pow2(f) / Pow2(e)
  {
    Pow2Add(f, e - f);
    DivDiv(a * Pow2(f), Pow2(f), Pow2(e - f));
    DivModUnique(a * Pow2(f), Pow2(f), a, 0);
  }

  lemma ScaleUp(a: nat, e: nat, f: nat)
    requires e < f
    ensures a * Pow2(f - e) == a * Pow2(f) / Pow2(e)
  {
    Pow2Add(e, f - e);
    assert a * Pow2(f) == Pow2(e) * (a * Pow2(f - e));
    DivModUnique(a * Pow2(f), Pow2(e), a * Pow2(f - e), 0);
  }

  lemma ScaleBound(a: nat, e: nat, f: nat)
    requires a < Pow2(e)
    ensures a * Pow2(f) / Pow2(e) < Pow2(f)
  {
    Pow2Add(e, f);
    assert a * Pow2(f) < Pow2(e) * Pow2(f);
    DivAtLeast(a * Pow2(f), Pow2(e), Pow2(f));
  }

  /** Scaling an e-bit value to f bits: a right shift by e - f, or a left shift when that is negative. */
  lemma ScaleBits(a: nat, e: nat, f: nat)
    requires a < Pow2(e)
    ensures ShiftRight(a, e - f) == a * Pow2(f) / Pow2(e)
    ensures a * Pow2(f) / Pow2(e) < Pow2(f)
  {
    if e >= f {
      ScaleDown(a, e, f);
    } else {
      ScaleUp(a, e, f);
    }
    ScaleBound(a, e, f);
  }

  /**
   * The loop's accumulator shifted by numBitsOvershot (a left shift when it is negative)
   * is the stream prefix, and that prefix fits in numBytes bytes.
   */
  lemma ShiftedIsStreamPrefix(vs: seq<nat>)
    requires forall k :: 0 <= k < |vs| ==> vs[k] < 32
    ensures ShiftRight(Accumulated(vs), NumBitsOvershot(|vs|)) == StreamPrefix(vs)
    ensures StreamPrefix(vs) < Pow2(8 * NumBytes(|vs|))
  {
    AccumulatedBound(vs);
    ScaleBits(Accumulated(vs), 5 * |vs|, 8 * NumBytes(|vs|));
  }

  lemma ValuesAppend(s: string, c: char)
    ensures Values(s + [c]) == Values(s) + CharValues(c)
  {
    assert (s + [c])[..|s|] == s;
  }

  lemma ValuesStep(s: string, i: nat)
    requires i < |s|
    ensures Values(s[..i + 1]) == Values(s[..i]) + CharValues(s[i])
  {
    assert s[..i + 1] == s[..i] + [s[i]];
    ValuesAppend(s[..i], s[i]);
  }

  lemma AccumulatedAppend(vs: seq<nat>, v: nat)
    ensures Accumulated(vs + [v]) == Accumulated(vs) * 32 + v
  {
    assert (vs + [v])[..|vs|] == vs;
  }

  /** shiftLeft(5).or(v) appends v as the next 5 bits of the accumulator. */
  lemma OrIsAccumulated(vs: seq<nat>, v: nat)
    requires v < 32
    ensures BitOr(Accumulated(vs) * Pow2(5), v) == Accumulated(vs + [v])
  {
    assert Pow2(5) == 32;
    BitOrLowBits(Accumulated(vs), v, 5);
    AccumulatedAppend(vs, v);
  }

  /**
   * The last step of Base32.decode: a result shorter than numBytes is copied behind zero
   * bytes, a longer one loses its leading bytes, one of the right length is kept.
   */
  method PadOrTruncate(result: seq<byte>, numBytes: nat) returns (decoded: array<byte>)
    ensures fresh(decoded)
    ensures |result| < numBytes ==> decoded[..] == LeftPad(result, numBytes)
    ensures |result| >= numBytes ==> decoded[..] == result[|result| - numBytes..]
  {
    if |result| < numBytes {
      var zeroPadded := new byte[numBytes](_ => 0);
      ArrayCopy(result, 0, zeroPadded, numBytes - |result|, |result|);
      return zeroPadded;
    }
    if |result| > numBytes {
      var truncateZeroPadding := new byte[numBytes](_ => 0);
      ArrayCopy(result, |result| - numBytes, truncateZeroPadding, 0, numBytes);
      assert result[|result| - numBytes..|result| - numBytes + numBytes] == result[|result| - numBytes..];
      return truncateZeroPadding;
    }
    decoded := new byte[|result|](_ => 0);
    ArrayCopy(result, 0, decoded, 0, |result|);
    assert result[0..|result|] == result;
  }

  /** Base32.decode(encoded). */
  method Decode(encoded: string) returns (decoded: array<byte>)
    ensures fresh(decoded)
    ensures decoded[..] == Decoded(encoded)
  {
    var upper := UpperCase(encoded);
    var decodedAsNumber: nat := 0;
    var numEncodedChars: nat := 0;
    ghost var vs: seq<nat> := [];
    assert Pow2(5) == 32;
    // for each recognized char, add its corresponding 5-bit value
    for i := 0 to |upper|
      invariant vs == Values(upper[..i])
      invariant numEncodedChars == |vs|
      invariant decodedAsNumber == Accumulated(vs)
    {
      ValuesStep(upper, i);
      var nextBits := BitValue(upper[i]);
      if nextBits.Some? {
        numEncodedChars := numEncodedChars + 1;
        OrIsAccumulated(vs, nextBits.value);
        decodedAsNumber := BitOr(decodedAsNumber * Pow2(5), nextBits.value);
        vs := vs + [nextBits.value];
      }
    }
    assert upper[..|upper|] == upper;
    var numBitsInLastChar := 8 - JavaRem(5 * (numEncodedChars - 1), 8);
    var numBitsOvershot := 5 - numBitsInLastChar;
    var shifted := ShiftRight(decodedAsNumber, numBitsOvershot);
    var result := ToByteArray(shifted);
    var numBytes := JavaDiv(numEncodedChars * 5 - numBitsOvershot, 8);
    assert numBitsOvershot == NumBitsOvershot(|vs|);
    assert numBytes == NumBytes(|vs|);
    PaddedIsDecoded(encoded, vs, result, numBytes);
    // pad or remove padding, as needed
    decoded := PadOrTruncate(result, numBytes);
  }

  /** The padding step turns toByteArray of the shifted accumulator into the decoded bytes. */
  lemma PaddedIsDecoded(encoded: string, vs: seq<nat>, result: seq<byte>, numBytes: nat)
    requires vs == Values(UpperCase(encoded))
    requires result == ToByteArray(ShiftRight(Accumulated(vs), NumBitsOvershot(|vs|)))
    requires numBytes == NumBytes(|vs|)
    ensures |result| < numBytes ==> LeftPad(result, numBytes) == Decoded(encoded)
    ensures |result| >= numBytes ==> result[|result| - numBytes..] == Decoded(encoded)
  {
    ValuesBound(UpperCase(encoded));
    ShiftedIsStreamPrefix(vs);
    var shifted := StreamPrefix(vs);
    var want := BigEndian(shifted, numBytes);
    ToByteArrayShape(shifted, numBytes);
    if |result| == numBytes + 1 {
      assert result[1..] == want;
    } else if |result| == numBytes {
      assert LeftPad(result, numBytes) == Zeros(0) + result;
      assert result[0..] == result;
    }
  }

  /**
   * numBitsOvershot by character count: for the counts RFC 4648 section 6 produces
   * (n mod 8 in {0, 2, 4, 5, 7}) it is 0 to 4 and low bits are dropped; for the other
   * counts it is negative and zero bits are shifted in; with no character at all it is -8.
   */
  lemma OvershootTable(n: nat)
    ensures n == 0 ==> NumBitsInLastChar(n) == 13 && NumBitsOvershot(n) == -8
    ensures n > 0 ==> NumBitsOvershot(n) == [0, -3, 2, -1, 4, 1, -2, 3][n % 8]
    ensures n > 0 && n % 8 in {0, 2, 4, 5, 7} ==> 0 <= NumBitsOvershot(n) <= 4
    ensures n > 0 && n % 8 in {1, 3, 6} ==> NumBitsOvershot(n) < 0
  {
    if n > 0 {
      assert JavaRem(5 * (n - 1), 8) == (5 * (n - 1)) % 8;
      RemOfBits(n);
    }
  }

  /** The bits 5(n-1) leaves over a whole number of bytes, by n mod 8. */
  lemma RemOfBits(n: nat)
    requires n > 0
    ensures (5 * (n - 1)) % 8 == [3, 0, 5, 2, 7, 4, 1, 6][n % 8]
  {
    var q, r := n / 8, n % 8;
    var v := 5 * (n - 1);
    assert n == 8 * q + r;
    if r == 0 {
      DivModUnique(v, 8, 5 * q - 1, 3);
    } else if r == 1 {
      DivModUnique(v, 8, 5 * q, 0);
    } else if r == 2 {
      DivModUnique(v, 8, 5 * q, 5);
    } else if r == 3 {
      DivModUnique(v, 8, 5 * q + 1, 2);
    } else if r == 4 {
      DivModUnique(v, 8, 5 * q + 1, 7);
    } else if r == 5 {
      DivModUnique(v, 8, 5 * q + 2, 4);
    } else if r == 6 {
      DivModUnique(v, 8, 5 * q + 3, 1);
    } else {
      DivModUnique(v, 8, 5 * q + 3, 6);
    }
  }

  /** The decoded bytes, read big-endian, are the stream prefix: nothing is lost in the padding step. */
  lemma DecodedValue(encoded: string)
    ensures |Decoded(encoded)| == NumBytes(|Values(UpperCase(encoded))|)
    ensures FromBigEndian(Decoded(encoded)) == StreamPrefix(Values(UpperCase(encoded)))
  {
    var vs := Values(UpperCase(encoded));
    ValuesBound(UpperCase(encoded));
    ShiftedIsStreamPrefix(vs);
    BigEndianValue(StreamPrefix(vs), NumBytes(|vs|));
    DivModUnique(StreamPrefix(vs), Pow2(8 * NumBytes(|vs|)), 0, StreamPrefix(vs));
  }

  /** A string without a single alphabet character decodes to one zero byte, not to an empty array. */
  lemma DecodeNoCharacters(encoded: string)
    requires Values(UpperCase(encoded)) == []
    ensures Decoded(encoded) == [0]
  {
    assert StreamPrefix([]) == 0;
  }

  /**
   * Eight characters are one full quantum: five bytes whose forty bits are the eight
   * 5-bit values in order, as RFC 4648 section 6 lays them out.
   */
  lemma DecodeEightCharacters(encoded: string)
    requires |Values(UpperCase(encoded))| == 8
    ensures Decoded(encoded) == QuantumBytes(Values(UpperCase(encoded)))
  {
    var v := Values(UpperCase(encoded));
    ValuesBound(UpperCase(encoded));
    StreamPrefixQuantum(v);
    assert Decoded(encoded) == BigEndian(Accumulated(v), 5);
    QuantumValue(v);
  }

  /** The RFC 4648 section 6 layout of eight 5-bit values in five bytes. */
  function QuantumBytes(v: seq<nat>): seq<int>
    requires |v| == 8
  {
    [v[0] * 8 + v[1] / 4,
     (v[1] % 4) * 64 + v[2] * 2 + v[3] / 16,
     (v[3] % 16) * 16 + v[4] / 2,
     (v[4] % 2) * 128 + v[5] * 4 + v[6] / 8,
     (v[6] % 8) * 32 + v[7]]
  }

  lemma QuantumValue(v: seq<nat>)
    requires |v| == 8 && forall k :: 0 <= k < 8 ==> v[k] < 32
    ensures BigEndian(Accumulated(v), 5) == QuantumBytes(v)
  {
    AccumulatedEight(v);
    EightBytes(Accumulated(v), v);
  }

  /** A full quantum of eight values is five bytes, and nothing is shifted. */
  lemma StreamPrefixQuantum(v: seq<nat>)
    requires |v| == 8
    ensures NumBytes(|v|) == 5
    ensures StreamPrefix(v) == Accumulated(v)
  {
    var a := Accumulated(v);
    var p := Pow2(40);
    assert NumBytes(8) == 5;
    assert StreamPrefix(v) == a * p / p;
    DivModUnique(a * p, p, a, 0);
  }

  lemma AccumulatedStep(v: seq<nat>, k: nat)
    requires k < |v|
    ensures Accumulated(v[..k + 1]) == Accumulated(v[..k]) * 32 + v[k]
  {
    assert v[..k + 1] == v[..k] + [v[k]];
    AccumulatedAppend(v[..k], v[k]);
  }

  lemma AccumulatedEight(v: seq<nat>)
    requires |v| == 8
    ensures Accumulated(v) == ((((((v[0] * 32 + v[1]) * 32 + v[2]) * 32 + v[3]) * 32 + v[4]) * 32 + v[5]) * 32 + v[6]) * 32 + v[7]
  {
    assert v[..0] == [];
    AccumulatedStep(v, 0);
    AccumulatedStep(v, 1);
    AccumulatedStep(v, 2);
    AccumulatedStep(v, 3);
    AccumulatedStep(v, 4);
    AccumulatedStep(v, 5);
    AccumulatedStep(v, 6);
    AccumulatedStep(v, 7);
    assert v[..8] == v;
  }

  lemma EightBytes(a: int, v: seq<nat>)
    requires |v| == 8 && forall k :: 0 <= k < 8 ==> v[k] < 32
    requires a == ((((((v[0] * 32 + v[1]) * 32 + v[2]) * 32 + v[3]) * 32 + v[4]) * 32 + v[5]) * 32 + v[6]) * 32 + v[7]
    ensures BigEndian(a, 5) == QuantumBytes(v)
  {
    var v0, v1, v2, v3, v4, v5, v6, v7 := v[0], v[1], v[2], v[3], v[4], v[5], v[6], v[7];
    var b0, b1, b2 := v0 * 8 + v1 / 4, (v1 % 4) * 64 + v2 * 2 + v3 / 16, (v3 % 16) * 16 + v4 / 2;
    var b3, b4 := (v4 % 2) * 128 + v5 * 4 + v6 / 8, (v6 % 8) * 32 + v7;
    assert a == (((b0 * 256 + b1) * 256 + b2) * 256 + b3) * 256 + b4;
    DivModUnique(a, 256, ((b0 * 256 + b1) * 256 + b2) * 256 + b3, b4);
    DivModUnique(a / 256, 256, (b0 * 256 + b1) * 256 + b2, b3);
    DivModUnique(a / 256 / 256, 256, b0 * 256 + b1, b2);
    DivModUnique(a / 256 / 256 / 256, 256, b0, b1);
    DivModUnique(a / 256 / 256 / 256 / 256, 256, 0, b0);
  }

  lemma SplitLast(a: string, b: string)
    requires b != []
    ensures b == b[..|b| - 1] + [b[|b| - 1]]
    ensures a + b == (a + b[..|b| - 1]) + [b[|b| - 1]]
  {
    assert b == b[..|b| - 1] + [b[|b| - 1]];
  }

  lemma {:induction false} ValuesConcat(a: string, b: string)
    ensures Values(a + b) == Values(a) + Values(b)
  {
    if b == [] {
      assert a + b == a;
    } else {
      var init, last := b[..|b| - 1], b[|b| - 1];
      ValuesConcat(a, init);
      SplitLast(a, b);
      ValuesAppend(a + init, last);
      ValuesAppend(init, last);
    }
  }

  lemma UpperCaseConcat(a: string, b: string)
    ensures UpperCase(a + b) == UpperCase(a) + UpperCase(b)
  {
  }

  lemma SkippedValues(a: string, c: char, b: string)
    requires BitValue(ToUpper(c)).None?
    ensures Values(UpperCase(a + [c] + b)) == Values(UpperCase(a + b))
  {
    var ua, uc, ub := UpperCase(a), UpperCase([c]), UpperCase(b);
    assert UpperCase(a + [c] + b) == ua + uc + ub;
    assert UpperCase(a + b) == ua + ub;
    assert uc == [] + [ToUpper(c)];
    ValuesAppend([], ToUpper(c));
    assert Values(uc) == [];
    ValuesConcat(ua + uc, ub);
    ValuesConcat(ua, uc);
    ValuesConcat(ua, ub);
    assert ua + uc + ub == (ua + uc) + ub;
  }

  /** Characters outside the alphabet (padding '=', white space, '-', ...) are skipped: removing one changes nothing. */
  lemma SeparatorIgnored(a: string, c: char, b: string)
    requires BitValue(ToUpper(c)).None?
    ensures Decoded(a + [c] + b) == Decoded(a + b)
  {
    SkippedValues(a, c, b);
  }

  /** Decoding is case-insensitive: a string decodes like its upper-cased form. */
  lemma CaseInsensitive(encoded: string)
    ensures Decoded(encoded) == Decoded(UpperCase(encoded))
  {
    assert UpperCase(UpperCase(encoded)) == UpperCase(encoded);
  }

  /** The last n base-32 digits of x, most significant first. */
  function Digits32(x: nat, n: nat): (d: seq<nat>)
    ensures |d| == n
    ensures forall k :: 0 <= k < n ==> d[k] < 32
  {
    if n == 0 then [] else Digits32(x / 32, n - 1) + [x % 32]
  }

  /** The alphabet characters of a sequence of 5-bit values. */
  function Chars(d: seq<nat>): (s: string)
    requires forall k :: 0 <= k < |d| ==> d[k] < 32
    ensures |s| == |d|
  {
    if d == [] then [] else Chars(d[..|d| - 1]) + [Letter(d[|d| - 1])]
  }

  /** The number of characters the RFC 4648 encoding of m bytes has before '=' padding. */
  function EncodedLength(m: nat): nat {
    (8 * m + 4) / 5
  }

  /** The zero bits an encoding of m bytes appends to reach a multiple of 5 bits. */
  function PadBits(m: nat): (r: nat)
    ensures 8 * m + r == 5 * EncodedLength(m)
  {
    5 * EncodedLength(m) - 8 * m
  }

  /** The encoded bit stream as a number: the data bits followed by the padding bits. */
  function EncodedValue(b: seq<byte>): nat {
    FromBigEndian(b) * Pow2(PadBits(|b|))
  }

  /**
   * A reference RFC 4648 section 6 encoder, without the '=' padding (which the decoder skips):
   * the 8m data bits, zero bits appended up to a multiple of 5, five bits per character.
   */
  function Encode(b: seq<byte>): string {
    Chars(Digits32(EncodedValue(b), EncodedLength(|b|)))
  }

  lemma {:induction false} AccumulatedDigits(x: nat, n: nat)
    ensures Accumulated(Digits32(x, n)) == x % Pow2(5 * n)
  {
    if n > 0 {
      var d := Digits32(x, n);
      assert d[..n - 1] == Digits32(x / 32, n - 1);
      AccumulatedDigits(x / 32, n - 1);
      Pow2Add(5, 5 * (n - 1));
      assert Pow2(5) == 32;
      ModMul(x, 32, Pow2(5 * (n - 1)));
    }
  }

  /** The encoder emits upper-case characters only. */
  lemma UpperCaseChars(d: seq<nat>)
    requires forall k :: 0 <= k < |d| ==> d[k] < 32
    ensures UpperCase(Chars(d)) == Chars(d)
  {
    var s := Chars(d);
    forall k | 0 <= k < |s|
      ensures ToUpper(s[k]) == s[k]
    {
      CharsAt(d, k);
    }
  }

  lemma {:induction false} CharsAt(d: seq<nat>, k: nat)
    requires forall j :: 0 <= j < |d| ==> d[j] < 32
    requires k < |d|
    ensures Chars(d)[k] == Letter(d[k])
    decreases |d|
  {
    if k < |d| - 1 {
      var init := d[..|d| - 1];
      CharsAt(init, k);
    }
  }

  lemma {:induction false} ValuesOfChars(d: seq<nat>)
    requires forall k :: 0 <= k < |d| ==> d[k] < 32
    ensures Values(Chars(d)) == d
  {
    if d != [] {
      var init, last := d[..|d| - 1], d[|d| - 1];
      ValuesOfChars(init);
      ValuesAppend(Chars(init), Letter(last));
      assert d == init + [last];
    }
  }

  /** The character count of an encoding of m >= 1 bytes brings the decoder back to m bytes. */
  lemma NumBytesOfEncodedLength(m: nat)
    requires m >= 1
    ensures NumBytes(EncodedLength(m)) == m
    ensures 8 * m <= 5 * EncodedLength(m)
  {
    var n := EncodedLength(m);
    assert 8 * m <= 5 * n <= 8 * m + 4;
    DivModUnique(5 * (n - 1), 8, m - 1, 5 * (n - 1) - 8 * (m - 1));
  }

  lemma EncodedValueBound(b: seq<byte>)
    ensures EncodedValue(b) < Pow2(5 * EncodedLength(|b|))
  {
    var v, a, p := FromBigEndian(b), Pow2(8 * |b|), Pow2(PadBits(|b|));
    FromBigEndianBound(b);
    Pow2Add(8 * |b|, PadBits(|b|));
    assert 8 * |b| + PadBits(|b|) == 5 * EncodedLength(|b|);
    MulLess(v, a, p);
  }

  lemma EncodedBits(m: nat)
    ensures Pow2(5 * EncodedLength(m)) == Pow2(PadBits(m)) * Pow2(8 * m)
  {
    Pow2Add(PadBits(m), 8 * m);
  }

  lemma AccumulatedOfEncoding(b: seq<byte>)
    ensures Accumulated(Digits32(EncodedValue(b), EncodedLength(|b|))) == EncodedValue(b)
  {
    var x, n := EncodedValue(b), EncodedLength(|b|);
    EncodedValueBound(b);
    AccumulatedDigits(x, n);
    DivModUnique(x, Pow2(5 * n), 0, x);
  }

  lemma StreamPrefixOfEncoding(b: seq<byte>)
    requires |b| >= 1
    ensures StreamPrefix(Digits32(EncodedValue(b), EncodedLength(|b|))) == FromBigEndian(b)
  {
    var m, n := |b|, EncodedLength(|b|);
    NumBytesOfEncodedLength(m);
    AccumulatedOfEncoding(b);
    var v, p, a := FromBigEndian(b), Pow2(PadBits(m)), Pow2(8 * m);
    var d := Digits32(EncodedValue(b), n);
    assert Accumulated(d) == v * p;
    assert Pow2(8 * NumBytes(|d|)) == a;
    EncodedBits(m);
    ScaleBack(v, p, a);
  }


  /**
   * Decoding undoes RFC 4648 encoding for every non-empty byte sequence; the empty one
   * comes back as a single zero byte.
   */
  lemma RoundTrip(b: seq<byte>)
    ensures |b| >= 1 ==> Decoded(Encode(b)) == b
    ensures |b| == 0 ==> Decoded(Encode(b)) == [0]
  {
    if |b| == 0 {
      assert Encode(b) == [];
      DecodeNoCharacters(Encode(b));
    } else {
      NumBytesOfEncodedLength(|b|);
      UpperCaseChars(Digits32(EncodedValue(b), EncodedLength(|b|)));
      ValuesOfChars(Digits32(EncodedValue(b), EncodedLength(|b|)));
      StreamPrefixOfEncoding(b);
      BigEndianOfValue(b);
    }
  }
}
