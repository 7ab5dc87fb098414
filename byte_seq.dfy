/**
 * Byte arrays and the two conversions between BigInteger and byte[] that the
 * decoders and the counter encoding rely on (BigInteger.toByteArray and new BigInteger(byte[])).
 */
module ByteSeq {
  import opened JavaNum

  /** One byte, held as the unsigned value (b & 0xFF) of Java's signed `byte`. */
  type byte = x: int | 0 <= x < 256

  function Zeros(n: nat): (r: seq<byte>)
    ensures |r| == n
    ensures forall i :: 0 <= i < n ==> r[i] == 0
  {
    seq(n, _ => 0)
  }

  /** The unsigned big-endian value of a byte sequence. */
  function FromBigEndian(b: seq<byte>): nat {
    if b == [] then 0 else FromBigEndian(b[..|b| - 1]) * 256 + b[|b| - 1]
  }

  /** The `len` low-order bytes of the two's-complement representation of `v`, most significant first. */
  function BigEndian(v: int, len: nat): (r: seq<byte>)
    ensures |r| == len
    decreases len
  {
    if len == 0 then [] else BigEndian(v / 256, len - 1) + [v % 256]
  }

  /** Copying `b` into the tail of a fresh zero-filled array of length `width` (System.arraycopy at `width - |b|`). */
  function LeftPad(b: seq<byte>, width: nat): (r: seq<byte>)
    requires |b| <= width
    ensures |r| == width && r[width - |b|..] == b
    ensures forall i :: 0 <= i < width - |b| ==> r[i] == 0
  {
    Zeros(width - |b|) + b
  }

  lemma Pow2Byte(k: nat)
    ensures Pow2(k + 8) == 256 * Pow2(k)
  {
    Pow2Add(8, k);
  }

  lemma {:induction false} FromBigEndianBound(b: seq<byte>)
    ensures FromBigEndian(b) < Pow2(8 * |b|)
  {
    if b != [] {
      FromBigEndianBound(b[..|b| - 1]);
      Pow2Byte(8 * (|b| - 1));
    }
  }

  /** Reading back `len` bytes of `v` gives `v` modulo 2^(8·len). */
  lemma {:induction false} BigEndianValue(v: int, len: nat)
    ensures FromBigEndian(BigEndian(v, len)) == v % Pow2(8 * len)
    decreases len
  {
    if len > 0 {
      var b := BigEndian(v, len);
      assert b[..len - 1] == BigEndian(v / 256, len - 1);
      BigEndianValue(v / 256, len - 1);
      Pow2Byte(8 * (len - 1));
      ModMul(v, 256, Pow2(8 * (len - 1)));
    }
  }

  /** Encoding the value of a byte sequence in as many bytes gives the sequence back. */
  lemma {:induction false} BigEndianOfValue(b: seq<byte>)
    ensures BigEndian(FromBigEndian(b), |b|) == b
  {
    if b != [] {
      var init := b[..|b| - 1];
      BigEndianOfValue(init);
      var v := FromBigEndian(b);
      assert v / 256 == FromBigEndian(init) && v % 256 == b[|b| - 1];
      assert b == init + [b[|b| - 1]];
    }
  }

  lemma {:induction false} BigEndianZero(k: nat)
    ensures BigEndian(0, k) == Zeros(k)
  {
    if k > 0 {
      BigEndianZero(k - 1);
    }
  }

  /** A value that fits in `len` bytes, encoded in `k >= len` bytes, is its `len`-byte encoding behind zero bytes. */
  lemma {:induction false} BigEndianZeroExtend(v: nat, len: nat, k: nat)
    requires v < Pow2(8 * len) && len <= k
    ensures BigEndian(v, k) == Zeros(k - len) + BigEndian(v, len)
  {
    if len == 0 {
      BigEndianZero(k);
    } else {
      Pow2Byte(8 * (len - 1));
      BigEndianZeroExtend(v / 256, len - 1, k - 1);
      assert Zeros(k - 1 - (len - 1)) == Zeros(k - len);
    }
  }

  /** The first of `len` bytes is the value's top byte. */
  lemma {:induction false} BigEndianFirstByte(v: nat, len: nat)
    requires len >= 1 && v < Pow2(8 * len)
    ensures BigEndian(v, len)[0] == v / Pow2(8 * (len - 1))
  {
    if len > 1 {
      Pow2Byte(8 * (len - 1));
      Pow2Byte(8 * (len - 2));
      BigEndianFirstByte(v / 256, len - 1);
      DivDiv(v, 256, Pow2(8 * (len - 2)));
    }
  }

  /** A single byte value in `k` bytes is that byte behind zero bytes. */
  lemma BigEndianOneByte(c: byte, k: nat)
    requires k >= 1
    ensures BigEndian(c, k) == Zeros(k - 1) + [c]
  {
    Pow2Seven();
    BigEndianZeroExtend(c, 1, k);
    assert BigEndian(c, 1) == [c];
  }

  lemma Pow2Seven()
    ensures Pow2(7) == 128 && Pow2(8) == 256
  {
  }

  /**
   * The length of BigInteger.toByteArray(v): the fewest bytes, and at least one, whose
   * two's-complement range holds `v` (sign bit included).
   */
  function TwosLength(v: int): (n: nat)
    ensures n >= 1
    ensures -Pow2(8 * n - 1) <= v < Pow2(8 * n - 1)
    ensures n > 1 ==> !(-Pow2(8 * n - 9) <= v < Pow2(8 * n - 9))
    decreases Abs(v)
  {
    Pow2Seven();
    if -128 <= v < 128 then
      1
    else
      var m := TwosLength(v / 256);
      TwosStep(v, m);
      1 + m
  }

  /** Dividing by 256 scales a symmetric range by 256. */
  lemma ScaleRange(v: int, p: int)
    requires p > 0
    ensures -p <= v / 256 < p <==> -256 * p <= v < 256 * p
  {
    DivAtLeast(v, 256, -p);
    DivAtLeast(v, 256, p);
  }

  /** One more byte than v / 256 needs is exactly what v needs. */
  lemma TwosStep(v: int, m: nat)
    requires m >= 1 && !(-128 <= v < 128)
    requires -Pow2(8 * m - 1) <= v / 256 < Pow2(8 * m - 1)
    requires m > 1 ==> !(-Pow2(8 * m - 9) <= v / 256 < Pow2(8 * m - 9))
    ensures -Pow2(8 * (1 + m) - 1) <= v < Pow2(8 * (1 + m) - 1)
    ensures !(-Pow2(8 * (1 + m) - 9) <= v < Pow2(8 * (1 + m) - 9))
  {
    Pow2Byte(8 * m - 1);
    ScaleRange(v, Pow2(8 * m - 1));
    if m > 1 {
      Pow2Byte(8 * m - 9);
      ScaleRange(v, Pow2(8 * m - 9));
    } else {
      Pow2Seven();
    }
  }

  /** BigInteger.toByteArray(): the minimal big-endian two's-complement encoding. */
  function ToByteArray(v: int): (r: seq<byte>)
    ensures |r| >= 1
  {
    BigEndian(v, TwosLength(v))
  }

  /** new BigInteger(byte[]): reads a big-endian two's-complement value. */
  function FromTwosComplement(b: seq<byte>): int
    requires |b| >= 1
  {
    FromBigEndian(b) - (if b[0] >= 128 then Pow2(8 * |b|) else 0)
  }

  /** Any byte count whose two's-complement range holds `v` is at least the length toByteArray picks. */
  lemma {:induction false} TwosLengthAtMost(v: int, k: nat)
    requires k >= 1 && -Pow2(8 * k - 1) <= v < Pow2(8 * k - 1)
    ensures TwosLength(v) <= k
    decreases k
  {
    Pow2Seven();
    if !(-128 <= v < 128) {
      assert k > 1;
      Pow2Byte(8 * k - 9);
      TwosLengthAtMost(v / 256, k - 1);
    }
  }

  /** new BigInteger(v.toByteArray()) == v: the two conversions are inverse. */
  lemma ToByteArrayInverse(v: int)
    ensures FromTwosComplement(ToByteArray(v)) == v
  {
    var n := TwosLength(v);
    var b := ToByteArray(v);
    var m := Pow2(8 * n);
    var half := Pow2(8 * n - 1);
    var top := Pow2(8 * (n - 1));
    Pow2Add(1, 8 * n - 1);
    Pow2Add(7, 8 * (n - 1));
    Pow2Seven();
    assert m == 2 * half && half == 128 * top;
    BigEndianValue(v, n);
    var u := FromBigEndian(b);
    assert u == v % m;
    BigEndianOfValue(b);
    BigEndianFirstByte(u, n);
    DivAtLeast(u, top, 128);
    if v >= 0 {
      DivModUnique(v, m, 0, v);
    } else {
      DivModUnique(v, m, -1, v + m);
    }
  }

  /** A leading zero byte does not change the unsigned value. */
  lemma {:induction false} FromBigEndianLeadingZero(b: seq<byte>)
    ensures FromBigEndian([0] + b) == FromBigEndian(b)
  {
    if b != [] {
      var init := b[..|b| - 1];
      FromBigEndianLeadingZero(init);
      assert ([0] + b)[..|b|] == [0] + init;
    }
  }

  /** A byte count whose two's-complement range holds `v` bounds the length toByteArray picks. */
  lemma TwosLengthMinimal(v: int, k: nat)
    ensures k >= 1 && -Pow2(8 * k - 1) <= v < Pow2(8 * k - 1) ==> TwosLength(v) <= k
  {
    if k >= 1 && -Pow2(8 * k - 1) <= v < Pow2(8 * k - 1) {
      TwosLengthAtMost(v, k);
    }
  }

  /** The k-byte encoding of v starts with a set top bit exactly when v needs all 8k bits. */
  lemma {:induction false} TopBit(v: nat, k: nat)
    requires k >= 1 && v < Pow2(8 * k)
    ensures BigEndian(v, k)[0] >= 128 <==> v >= Pow2(8 * k - 1)
  {
    BigEndianFirstByte(v, k);
    DivAtLeast(v, Pow2(8 * (k - 1)), 128);
    Pow2Add(7, 8 * (k - 1));
    Pow2Seven();
    assert 8 * k - 1 == 7 + 8 * (k - 1);
  }

  /** A value of 8k bits needs at most one byte more than k for its sign. */
  lemma TwosLengthOfBits(v: nat, k: nat)
    requires k >= 1 && v < Pow2(8 * k)
    ensures TwosLength(v) <= k + 1
  {
    Pow2Monotone(8 * k, 8 * (k + 1) - 1);
    TwosLengthAtMost(v, k + 1);
  }

  lemma {:induction false} ShortShape(v: nat, k: nat)
    requires k >= 1 && v < Pow2(8 * k) && TwosLength(v) <= k
    ensures v < Pow2(8 * k - 1)
    ensures LeftPad(ToByteArray(v), k) == BigEndian(v, k)
  {
    var n := TwosLength(v);
    BelowTop(v, n, k);
    ZeroExtendPad(v, n, k);
  }

  lemma BelowTop(v: int, n: nat, k: nat)
    requires 1 <= n <= k && v < Pow2(8 * n - 1)
    ensures v < Pow2(8 * k - 1) && v < Pow2(8 * n)
  {
    Pow2Monotone(8 * n - 1, 8 * k - 1);
    Pow2Monotone(8 * n - 1, 8 * n);
  }

  lemma {:induction false} ZeroExtendPad(v: nat, n: nat, k: nat)
    requires n == TwosLength(v) && n <= k && v < Pow2(8 * n)
    ensures LeftPad(ToByteArray(v), k) == BigEndian(v, k)
  {
    BigEndianZeroExtend(v, n, k);
    PadIsZeros(ToByteArray(v), k);
  }

  lemma PadIsZeros(r: seq<byte>, k: nat)
    requires |r| <= k
    ensures LeftPad(r, k) == Zeros(k - |r|) + r
  {
  }

  lemma {:induction false} LongShape(v: nat, k: nat)
    requires k >= 1 && v < Pow2(8 * k) && TwosLength(v) == k + 1
    ensures v >= Pow2(8 * k - 1)
    ensures ToByteArray(v) == [0] + BigEndian(v, k)
  {
    BigEndianZeroExtend(v, k, k + 1);
    assert Zeros(1) == [0];
    TwosLengthMinimal(v, k);
  }

  /**
   * For 0 <= v < 2^(8k), toByteArray yields either the k-byte encoding with its leading zero
   * bytes removed, or, exactly when the k-byte encoding starts with a set top bit, one extra
   * leading 0x00 sign byte in front of it.
   */
  lemma {:induction false} ToByteArrayShape(v: nat, k: nat)
    requires k >= 1 && v < Pow2(8 * k)
    ensures |ToByteArray(v)| <= k + 1
    ensures |ToByteArray(v)| == k + 1 <==> BigEndian(v, k)[0] >= 128
    ensures |ToByteArray(v)| == k + 1 ==> ToByteArray(v) == [0] + BigEndian(v, k)
    ensures |ToByteArray(v)| <= k ==> LeftPad(ToByteArray(v), k) == BigEndian(v, k)
  {
    TwosLengthOfBits(v, k);
    TopBit(v, k);
    if TwosLength(v) <= k {
      ShortShape(v, k);
    } else {
      LongShape(v, k);
    }
  }

  /**
   * System.arraycopy(src, srcPos, dest, destPos, length) from a byte sequence into an array:
   * the `length` bytes at `srcPos` overwrite the bytes at `destPos`, and nothing else changes.
   */
  method ArrayCopy(src: seq<byte>, srcPos: nat, dest: array<byte>, destPos: nat, length: nat)
    requires srcPos + length <= |src| && destPos + length <= dest.Length
    modifies dest
    ensures dest[..] == old(dest[..destPos]) + src[srcPos..srcPos + length] + old(dest[destPos + length..])
  {
    for k := 0 to length
      invariant forall j :: 0 <= j < dest.Length && !(destPos <= j < destPos + k) ==> dest[j] == old(dest[j])
      invariant forall j :: destPos <= j < destPos + k ==> dest[j] == src[srcPos + (j - destPos)]
    {
      dest[destPos + k] := src[srcPos + k];
    }
    assert dest[..] == old(dest[..destPos]) + src[srcPos..srcPos + length] + old(dest[destPos + length..]);
  }
}
