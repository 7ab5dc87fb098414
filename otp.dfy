/**
 * The command-line generator: one counter for the whole run (the time step count in TOTP
 * mode, the given counter in HOTP mode), then for each key, in order, its Base32 decoding,
 * one MAC, dynamic truncation and the zero-padded code.
 */
module Otp {
  import opened Wrappers
  import opened JavaNum
  import opened ByteSeq
  import opened Decimal
  import Base32
  import Hmac
  import Hotp
  import opened Options

  /**
   * The counter value of getCounter: in TOTP mode the epoch second divided by the time step
   * with Java's long division, otherwise the configured counter.
   */
  function CounterValue(o: Options, epochSecond: int): (c: int)
    requires Valid(o) && IsLong(epochSecond)
    ensures IsLong(c)
  {
    if o.totp then JavaDiv(epochSecond, o.timestep) else o.counter
  }

  /** getCounter: the counter value through toByteArray into an 8-byte buffer. */
  method GetCounter(o: Options, epochSecond: int) returns (padded: array<byte>)
    requires Valid(o) && IsLong(epochSecond)
    ensures fresh(padded)
    ensures padded[..] == Hotp.MovingFactor(CounterValue(o, epochSecond))
  {
    var counter := if o.totp then JavaDiv(epochSecond, o.timestep) else o.counter;
    padded := Hotp.CounterBuffer(counter);
  }

  /** The line generate prints for one key: the HOTP value of its decoded bytes at the run's counter. */
  function KeyCode(o: Options, mac: Hmac.MacFunction, counter: int, key: string): string
    requires Valid(o) && Hmac.WellFormed(mac) && IsLong(counter)
  {
    Hotp.HotpCode(mac, o.algorithm, Base32.Decoded(key), counter, o.digits)
  }

  lemma KeyCodeOf(o: Options, mac: Hmac.MacFunction, counter: int, key: string)
    requires Valid(o) && Hmac.WellFormed(mac) && IsLong(counter)
    ensures var h := mac(o.algorithm, Base32.Decoded(key), Hotp.MovingFactor(counter));
      Hotp.Truncatable(h) && KeyCode(o, mac, counter, key) == Hotp.Code(Hotp.TruncatedValue(h), o.digits)
  {
    Hotp.TruncatableDigests(mac(o.algorithm, Base32.Decoded(key), Hotp.MovingFactor(counter)));
  }

  /** The line of one loop pass, from the MAC it computed and the value truncated from it, is that key's line. */
  lemma KeyLine(o: Options, mac: Hmac.MacFunction, counter: int, key: string, hmac: seq<byte>, otp: int)
    requires Valid(o) && Hmac.WellFormed(mac) && IsLong(counter)
    requires hmac == mac(o.algorithm, Base32.Decoded(key), Hotp.MovingFactor(counter))
    requires Hotp.Truncatable(hmac) && otp == Hotp.TruncatedValue(hmac)
    ensures Hotp.Code(otp, o.digits) == KeyCode(o, mac, counter, key)
  {
    KeyCodeOf(o, mac, counter, key);
  }

  /** Everything generate prints, one code per key, in the order of the keys (the line separator left out). */
  function Codes(o: Options, mac: Hmac.MacFunction, epochSecond: int): seq<string>
    requires Valid(o) && Hmac.WellFormed(mac) && IsLong(epochSecond)
  {
    var counter := CounterValue(o, epochSecond);
    seq(|o.keys|, k requires 0 <= k < |o.keys| => KeyCode(o, mac, counter, o.keys[k]))
  }

  /**
   * generate: the counter is computed once, then each key is decoded as Base32 (whatever the
   * hex option says), MACed with the configured algorithm and truncated.
   */
  method Generate(o: Options, mac: Hmac.MacFunction, epochSecond: int) returns (lines: seq<string>)
    requires Valid(o) && Hmac.WellFormed(mac) && IsLong(epochSecond)
    ensures lines == Codes(o, mac, epochSecond)
  {
    var padded := GetCounter(o, epochSecond);
    var counter := padded[..];
    ghost var c := CounterValue(o, epochSecond);
    lines := [];
    for i := 0 to |o.keys|
      invariant LinesOf(o, mac, c, i, lines)
    {
      var line := GenerateKey(o, mac, c, counter, o.keys[i]);
      LinesStep(o, mac, c, i, lines, line);
      lines := lines + [line];
    }
    CodesOfLines(o, mac, epochSecond, lines);
  }

  /** lines holds the lines of the first i keys, in order. */
  ghost predicate LinesOf(o: Options, mac: Hmac.MacFunction, c: int, i: nat, lines: seq<string>)
    requires Valid(o) && Hmac.WellFormed(mac) && IsLong(c)
  {
    i <= |o.keys| && |lines| == i && forall k :: 0 <= k < i ==> lines[k] == KeyCode(o, mac, c, o.keys[k])
  }

  /** Appending the i-th key's line extends the lines of the first i keys to the first i + 1. */
  lemma LinesStep(o: Options, mac: Hmac.MacFunction, c: int, i: nat, lines: seq<string>, line: string)
    requires Valid(o) && Hmac.WellFormed(mac) && IsLong(c)
    requires LinesOf(o, mac, c, i, lines) && i < |o.keys| && line == KeyCode(o, mac, c, o.keys[i])
    ensures LinesOf(o, mac, c, i + 1, lines + [line])
  {
  }

  /** A list holding each key's line in order is what Codes describes. */
  lemma CodesOfLines(o: Options, mac: Hmac.MacFunction, epochSecond: int, lines: seq<string>)
    requires Valid(o) && Hmac.WellFormed(mac) && IsLong(epochSecond)
    requires LinesOf(o, mac, CounterValue(o, epochSecond), |o.keys|, lines)
    ensures lines == Codes(o, mac, epochSecond)
  {
  }

  /** One pass of generate's loop: decode the key, MAC the counter buffer, truncate, format. */
  method GenerateKey(o: Options, mac: Hmac.MacFunction, ghost c: int, counter: seq<byte>, encoded: string) returns (line: string)
    requires Valid(o) && Hmac.WellFormed(mac) && IsLong(c) && counter == Hotp.MovingFactor(c)
    ensures line == KeyCode(o, mac, c, encoded)
  {
    var key := Base32.Decode(encoded);
    var hmac := mac(o.algorithm, key[..], counter);
    KeyCodeOf(o, mac, c, encoded);
    var otp := Hotp.DynamicTruncate(hmac);
    var digits := o.digits;
    KeyLine(o, mac, c, encoded, hmac, otp);
    line := Hotp.Code(otp, digits);
  }

  /** main: parse the arguments, then generate; a parse failure is the exception that ends the run. */
  function Run(args: seq<string>, mac: Hmac.MacFunction, epochSecond: int): Result<seq<string>, ParseError>
    requires Hmac.WellFormed(mac) && IsLong(epochSecond)
  {
    match Parsed(args)
    case Err(e) => Err(e)
    case Ok(o) =>
      ParsedValid(args);
      Ok(Codes(o, mac, epochSecond))
  }

  /**
   * Every line has exactly `digits` decimal characters and denotes the truncated MAC of the
   * key's bytes and the 8-byte counter modulo 10^digits.
   */
  lemma CodesShape(o: Options, mac: Hmac.MacFunction, epochSecond: int, k: nat)
    requires Valid(o) && Hmac.WellFormed(mac) && IsLong(epochSecond) && k < |o.keys|
    ensures |Codes(o, mac, epochSecond)| == |o.keys|
    ensures var code := Codes(o, mac, epochSecond)[k];
      var h := mac(o.algorithm, Base32.Decoded(o.keys[k]), Hotp.MovingFactor(CounterValue(o, epochSecond)));
      && |h| >= 20 && Hotp.Truncatable(h)
      && |code| == o.digits && AllDigits(code)
      && DecimalValue(code) == Hotp.TruncatedValue(h) % Pow10(o.digits)
  {
    var h := mac(o.algorithm, Base32.Decoded(o.keys[k]), Hotp.MovingFactor(CounterValue(o, epochSecond)));
    Hotp.TruncatableDigests(h);
    Hotp.CodeShape(Hotp.TruncatedValue(h), o.digits);
  }

  /** RFC 6238 section 4.2 with T0 = 0: from 1970 on, the TOTP counter is the number of whole time steps elapsed. */
  lemma TotpCounter(o: Options, epochSecond: int)
    requires Valid(o) && IsLong(epochSecond) && o.totp && epochSecond >= 0
    ensures CounterValue(o, epochSecond) == epochSecond / o.timestep
    ensures CounterValue(o, epochSecond) * o.timestep <= epochSecond < (CounterValue(o, epochSecond) + 1) * o.timestep
  {
  }

  /** Within one time step TOTP mode prints the same codes; HOTP mode ignores the clock altogether. */
  lemma SameStepSameCodes(o: Options, mac: Hmac.MacFunction, t1: int, t2: int)
    requires Valid(o) && Hmac.WellFormed(mac) && IsLong(t1) && IsLong(t2)
    requires !o.totp || (t1 >= 0 && t2 >= 0 && t1 / o.timestep == t2 / o.timestep)
    ensures Codes(o, mac, t1) == Codes(o, mac, t2)
  {
    assert CounterValue(o, t1) == CounterValue(o, t2);
  }

  lemma CodeAt(o: Options, mac: Hmac.MacFunction, epochSecond: int, k: nat)
    requires Valid(o) && Hmac.WellFormed(mac) && IsLong(epochSecond) && k < |o.keys|
    ensures |Codes(o, mac, epochSecond)| == |o.keys|
    ensures Codes(o, mac, epochSecond)[k] == KeyCode(o, mac, CounterValue(o, epochSecond), o.keys[k])
  {
  }

  /** Each key's code depends on that key alone, so the lines for two key lists are the lines for each. */
  lemma CodesOfKeys(o: Options, mac: Hmac.MacFunction, epochSecond: int, a: seq<string>, b: seq<string>)
    requires Valid(o) && Hmac.WellFormed(mac) && IsLong(epochSecond) && o.keys == a + b
    ensures Codes(o, mac, epochSecond) == Codes(o.(keys := a), mac, epochSecond) + Codes(o.(keys := b), mac, epochSecond)
  {
    var all := Codes(o, mac, epochSecond);
    var left := Codes(o.(keys := a), mac, epochSecond);
    var right := Codes(o.(keys := b), mac, epochSecond);
    assert CounterValue(o, epochSecond) == CounterValue(o.(keys := a), epochSecond) == CounterValue(o.(keys := b), epochSecond);
    forall k | 0 <= k < |all|
      ensures all[k] == (left + right)[k]
    {
      CodeAt(o, mac, epochSecond, k);
      if k < |a| {
        CodeAt(o.(keys := a), mac, epochSecond, k);
      } else {
        assert o.keys[k] == b[k - |a|];
        CodeAt(o.(keys := b), mac, epochSecond, k - |a|);
      }
    }
  }

  /** withKeys keeps the settings, so the copy for the key at position k prints exactly that key's line. */
  lemma WithKeysCode(o: Options, mac: Hmac.MacFunction, epochSecond: int, k: nat)
    requires Valid(o) && Hmac.WellFormed(mac) && IsLong(epochSecond) && k < |o.keys|
    ensures Valid(WithKeys(o, o.keys[k]))
    ensures Codes(WithKeys(o, o.keys[k]), mac, epochSecond) == [Codes(o, mac, epochSecond)[k]]
  {
    var c := WithKeys(o, o.keys[k]);
    assert CounterValue(c, epochSecond) == CounterValue(o, epochSecond);
  }

  /** The decoded key is never empty, so SecretKeySpec never rejects it. */
  lemma KeyNeverEmpty(key: string)
    ensures |Base32.Decoded(key)| >= 1
  {
    Base32.DecodedValue(key);
  }
}
