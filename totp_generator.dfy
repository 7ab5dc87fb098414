/**
 * The generator behind the TOTP window: fixed options (TOTP mode, six digits), one key, and
 * per call the code together with the seconds left in the current 30-second step, computed
 * in Java's int and long arithmetic.
 */
module TotpGenerator {
  import opened Wrappers
  import opened JavaNum
  import opened Decimal
  import opened Options
  import Hmac
  import Otp

  /** The length of a TOTP step in the seconds-remaining arithmetic. */
  const StepSeconds: int := 30

  /** The value object: a code and how many seconds it has left. */
  datatype Totp = Totp(otp: string, secondsRemaining: int)

  /** totpOptions: the options the generator's superclass is built with. */
  function TotpOptions(): Result<Options, ParseError> {
    Parsed(["--totp", "-d=6"])
  }

  /** The generator: the inherited options and the key it was built with. */
  datatype Generator = Generator(options: Options, key: string)

  /** The constructor: super(totpOptions()), then the key; parse failures would escape. */
  function NewGenerator(key: string): (r: Result<Generator, ParseError>)
    ensures r.Ok? ==> r.value.key == key
  {
    match TotpOptions()
    case Err(e) => Err(e)
    case Ok(o) => Ok(Generator(o, key))
  }

  /**
   * generateTotp. getCounter and Instant.now are two clock reads, given here as
   * `counterSecond` and `currentSecond`; generateOtp is the inherited code generator,
   * given as a parameter. intValue keeps the low 32 bits, `(counter + 1) * 30` is int
   * arithmetic widened to long, and the final cast keeps the low 32 bits again.
   */
  function GenerateTotp(g: Generator, generateOtp: (string, int) -> string, counterSecond: int, currentSecond: int): (t: Totp)
    requires Valid(g.options) && IsLong(counterSecond) && IsLong(currentSecond)
    ensures t.otp == generateOtp(g.key, Otp.CounterValue(g.options, counterSecond))
    ensures IsInt(t.secondsRemaining)
  {
    var bigCounter := Otp.CounterValue(g.options, counterSecond);
    var otp := generateOtp(g.key, bigCounter);
    Totp.Totp(otp, WrappedRemaining(bigCounter, currentSecond))
  }

  /** "--totp" has no '=' and names the TOTP option. */
  lemma TotpArg()
    ensures SplitArg("--totp") == ("--totp", None)
    ensures KindOf(Opts, "--totp") == Some(OptionKind.Totp)
  {
    assert IndexOfEquals("--totp") == 6 by {
      IndexOfEqualsFirst("--totp");
    }
    assert "--totp" in Opts && Opts["--totp"] == OptionKind.Totp;
  }

  lemma ParsedTotpFlag()
    ensures Parsed(["--totp"]) == Ok(Defaults)
  {
    var args := ["--totp"];
    TotpArg();
    assert Step(Opts, args, 0, Defaults) == Ok((Defaults, 0));
  }

  /** "-d=6" names the digits option with the inline value "6". */
  lemma DigitsArg()
    ensures SplitArg("-d=6") == ("-d", Some("6"))
    ensures KindOf(Opts, "-d=6") == Some(Digits)
  {
    var x := "-d=6";
    assert SplitArg(x) == ("-d", Some("6")) by {
      assert IndexOfEquals(x) == 2;
      IndexOfEqualsFirst(x);
      assert x[..2] == "-d" && x[3..] == "6";
    }
    assert "-d" in Opts && Opts["-d"] == Digits;
  }

  /** Six digits is in range and already the default. */
  lemma SixDigits()
    ensures AfterValue(Digits, Defaults, "6") == Ok(Defaults)
  {
    assert ParseInt("6") == Some(6) by {
      assert DecimalValue("6") == 6;
    }
  }

  /** The generator's options parse cleanly: TOTP mode, six digits, and the defaults HmacSHA1 and 30 seconds. */
  lemma TotpOptionsValue()
    ensures TotpOptions() == Ok(Defaults)
    ensures Defaults.totp && Defaults.digits == 6 && Defaults.algorithm == Hmac.HmacSHA1 && Defaults.timestep == 30
    ensures Valid(Defaults) && Defaults.keys == [] && !Defaults.help
  {
    ParsedTotpFlag();
    DigitsArg();
    SixDigits();
    AppendInlineValue(Opts, ["--totp"], "-d=6");
    assert ["--totp"] + ["-d=6"] == ["--totp", "-d=6"];
  }

  /** Building a generator never fails and keeps the key with those options. */
  lemma NewGeneratorValue(key: string)
    ensures NewGenerator(key) == Ok(Generator(Defaults, key))
  {
    TotpOptionsValue();
  }

  /**
   * The int and long arithmetic of generateTotp: `intValue`, `+ 1` and `* 30` in int, the
   * subtraction in long and the cast back to int, for a counter as long as it is a long.
   */
  function WrappedRemaining(bigCounter: int, currentSecond: int): int {
    var counter := Int32(bigCounter);
    var nextSeconds := Int32(Int32(counter + 1) * StepSeconds);
    Int32(Int64(nextSeconds - currentSecond))
  }

  /** Each wrap-around keeps the value modulo 2^32, so a difference that fits an int comes out exact. */
  lemma WrappedRemainingExact(bigCounter: int, currentSecond: int)
    requires IsInt((bigCounter + 1) * 30 - currentSecond)
    ensures WrappedRemaining(bigCounter, currentSecond) == (bigCounter + 1) * 30 - currentSecond
  {
    var counter := Int32(bigCounter);
    var sum := Int32(counter + 1);
    var nextSeconds := Int32(sum * 30);
    var diff := Int64(nextSeconds - currentSecond);
    var exact := (bigCounter + 1) * 30 - currentSecond;
    Int32Congruent(bigCounter);
    Congruent32Add(counter, bigCounter, 1);
    Int32Congruent(counter + 1);
    Congruent32Trans(sum, counter + 1, bigCounter + 1);
    Congruent32Scale(sum, bigCounter + 1, 30);
    Int32Congruent(sum * 30);
    Congruent32Trans(nextSeconds, sum * 30, (bigCounter + 1) * 30);
    Congruent32Add(nextSeconds, (bigCounter + 1) * 30, -currentSecond);
    Int64Congruent32(nextSeconds - currentSecond);
    Congruent32Trans(diff, nextSeconds - currentSecond, exact);
    Int32OfCongruent(diff, exact);
  }

  /**
   * With two clock readings from 1970 on, the result is the end of the counter's step
   * minus the current second whenever that difference fits an int.
   */
  lemma SecondsRemainingExact(g: Generator, generateOtp: (string, int) -> string, counterSecond: int, currentSecond: int)
    requires g.options == Defaults && 0 <= counterSecond <= LongMax && IsLong(currentSecond)
    requires IsInt((counterSecond / 30 + 1) * 30 - currentSecond)
    ensures GenerateTotp(g, generateOtp, counterSecond, currentSecond).secondsRemaining
      == (counterSecond / 30 + 1) * 30 - currentSecond
  {
    TotpOptionsValue();
    assert Otp.CounterValue(g.options, counterSecond) == counterSecond / 30;
    WrappedRemainingExact(counterSecond / 30, currentSecond);
  }

  /**
   * With a single clock reading from 1970 on, the seconds remaining are 30 minus the
   * seconds into the step: between 1 and 30, and 30 exactly at a step boundary.
   */
  lemma SecondsRemaining(g: Generator, generateOtp: (string, int) -> string, now: int)
    requires g.options == Defaults && 0 <= now <= LongMax
    ensures var t := GenerateTotp(g, generateOtp, now, now);
      && t.secondsRemaining == 30 - now % 30
      && 1 <= t.secondsRemaining <= 30
      && (t.secondsRemaining == 30 <==> now % 30 == 0)
      && t.otp == generateOtp(g.key, now / 30)
  {
    TotpOptionsValue();
    assert (now / 30 + 1) * 30 - now == 30 - now % 30;
    SecondsRemainingExact(g, generateOtp, now, now);
  }

  /** One second later the count drops by one within a step, and starts again at 30 at the next step. */
  lemma SecondsRemainingTick(g: Generator, generateOtp: (string, int) -> string, now: int)
    requires g.options == Defaults && 0 <= now < LongMax
    ensures var before := GenerateTotp(g, generateOtp, now, now).secondsRemaining;
      var after := GenerateTotp(g, generateOtp, now + 1, now + 1).secondsRemaining;
      && (now % 30 != 29 ==> after == before - 1)
      && (now % 30 == 29 ==> before == 1 && after == 30)
  {
    SecondsRemaining(g, generateOtp, now);
    SecondsRemaining(g, generateOtp, now + 1);
    if now % 30 != 29 {
      DivModUnique(now + 1, 30, now / 30, now % 30 + 1);
    } else {
      DivModUnique(now + 1, 30, now / 30 + 1, 0);
    }
  }

  /**
   * From 2038-01-19T03:14:00Z on, `(counter + 1) * 30` no longer fits an int and wraps to a
   * negative number, yet the seconds remaining still come out right.
   */
  lemma NextSecondsWraps(g: Generator, generateOtp: (string, int) -> string)
    requires g.options == Defaults
    ensures var now := 2147483640;
      && (now / 30 + 1) * 30 > IntMax
      && Int32(Int32(Int32(now / 30) + 1) * StepSeconds) < 0
      && GenerateTotp(g, generateOtp, now, now).secondsRemaining == 30
  {
    SecondsRemaining(g, generateOtp, 2147483640);
  }
}
