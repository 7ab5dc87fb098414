/**
 * The command-line options of the generator: the table of option spellings built by the
 * static block, the defaults, and the parse loop of the Options(String[]) constructor, in
 * which value-taking options read their value after '=' or from the next argument.
 */
module Options {
  import opened Wrappers
  import opened JavaNum
  import opened Decimal
  import Hmac

  /** OptionEnum. */
  datatype OptionKind =
    | Help | Verbose | HexKey | Base32Key | Hotp | Counter | Totp | TimeStart | TimeNow | TimeStep
    | HmacSha1 | HmacSha256 | HmacSha512 | Digits

  /** OptionEnum.values(), in declaration order. */
  const Kinds: seq<OptionKind> :=
    [Help, Verbose, HexKey, Base32Key, Hotp, Counter, Totp, TimeStart, TimeNow, TimeStep,
     HmacSha1, HmacSha256, HmacSha512, Digits]

  /** The constant's name, as the enum's toString gives it. */
  function EnumName(k: OptionKind): string {
    match k
    case Help => "HELP"
    case Verbose => "VERBOSE"
    case HexKey => "HEXKEY"
    case Base32Key => "BASE32KEY"
    case Hotp => "HOTP"
    case Counter => "COUNTER"
    case Totp => "TOTP"
    case TimeStart => "TIMESTART"
    case TimeNow => "TIMENOW"
    case TimeStep => "TIMESTEP"
    case HmacSha1 => "HMAC_SHA1"
    case HmacSha256 => "HMAC_SHA256"
    case HmacSha512 => "HMAC_SHA512"
    case Digits => "DIGITS"
  }

  /** `"--" + getLongOpt()`: every constant has a long name. */
  function LongFlag(k: OptionKind): string {
    match k
    case Help => "--help"
    case Verbose => "--verbose"
    case HexKey => "--hex"
    case Base32Key => "--base32"
    case Hotp => "--hotp"
    case Counter => "--counter"
    case Totp => "--totp"
    case TimeStart => "--start-time"
    case TimeNow => "--now"
    case TimeStep => "--time-step-size"
    case HmacSha1 => "--sha1"
    case HmacSha256 => "--sha256"
    case HmacSha512 => "--sha512"
    case Digits => "--digits"
  }

  /** `"-" + getShortOpt()`; the constants built with one argument have no short name. */
  function ShortFlag(k: OptionKind): Option<string> {
    match k
    case Help => Some("-h")
    case Verbose => Some("-v")
    case HexKey => Some("-x")
    case Base32Key => Some("-b")
    case Counter => Some("-c")
    case TimeStart => Some("-S")
    case TimeNow => Some("-N")
    case TimeStep => Some("-s")
    case Digits => Some("-d")
    case _ => None
  }

  /** `s` is a spelling the static block registers for `k`. */
  predicate Spells(s: string, k: OptionKind) {
    s == LongFlag(k) || ShortFlag(k) == Some(s)
  }

  /** The opts map as the static block leaves it. */
  const Opts: map<string, OptionKind> := map[
    "--help" := Help, "-h" := Help, "--verbose" := Verbose, "-v" := Verbose,
    "--hex" := HexKey, "-x" := HexKey, "--base32" := Base32Key, "-b" := Base32Key,
    "--hotp" := Hotp, "--counter" := Counter, "-c" := Counter, "--totp" := Totp,
    "--start-time" := TimeStart, "-S" := TimeStart, "--now" := TimeNow, "-N" := TimeNow,
    "--time-step-size" := TimeStep, "-s" := TimeStep, "--sha1" := HmacSha1,
    "--sha256" := HmacSha256, "--sha512" := HmacSha512, "--digits" := Digits, "-d" := Digits]

  /** One `compute` of the static block: register both spellings of `k`, failing on a spelling already taken. */
  function Register(m: map<string, OptionKind>, k: OptionKind): Result<map<string, OptionKind>, string> {
    var long := LongFlag(k);
    if long in m then Err("Two option enums have same longOpt: " + EnumName(m[long]) + "," + EnumName(k))
    else
      var m1 := m[long := k];
      match ShortFlag(k)
      case None => Ok(m1)
      case Some(s) =>
        if s in m1 then Err("Two option enums have same shortOpt: " + EnumName(m1[s]) + "," + EnumName(k))
        else Ok(m1[s := k])
  }

  /** The static block over a prefix of the constants: IllegalStateException becomes Err. */
  function OptsFrom(kinds: seq<OptionKind>): Result<map<string, OptionKind>, string> {
    if kinds == [] then Ok(map[])
    else
      match OptsFrom(kinds[..|kinds| - 1])
      case Err(msg) => Err(msg)
      case Ok(m) => Register(m, kinds[|kinds| - 1])
  }

  lemma OptsFromErr(kinds: seq<OptionKind>, n: nat)
    requires n <= |kinds| && OptsFrom(kinds[..n]).Err?
    ensures OptsFrom(kinds) == OptsFrom(kinds[..n])
    decreases |kinds| - n
  {
    if n < |kinds| {
      assert kinds[..n + 1][..n] == kinds[..n];
      OptsFromErr(kinds, n + 1);
    } else {
      assert kinds[..n] == kinds;
    }
  }

  /** The static block: for each constant, register its long and then its short spelling. */
  method BuildOpts() returns (r: Result<map<string, OptionKind>, string>)
    ensures r == OptsFrom(Kinds)
  {
    var opts: map<string, OptionKind> := map[];
    for i := 0 to |Kinds|
      invariant OptsFrom(Kinds[..i]) == Ok(opts)
    {
      var e := Kinds[i];
      assert Kinds[..i + 1][..i] == Kinds[..i];
      var long := LongFlag(e);
      if long in opts {
        r := Err("Two option enums have same longOpt: " + EnumName(opts[long]) + "," + EnumName(e));
        OptsFromErr(Kinds, i + 1);
        return;
      }
      opts := opts[long := e];
      if ShortFlag(e).Some? {
        var short := ShortFlag(e).value;
        if short in opts {
          r := Err("Two option enums have same shortOpt: " + EnumName(opts[short]) + "," + EnumName(e));
          OptsFromErr(Kinds, i + 1);
          return;
        }
        opts := opts[short := e];
      }
    }
    assert Kinds[..|Kinds|] == Kinds;
    r := Ok(opts);
  }

  /** Both spellings of each constant are registered for it. */
  lemma OptsHasSpellings(k: OptionKind)
    ensures HasSpellings(k)
  {
    if k.Help? || k.Verbose? || k.HexKey? || k.Base32Key? || k.Hotp? {
      OptsHasSpellingsFirst(k);
    } else if k.Counter? || k.Totp? || k.TimeStart? || k.TimeNow? || k.TimeStep? {
      OptsHasSpellingsMiddle(k);
    } else {
      OptsHasSpellingsLast(k);
    }
  }

  predicate HasSpellings(k: OptionKind) {
    && LongFlag(k) in Opts && Opts[LongFlag(k)] == k
    && (ShortFlag(k).Some? ==> ShortFlag(k).value in Opts && Opts[ShortFlag(k).value] == k)
  }

  lemma OptsHasSpellingsFirst(k: OptionKind)
    requires k.Help? || k.Verbose? || k.HexKey? || k.Base32Key? || k.Hotp?
    ensures HasSpellings(k)
  {
  }

  lemma OptsHasSpellingsMiddle(k: OptionKind)
    requires k.Counter? || k.Totp? || k.TimeStart? || k.TimeNow? || k.TimeStep?
    ensures HasSpellings(k)
  {
  }

  lemma OptsHasSpellingsLast(k: OptionKind)
    requires k.HmacSha1? || k.HmacSha256? || k.HmacSha512? || k.Digits?
    ensures HasSpellings(k)
  {
  }

  /** Every registered spelling is a spelling of the constant it is registered for. */
  lemma OptsOnlySpellings(s: string)
    requires s in Opts
    ensures Spells(s, Opts[s])
  {
  }

  /** Every spelling names exactly one constant, and the table holds exactly those spellings. */
  lemma OptsSpellings(s: string, k: OptionKind)
    ensures (s in Opts && Opts[s] == k) <==> Spells(s, k)
  {
    OptsHasSpellings(k);
    if s in Opts {
      OptsOnlySpellings(s);
      if Spells(s, k) {
        OptsHasSpellings(Opts[s]);
      }
    }
  }

  /** The part of the table that belongs to the first `i` constants. */
  function OptsUpTo(i: nat): map<string, OptionKind>
    requires i <= |Kinds|
  {
    map s | s in Opts && Opts[s] in Kinds[..i] :: Opts[s]
  }

  lemma KindsDistinct(i: nat)
    requires i < |Kinds|
    ensures Kinds[i] !in Kinds[..i]
    ensures Kinds[..i + 1] == Kinds[..i] + [Kinds[i]]
  {
  }

  /** Registering the next constant adds exactly its own spellings, none of them taken yet. */
  lemma RegisterNext(i: nat)
    requires i < |Kinds|
    ensures Register(OptsUpTo(i), Kinds[i]) == Ok(OptsUpTo(i + 1))
  {
    var k := Kinds[i];
    KindsDistinct(i);
    var m := OptsUpTo(i);
    OptsSpellings(LongFlag(k), k);
    assert LongFlag(k) !in m;
    var m1 := m[LongFlag(k) := k];
    var r := m1;
    if ShortFlag(k).Some? {
      OptsSpellings(ShortFlag(k).value, k);
      assert ShortFlag(k).value !in m1;
      r := m1[ShortFlag(k).value := k];
    }
    assert Register(m, k) == Ok(r);
    NextTable(i, r);
  }

  /** The table of the first i + 1 constants is that of the first i plus the spellings of the next one. */
  lemma NextTable(i: nat, r: map<string, OptionKind>)
    requires i < |Kinds|
    requires forall s :: s in r <==> s in OptsUpTo(i) || Spells(s, Kinds[i])
    requires forall s :: s in r ==> r[s] == if Spells(s, Kinds[i]) then Kinds[i] else OptsUpTo(i)[s]
    ensures OptsUpTo(i + 1) == r
  {
    var k := Kinds[i];
    KindsDistinct(i);
    forall s
      ensures s in OptsUpTo(i + 1) <==> s in r
      ensures s in r ==> OptsUpTo(i + 1)[s] == r[s]
    {
      OptsSpellings(s, k);
    }
  }

  lemma {:induction false} OptsFromPrefix(i: nat)
    requires i <= |Kinds|
    ensures OptsFrom(Kinds[..i]) == Ok(OptsUpTo(i))
  {
    if i == 0 {
      assert Kinds[..0] == [];
      assert OptsUpTo(0) == map[];
    } else {
      OptsFromPrefix(i - 1);
      RegisterNext(i - 1);
      assert Kinds[..i][..i - 1] == Kinds[..i - 1];
      assert Kinds[..i][i - 1] == Kinds[i - 1];
    }
  }

  /** The static block never throws: no two constants share a spelling, and it builds the table above. */
  lemma StaticBlock()
    ensures OptsFrom(Kinds) == Ok(Opts)
  {
    OptsFromPrefix(|Kinds|);
    assert Kinds[..|Kinds|] == Kinds;
    forall s | s in Opts
      ensures Opts[s] in Kinds
    {
    }
    assert OptsUpTo(|Kinds|) == Opts;
  }

  /** The settings an Options object carries; the algorithm field holds one of the three JCA names. */
  datatype Options = Options(
    keys: seq<string>, counter: int, base32: bool, digits: int,
    algorithm: Hmac.Algorithm, totp: bool, help: bool, timestep: int)

  /** The field initialisers. */
  const Defaults: Options := Options([], 0, true, 6, Hmac.HmacSHA1, true, false, 30)

  /** The messages of the exceptions the constructor throws, by name; Text spells each one out. */
  datatype Message = CounterMissing | DigitsMissing | TimestepMissing | NotImplemented

  function Text(m: Message): string {
    match m
    case CounterMissing => "A non-negative integer must follow the counter option"
    case DigitsMissing => "A value of 6, 7, or 8 must follow the digits option"
    case TimestepMissing => "A strictly positive integer must follow the timestep option"
    case NotImplemented => "Not yet implemented"
  }

  /** The exceptions the constructor lets escape. */
  datatype ParseError =
    | IllegalArgument(message: Message)
    | NumberFormat(input: string)
    | UnsupportedOperation(message: Message)

  /** The three validator lambdas the constructor hands to getIntValue, by name. */
  datatype Check = NonNegative | DigitCount | Positive

  /** What each validator lambda accepts. */
  predicate Accepts(validator: Check, x: int) {
    match validator
    case NonNegative => x >= 0
    case DigitCount => x > 5 && x < 9
    case Positive => x > 0
  }

  /** The position of the first '=' in `s`, or |s| when there is none. */
  function IndexOfEquals(s: string): (r: nat)
    ensures r <= |s|
  {
    if s == [] then 0
    else if s[0] == '=' then 0
    else 1 + IndexOfEquals(s[1..])
  }

  /** It is the first '=': there is one at the position found and none before it. */
  lemma {:induction false} IndexOfEqualsFirst(s: string)
    ensures IndexOfEquals(s) < |s| ==> s[IndexOfEquals(s)] == '='
    ensures forall k :: 0 <= k < IndexOfEquals(s) ==> s[k] != '='
  {
    if s != [] && s[0] != '=' {
      IndexOfEqualsFirst(s[1..]);
      forall k | 0 <= k < IndexOfEquals(s)
        ensures s[k] != '='
      {
        if k > 0 {
          assert s[k] == s[1..][k - 1];
        }
      }
    }
  }

  /** `split("=", 2)`: the text before the first '=', and what follows it when there is one. */
  function SplitArg(s: string): (string, Option<string>) {
    var k := IndexOfEquals(s);
    if k == |s| then (s, None) else (s[..k], Some(s[k + 1..]))
  }

  lemma SplitArgParts(s: string)
    ensures '=' !in SplitArg(s).0
    ensures SplitArg(s).1.None? ==> SplitArg(s).0 == s
    ensures SplitArg(s).1.Some? ==> s == SplitArg(s).0 + "=" + SplitArg(s).1.value
  {
    var k := IndexOfEquals(s);
    IndexOfEqualsFirst(s);
    if k < |s| {
      assert s == s[..k] + "=" + s[k + 1..];
    }
  }

  /**
   * getIntValue: the value after '=' if there was one, else the next argument (whose index
   * is then the new position), parsed and validated.
   */
  function GetIntValue(equalsArg: Option<string>, args: seq<string>, i: nat,
                       validator: Check, errorMessage: Message): (r: Result<(int, nat), ParseError>)
    requires i < |args|
    ensures r.Ok? ==> r.value.1 == (if equalsArg.Some? then i else i + 1) && r.value.1 < |args|
    ensures r.Ok? ==> Accepts(validator, r.value.0) && IsInt(r.value.0)
  {
    if equalsArg.None? && i + 1 >= |args| then Err(IllegalArgument(errorMessage))
    else
      var next := if equalsArg.Some? then i else i + 1;
      var arg := if equalsArg.Some? then equalsArg.value else args[i + 1];
      match ParseInt(arg)
      case None => Err(NumberFormat(arg))
      case Some(number) => if Accepts(validator, number) then Ok((number, next)) else Err(IllegalArgument(errorMessage))
  }

  /** opts.get on an argument's text before '=': the option registered under it, if any. */
  function KindOf(opts: map<string, OptionKind>, arg: string): Option<OptionKind> {
    var name := SplitArg(arg).0;
    if name in opts then Some(opts[name]) else None
  }

  /** The options that read a number. */
  predicate IsValueKind(k: OptionKind) {
    k == Counter || k == Digits || k == TimeStep
  }

  /** Whether an argument takes the one after it as its value: a value-taking option without '='. */
  predicate TakesNext(opts: map<string, OptionKind>, arg: string) {
    KindOf(opts, arg).Some? && IsValueKind(KindOf(opts, arg).value) && SplitArg(arg).1.None?
  }

  /** The key, if any, that an argument contributes when the loop visits it. */
  function KeyOf(opts: map<string, OptionKind>, arg: string): seq<string> {
    if KindOf(opts, arg).None? then [SplitArg(arg).0] else []
  }

  /** The validator of a value-taking option. */
  function Validator(k: OptionKind): Check {
    match k
    case Counter => NonNegative
    case Digits => DigitCount
    case _ => Positive
  }

  /** The error message of a value-taking option. */
  function MessageOf(k: OptionKind): Message {
    match k
    case Counter => CounterMissing
    case Digits => DigitsMissing
    case _ => TimestepMissing
  }

  /** The field a value-taking option sets. */
  function Assign(k: OptionKind, o: Options, n: int): Options {
    match k
    case Counter => o.(counter := n)
    case Digits => o.(digits := n)
    case _ => o.(timestep := n)
  }

  /** The cases of the switch that read no value: a setting changes, or the option is not supported. */
  function FlagStep(k: OptionKind, o: Options): Result<Options, ParseError>
    requires !IsValueKind(k)
  {
    match k
    case Help => Ok(o.(help := true))
    case HexKey => Ok(o.(base32 := false))
    case Base32Key => Ok(o.(base32 := true))
    case Hotp => Ok(o.(totp := false))
    case Totp => Ok(o.(totp := true))
    case HmacSha1 => Ok(o.(algorithm := Hmac.HmacSHA1))
    case HmacSha256 => Ok(o.(algorithm := Hmac.HmacSHA256))
    case HmacSha512 => Ok(o.(algorithm := Hmac.HmacSHA512))
    case _ => Err(UnsupportedOperation(NotImplemented))
  }

  /**
   * The switch on a registered option: the counter, digits and timestep cases read their
   * value with getIntValue and their own validator and message; the other cases set a flag
   * or throw. The position returned is the last one used.
   */
  function Switch(k: OptionKind, equalsArg: Option<string>, args: seq<string>, i: nat, o: Options): (r: Result<(Options, nat), ParseError>)
    requires i < |args|
    ensures r.Ok? ==> i <= r.value.1 < |args|
  {
    if IsValueKind(k) then
      var v := GetIntValue(equalsArg, args, i, Validator(k), MessageOf(k));
      if v.Err? then Err(v.error) else Ok((Assign(k, o, v.value.0), v.value.1))
    else
      match FlagStep(k, o)
      case Err(e) => Err(e)
      case Ok(o') => Ok((o', i))
  }

  /** One pass of the constructor's loop body at position i: an unregistered argument is a key, a registered one runs its case. */
  function Step(opts: map<string, OptionKind>, args: seq<string>, i: nat, o: Options): (r: Result<(Options, nat), ParseError>)
    requires i < |args|
    ensures r.Ok? ==> i <= r.value.1 < |args|
  {
    var (arg, equalsArg) := SplitArg(args[i]);
    match KindOf(opts, args[i])
    case None => Ok((o.(keys := o.keys + [arg]), i))
    case Some(k) => Switch(k, equalsArg, args, i, o)
  }

  /** The loop from position i on, the index moving one past the last position each pass used. */
  function ParseFrom(opts: map<string, OptionKind>, args: seq<string>, i: nat, o: Options): Result<Options, ParseError>
    decreases |args| - i
  {
    if i >= |args| then Ok(o)
    else
      match Step(opts, args, i, o)
      case Err(e) => Err(e)
      case Ok((o', j)) => ParseFrom(opts, args, j + 1, o')
  }

  /** The constructor over a given table: help starts out true exactly for an empty argument list. */
  function ParsedWith(opts: map<string, OptionKind>, args: seq<string>): Result<Options, ParseError> {
    ParseFrom(opts, args, 0, Defaults.(help := |args| == 0))
  }

  /** Options.parse(args), which reads the static block's table. */
  function Parsed(args: seq<string>): Result<Options, ParseError> {
    ParsedWith(Opts, args)
  }

  /**
   * The Options(String[]) constructor, with the static table it reads given as `opts`: the
   * fields start at their initialisers, the loop reassigns them case by case, and an
   * exception ends the parse.
   */
  method Construct(opts: map<string, OptionKind>, args: seq<string>) returns (r: Result<Options, ParseError>)
    ensures r == ParsedWith(opts, args)
  {
    var o := Defaults;
    o := o.(help := |args| == 0);
    var i := 0;
    while i < |args|
      invariant ParseFrom(opts, args, i, o) == ParsedWith(opts, args)
      decreases |args| - i
    {
      var (arg, equalsArg) := SplitArg(args[i]);
      if arg !in opts {
        o := o.(keys := o.keys + [arg]);
      } else {
        var next := RunCase(opts[arg], equalsArg, args, i, o);
        if next.Err? {
          return Err(next.error);
        }
        o, i := next.value.0, next.value.1;
      }
      i := i + 1;
    }
    r := Ok(o);
  }

  /** The switch statement of the constructor's loop, case by case. */
  method RunCase(k: OptionKind, equalsArg: Option<string>, args: seq<string>, i: nat, o: Options)
    returns (r: Result<(Options, nat), ParseError>)
    requires i < |args|
    ensures r == Switch(k, equalsArg, args, i, o)
  {
    match k
    case Base32Key =>
      r := Ok((o.(base32 := true), i));
    case Counter =>
      assert Validator(k) == NonNegative;
      var v := GetIntValue(equalsArg, args, i, NonNegative, CounterMissing);
      if v.Err? {
        return Err(v.error);
      }
      r := Ok((o.(counter := v.value.0), v.value.1));
    case Digits =>
      assert Validator(k) == DigitCount;
      var v := GetIntValue(equalsArg, args, i, DigitCount, DigitsMissing);
      if v.Err? {
        return Err(v.error);
      }
      r := Ok((o.(digits := v.value.0), v.value.1));
    case Help =>
      r := Ok((o.(help := true), i));
    case HexKey =>
      r := Ok((o.(base32 := false), i));
    case HmacSha1 =>
      r := Ok((o.(algorithm := Hmac.HmacSHA1), i));
    case HmacSha256 =>
      r := Ok((o.(algorithm := Hmac.HmacSHA256), i));
    case HmacSha512 =>
      r := Ok((o.(algorithm := Hmac.HmacSHA512), i));
    case Hotp =>
      r := Ok((o.(totp := false), i));
    case TimeNow =>
      r := Err(UnsupportedOperation(NotImplemented));
    case TimeStart =>
      r := Err(UnsupportedOperation(NotImplemented));
    case TimeStep =>
      assert Validator(k) == Positive;
      var v := GetIntValue(equalsArg, args, i, Positive, TimestepMissing);
      if v.Err? {
        return Err(v.error);
      }
      r := Ok((o.(timestep := v.value.0), v.value.1));
    case Totp =>
      r := Ok((o.(totp := true), i));
    case Verbose =>
      r := Err(UnsupportedOperation(NotImplemented));
  }

  /** Options.parse(args): the constructor on the static block's table. */
  method Parse(args: seq<string>) returns (r: Result<Options, ParseError>)
    ensures r == Parsed(args)
  {
    r := Construct(Opts, args);
  }

  /** withKeys: a copy with the given single key and help false, every other setting copied. */
  function WithKeys(o: Options, newKey: string): (c: Options)
    ensures c.keys == [newKey] && !c.help
    ensures c.counter == o.counter && c.base32 == o.base32 && c.digits == o.digits
    ensures c.algorithm == o.algorithm && c.totp == o.totp && c.timestep == o.timestep
  {
    Defaults.(counter := o.counter, base32 := o.base32, digits := o.digits, algorithm := o.algorithm,
              totp := o.totp, timestep := o.timestep, keys := [newKey])
  }

  lemma ParseEmpty()
    ensures Parsed([]) == Ok(Defaults.(help := true))
  {
  }

  /** The ranges the validators enforce, and the 32-bit range of every parsed number. */
  predicate Valid(o: Options) {
    0 <= o.counter <= IntMax && 6 <= o.digits <= 8 && 0 < o.timestep <= IntMax
  }

  /** A pass reads the next argument exactly when the current one is a value-taking option without '='. */
  lemma StepNext(opts: map<string, OptionKind>, args: seq<string>, i: nat, o: Options)
    requires i < |args| && Step(opts, args, i, o).Ok?
    ensures Step(opts, args, i, o).value.1 == if TakesNext(opts, args[i]) then i + 1 else i
  {
  }

  lemma AssignValid(k: OptionKind, o: Options, n: int)
    requires Valid(o) && IsValueKind(k) && Accepts(Validator(k), n) && IsInt(n)
    ensures Valid(Assign(k, o, n))
  {
  }

  lemma FlagStepValid(k: OptionKind, o: Options)
    requires Valid(o) && !IsValueKind(k) && FlagStep(k, o).Ok?
    ensures Valid(FlagStep(k, o).value)
  {
  }

  /** Each pass keeps the validators' ranges. */
  lemma StepValid(opts: map<string, OptionKind>, args: seq<string>, i: nat, o: Options)
    requires i < |args| && Valid(o) && Step(opts, args, i, o).Ok?
    ensures Valid(Step(opts, args, i, o).value.0)
  {
    var kind := KindOf(opts, args[i]);
    if kind.Some? {
      var k := kind.value;
      if IsValueKind(k) {
        var v := GetIntValue(SplitArg(args[i]).1, args, i, Validator(k), MessageOf(k));
        AssignValid(k, o, v.value.0);
      } else {
        FlagStepValid(k, o);
      }
    }
  }

  lemma FlagStepShape(k: OptionKind, o: Options)
    requires !IsValueKind(k) && FlagStep(k, o).Ok?
    ensures FlagStep(k, o).value.keys == o.keys
    ensures FlagStep(k, o).value.help <==> o.help || k == Help
  {
  }

  /** A pass adds the argument's name to the keys when it is no option, and sets help exactly for --help and -h. */
  lemma StepShape(opts: map<string, OptionKind>, args: seq<string>, i: nat, o: Options)
    requires i < |args| && Step(opts, args, i, o).Ok?
    ensures Step(opts, args, i, o).value.0.keys == o.keys + KeyOf(opts, args[i])
    ensures Step(opts, args, i, o).value.0.help <==> o.help || KindOf(opts, args[i]) == Some(Help)
  {
    var kind := KindOf(opts, args[i]);
    if kind.Some? {
      var k := kind.value;
      if IsValueKind(k) {
        var n := GetIntValue(SplitArg(args[i]).1, args, i, Validator(k), MessageOf(k)).value.0;
        assert Assign(k, o, n).keys == o.keys && Assign(k, o, n).help == o.help;
      } else {
        FlagStepShape(k, o);
      }
    }
  }

  /** One successful pass of the loop: the parse from i is the parse from where that pass ends. */
  lemma ParseFromStep(opts: map<string, OptionKind>, args: seq<string>, i: nat, o: Options)
    requires i < |args| && ParseFrom(opts, args, i, o).Ok?
    ensures Step(opts, args, i, o).Ok?
    ensures var st := Step(opts, args, i, o).value;
      ParseFrom(opts, args, i, o) == ParseFrom(opts, args, st.1 + 1, st.0)
  {
  }

  lemma {:induction false} ParseFromValid(opts: map<string, OptionKind>, args: seq<string>, i: nat, o: Options)
    requires Valid(o) && ParseFrom(opts, args, i, o).Ok?
    ensures Valid(ParseFrom(opts, args, i, o).value)
    decreases |args| - i
  {
    if i < |args| {
      ParseFromStep(opts, args, i, o);
      var st := Step(opts, args, i, o).value;
      StepValid(opts, args, i, o);
      ParseFromValid(opts, args, st.1 + 1, st.0);
    }
  }

  /** Every configuration the parser produces has digits 6 to 8, a non-negative counter and a positive timestep. */
  lemma ParsedValid(args: seq<string>)
    requires Parsed(args).Ok?
    ensures Valid(Parsed(args).value)
  {
    ParseFromValid(Opts, args, 0, Defaults.(help := |args| == 0));
  }

  lemma GetIntValuePrefix(equalsArg: Option<string>, a: seq<string>, b: seq<string>, i: nat,
                          validator: Check, errorMessage: Message)
    requires i < |a| && GetIntValue(equalsArg, a, i, validator, errorMessage).Ok?
    ensures GetIntValue(equalsArg, a + b, i, validator, errorMessage) == GetIntValue(equalsArg, a, i, validator, errorMessage)
  {
    if equalsArg.None? {
      assert (a + b)[i + 1] == a[i + 1];
    }
  }

  /** A pass that succeeds within `a` reads nothing past it. */
  lemma StepPrefix(opts: map<string, OptionKind>, a: seq<string>, b: seq<string>, i: nat, o: Options)
    requires i < |a| && Step(opts, a, i, o).Ok?
    ensures Step(opts, a + b, i, o) == Step(opts, a, i, o)
  {
    assert (a + b)[i] == a[i];
    var kind := KindOf(opts, a[i]);
    if kind.Some? && IsValueKind(kind.value) {
      GetIntValuePrefix(SplitArg(a[i]).1, a, b, i, Validator(kind.value), MessageOf(kind.value));
    }
  }

  /** A successful parse of `a` ends exactly at its end, so more arguments continue from there. */
  lemma {:induction false} ParsePrefix(opts: map<string, OptionKind>, a: seq<string>, b: seq<string>, i: nat, o: Options)
    requires i <= |a| && ParseFrom(opts, a, i, o).Ok?
    ensures ParseFrom(opts, a + b, i, o) == ParseFrom(opts, a + b, |a|, ParseFrom(opts, a, i, o).value)
    decreases |a| - i
  {
    if i < |a| {
      var o', j := PrefixStepFacts(opts, a, b, i, o);
      ParsePrefix(opts, a, b, j + 1, o');
    }
  }

  /** One successful pass within `a`, taken on `a` and on `a + b` alike, with its result named. */
  lemma PrefixStepFacts(opts: map<string, OptionKind>, a: seq<string>, b: seq<string>, i: nat, o: Options) returns (o': Options, j: nat)
    requires i < |a| && ParseFrom(opts, a, i, o).Ok?
    ensures i <= j < |a|
    ensures ParseFrom(opts, a, i, o) == ParseFrom(opts, a, j + 1, o')
    ensures ParseFrom(opts, a + b, i, o) == ParseFrom(opts, a + b, j + 1, o')
  {
    ParseFromStep(opts, a, i, o);
    StepPrefix(opts, a, b, i, o);
    o', j := Step(opts, a, i, o).value.0, Step(opts, a, i, o).value.1;
  }

  lemma ParsedAppend(opts: map<string, OptionKind>, a: seq<string>, b: seq<string>)
    requires |a| >= 1 && ParsedWith(opts, a).Ok?
    ensures ParsedWith(opts, a + b) == ParseFrom(opts, a + b, |a|, ParsedWith(opts, a).value)
  {
    ParsePrefix(opts, a, b, 0, Defaults.(help := false));
  }

  /** An argument whose text before '=' is not an option is appended to the keys (only that text), nothing else changes. */
  lemma AppendKey(opts: map<string, OptionKind>, a: seq<string>, x: string)
    requires |a| >= 1 && ParsedWith(opts, a).Ok? && KindOf(opts, x).None?
    ensures var o := ParsedWith(opts, a).value;
      ParsedWith(opts, a + [x]) == Ok(o.(keys := o.keys + [SplitArg(x).0]))
  {
    ParsedAppend(opts, a, [x]);
    assert (a + [x])[|a|] == x;
  }

  /** A later mode, encoding, algorithm or help flag overrides whatever came before; the three unsupported options fail. */
  lemma AppendFlag(opts: map<string, OptionKind>, a: seq<string>, x: string)
    requires |a| >= 1 && ParsedWith(opts, a).Ok? && KindOf(opts, x).Some? && !IsValueKind(KindOf(opts, x).value)
    ensures var o, k, r := ParsedWith(opts, a).value, KindOf(opts, x).value, ParsedWith(opts, a + [x]);
      && (k == Help ==> r == Ok(o.(help := true)))
      && (k == HexKey ==> r == Ok(o.(base32 := false)))
      && (k == Base32Key ==> r == Ok(o.(base32 := true)))
      && (k == Hotp ==> r == Ok(o.(totp := false)))
      && (k == Totp ==> r == Ok(o.(totp := true)))
      && (k == HmacSha1 ==> r == Ok(o.(algorithm := Hmac.HmacSHA1)))
      && (k == HmacSha256 ==> r == Ok(o.(algorithm := Hmac.HmacSHA256)))
      && (k == HmacSha512 ==> r == Ok(o.(algorithm := Hmac.HmacSHA512)))
      && (k == Verbose || k == TimeNow || k == TimeStart ==> r == Err(UnsupportedOperation(NotImplemented)))
  {
    ParsedAppend(opts, a, [x]);
    assert (a + [x])[|a|] == x;
  }

  /** --verbose, --now and --start-time fail wherever they stand, the first argument included. */
  lemma AppendUnsupported(opts: map<string, OptionKind>, a: seq<string>, x: string)
    requires ParsedWith(opts, a).Ok? && KindOf(opts, x).Some?
    requires KindOf(opts, x).value in {Verbose, TimeNow, TimeStart}
    ensures ParsedWith(opts, a + [x]) == Err(UnsupportedOperation(NotImplemented))
  {
    if a == [] {
      assert a + [x] == [x];
      assert [x][0] == x;
    } else {
      ParsedAppend(opts, a, [x]);
      assert (a + [x])[|a|] == x;
    }
  }

  /**
   * What a value-taking option makes of its text: a number in its range (counter at least 0,
   * digits 6 to 8, timestep at least 1), a number outside it, or no number at all.
   */
  function ValueOf(k: OptionKind, text: string): Result<int, ParseError> {
    match ParseInt(text)
    case None => Err(NumberFormat(text))
    case Some(n) => if InRange(k, n) then Ok(n) else Err(IllegalArgument(MessageOf(k)))
  }

  /** The accepted range of each value-taking option. */
  predicate InRange(k: OptionKind, n: int) {
    match k
    case Counter => 0 <= n
    case Digits => 6 <= n <= 8
    case _ => 1 <= n
  }

  /** Each validator accepts exactly its option's range. */
  lemma ValidatorRange(k: OptionKind, n: int)
    requires IsValueKind(k)
    ensures Accepts(Validator(k), n) <==> InRange(k, n)
  {
  }

  function AfterValue(k: OptionKind, o: Options, text: string): Result<Options, ParseError> {
    match ValueOf(k, text)
    case Ok(n) => Ok(Assign(k, o, n))
    case Err(e) => Err(e)
  }

  /** getIntValue reading `text`, with a value-taking option's validator and message, is ValueOf. */
  lemma GetIntValueOf(equalsArg: Option<string>, args: seq<string>, i: nat, k: OptionKind, o: Options)
    requires i < |args| && IsValueKind(k)
    requires equalsArg.Some? || i + 1 < |args|
    ensures var text := if equalsArg.Some? then equalsArg.value else args[i + 1];
      var v := GetIntValue(equalsArg, args, i, Validator(k), MessageOf(k));
      (if v.Err? then Err(v.error) else Ok(Assign(k, o, v.value.0))) == AfterValue(k, o, text)
  {
    var text := if equalsArg.Some? then equalsArg.value else args[i + 1];
    GetIntValueIsValueOf(equalsArg, args, i, k, text);
  }

  /**
   * getIntValue fails with the option's message when there is no '=' and no next argument;
   * otherwise it reads `text`, the value after '=' or the next argument, as ValueOf does.
   */
  lemma GetIntValueIsValueOf(equalsArg: Option<string>, args: seq<string>, i: nat, k: OptionKind, text: string)
    requires i < |args| && IsValueKind(k)
    requires equalsArg.Some? ==> text == equalsArg.value
    requires equalsArg.None? && i + 1 < |args| ==> text == args[i + 1]
    ensures var v := GetIntValue(equalsArg, args, i, Validator(k), MessageOf(k));
      && (equalsArg.None? && i + 1 >= |args| ==> v == Err(IllegalArgument(MessageOf(k))))
      && (equalsArg.Some? || i + 1 < |args| ==>
        && (v.Err? <==> ValueOf(k, text).Err?)
        && (v.Err? ==> v.error == ValueOf(k, text).error)
        && (v.Ok? ==> v.value.0 == ValueOf(k, text).value))
  {
    var v := GetIntValue(equalsArg, args, i, Validator(k), MessageOf(k));
    if equalsArg.None? && i + 1 >= |args| {
    } else if ParseInt(text).None? {
      assert v == Err(NumberFormat(text));
      assert ValueOf(k, text) == Err(NumberFormat(text));
    } else {
      var n := ParseInt(text).value;
      ValidatorRange(k, n);
      if InRange(k, n) {
        assert v.Ok? && v.value.0 == n;
        assert ValueOf(k, text) == Ok(n);
      } else {
        assert v == Err(IllegalArgument(MessageOf(k)));
        assert ValueOf(k, text) == Err(IllegalArgument(MessageOf(k)));
      }
    }
  }

  /** A value-taking option without '=' consumes the next argument as its value, which never becomes a key. */
  lemma AppendValue(opts: map<string, OptionKind>, a: seq<string>, x: string, v: string)
    requires |a| >= 1 && ParsedWith(opts, a).Ok? && TakesNext(opts, x)
    ensures ParsedWith(opts, a + [x, v]) == AfterValue(KindOf(opts, x).value, ParsedWith(opts, a).value, v)
  {
    var args := a + [x, v];
    ParsedAppend(opts, a, [x, v]);
    assert args[|a|] == x && args[|a| + 1] == v;
    GetIntValueOf(None, args, |a|, KindOf(opts, x).value, ParsedWith(opts, a).value);
  }

  /** With '=' the value is the text after the first '=', and the next argument is left alone. */
  lemma AppendInlineValue(opts: map<string, OptionKind>, a: seq<string>, x: string)
    requires |a| >= 1 && ParsedWith(opts, a).Ok? && KindOf(opts, x).Some? && IsValueKind(KindOf(opts, x).value)
    requires SplitArg(x).1.Some?
    ensures ParsedWith(opts, a + [x]) == AfterValue(KindOf(opts, x).value, ParsedWith(opts, a).value, SplitArg(x).1.value)
  {
    var args := a + [x];
    ParsedAppend(opts, a, [x]);
    assert args[|a|] == x;
    GetIntValueOf(SplitArg(x).1, args, |a|, KindOf(opts, x).value, ParsedWith(opts, a).value);
  }

  /** A value-taking option last on the line, without '=', has no value to read. */
  lemma AppendMissingValue(opts: map<string, OptionKind>, a: seq<string>, x: string)
    requires ParsedWith(opts, a).Ok? && TakesNext(opts, x)
    ensures ParsedWith(opts, a + [x]) == Err(IllegalArgument(MessageOf(KindOf(opts, x).value)))
  {
    if a == [] {
      assert a + [x] == [x];
      assert [x][0] == x;
    } else {
      ParsedAppend(opts, a, [x]);
      assert (a + [x])[|a|] == x;
    }
  }

  /** The positions the loop visits from i on: a value-taking option without '=' makes it skip one. */
  function Heads(opts: map<string, OptionKind>, args: seq<string>, i: nat): (hs: seq<nat>)
    ensures forall k :: 0 <= k < |hs| ==> i <= hs[k] < |args|
    decreases |args| - i
  {
    if i >= |args| then [] else [i] + Heads(opts, args, if TakesNext(opts, args[i]) then i + 2 else i + 1)
  }

  /** The keys the visited positions contribute: the text before '=' of each argument that is no option. */
  function KeysAt(opts: map<string, OptionKind>, args: seq<string>, hs: seq<nat>): seq<string>
    requires forall k :: 0 <= k < |hs| ==> hs[k] < |args|
  {
    if hs == [] then []
    else KeyOf(opts, args[hs[0]]) + KeysAt(opts, args, hs[1..])
  }

  /** The loop visits i and then goes on one past the last position the pass at i used. */
  lemma HeadsStep(opts: map<string, OptionKind>, args: seq<string>, i: nat, j: nat)
    requires i < |args| && j == if TakesNext(opts, args[i]) then i + 1 else i
    ensures Heads(opts, args, i) == [i] + Heads(opts, args, j + 1)
  {
  }

  lemma KeysAtCons(opts: map<string, OptionKind>, args: seq<string>, i: nat, rest: seq<nat>)
    requires i < |args| && forall k :: 0 <= k < |rest| ==> rest[k] < |args|
    ensures KeysAt(opts, args, [i] + rest) == KeyOf(opts, args[i]) + KeysAt(opts, args, rest)
  {
    assert ([i] + rest)[1..] == rest;
  }

  lemma KeysAtHeads(opts: map<string, OptionKind>, args: seq<string>, i: nat, j: nat)
    requires i < |args| && j == if TakesNext(opts, args[i]) then i + 1 else i
    ensures KeysAt(opts, args, Heads(opts, args, i)) == KeyOf(opts, args[i]) + KeysAt(opts, args, Heads(opts, args, j + 1))
  {
    HeadsStep(opts, args, i, j);
    KeysAtCons(opts, args, i, Heads(opts, args, j + 1));
  }

  lemma ConcatStep<T>(a: seq<T>, b: seq<T>, head: seq<T>, rest: seq<T>, r: seq<T>)
    requires b == a + head && r == b + rest
    ensures r == a + (head + rest)
  {
  }

  /** The facts about one successful pass that the keys and help proofs need, with the pass's result named. */
  lemma StepFacts(opts: map<string, OptionKind>, args: seq<string>, i: nat, o: Options) returns (o': Options, j: nat)
    requires i < |args| && ParseFrom(opts, args, i, o).Ok?
    ensures j == if TakesNext(opts, args[i]) then i + 1 else i
    ensures o'.keys == o.keys + KeyOf(opts, args[i])
    ensures o'.help <==> o.help || KindOf(opts, args[i]) == Some(Help)
    ensures ParseFrom(opts, args, i, o) == ParseFrom(opts, args, j + 1, o')
  {
    ParseFromStep(opts, args, i, o);
    StepNext(opts, args, i, o);
    StepShape(opts, args, i, o);
    o', j := Step(opts, args, i, o).value.0, Step(opts, args, i, o).value.1;
  }

  lemma {:induction false} ParseFromKeys(opts: map<string, OptionKind>, args: seq<string>, i: nat, o: Options)
    requires ParseFrom(opts, args, i, o).Ok?
    ensures ParseFrom(opts, args, i, o).value.keys == o.keys + KeysAt(opts, args, Heads(opts, args, i))
    decreases |args| - i
  {
    if i < |args| {
      var o', j := StepFacts(opts, args, i, o);
      ParseFromKeys(opts, args, j + 1, o');
      KeysAtHeads(opts, args, i, j);
      ConcatStep(o.keys, o'.keys, KeyOf(opts, args[i]), KeysAt(opts, args, Heads(opts, args, j + 1)),
                 ParseFrom(opts, args, i, o).value.keys);
    }
  }

  /** Whether a --help or -h is among the positions the loop visits from i on. */
  predicate HelpAt(opts: map<string, OptionKind>, args: seq<string>, hs: seq<nat>)
    requires forall k :: 0 <= k < |hs| ==> hs[k] < |args|
  {
    exists k :: 0 <= k < |hs| && KindOf(opts, args[hs[k]]) == Some(Help)
  }

  lemma HelpAtCons(opts: map<string, OptionKind>, args: seq<string>, i: nat, rest: seq<nat>)
    requires i < |args| && forall k :: 0 <= k < |rest| ==> rest[k] < |args|
    ensures HelpAt(opts, args, [i] + rest) <==> KindOf(opts, args[i]) == Some(Help) || HelpAt(opts, args, rest)
  {
    var hs := [i] + rest;
    if KindOf(opts, args[i]) == Some(Help) {
      assert KindOf(opts, args[hs[0]]) == Some(Help);
    }
    if HelpAt(opts, args, rest) {
      var k :| 0 <= k < |rest| && KindOf(opts, args[rest[k]]) == Some(Help);
      assert hs[k + 1] == rest[k];
      assert KindOf(opts, args[hs[k + 1]]) == Some(Help);
    }
    if HelpAt(opts, args, hs) {
      var k :| 0 <= k < |hs| && KindOf(opts, args[hs[k]]) == Some(Help);
      if k > 0 {
        assert rest[k - 1] == hs[k];
        assert KindOf(opts, args[rest[k - 1]]) == Some(Help);
      }
    }
  }

  lemma HelpAtHeads(opts: map<string, OptionKind>, args: seq<string>, i: nat, j: nat)
    requires i < |args| && j == if TakesNext(opts, args[i]) then i + 1 else i
    ensures HelpAt(opts, args, Heads(opts, args, i)) <==>
      KindOf(opts, args[i]) == Some(Help) || HelpAt(opts, args, Heads(opts, args, j + 1))
  {
    HeadsStep(opts, args, i, j);
    HelpAtCons(opts, args, i, Heads(opts, args, j + 1));
  }

  lemma OrStep(before: bool, after: bool, here: bool, rest: bool, result: bool)
    requires after == (before || here) && result == (after || rest)
    ensures result == (before || (here || rest))
  {
  }

  lemma {:induction false} ParseFromHelp(opts: map<string, OptionKind>, args: seq<string>, i: nat, o: Options)
    requires ParseFrom(opts, args, i, o).Ok?
    ensures ParseFrom(opts, args, i, o).value.help <==> o.help || HelpAt(opts, args, Heads(opts, args, i))
    decreases |args| - i
  {
    if i < |args| {
      var o', j := StepFacts(opts, args, i, o);
      ParseFromHelp(opts, args, j + 1, o');
      HelpAtHeads(opts, args, i, j);
      OrStep(o.help, o'.help, KindOf(opts, args[i]) == Some(Help), HelpAt(opts, args, Heads(opts, args, j + 1)),
             ParseFrom(opts, args, i, o).value.help);
    }
  }

  /**
   * The keys are, in order, the arguments the loop visits that are no option, each cut at its
   * first '='; help is set exactly for an empty argument list or a visited --help or -h.
   */
  lemma ParsedShape(args: seq<string>)
    requires Parsed(args).Ok?
    ensures Parsed(args).value.keys == KeysAt(Opts, args, Heads(Opts, args, 0))
    ensures Parsed(args).value.help <==> |args| == 0 || HelpAt(Opts, args, Heads(Opts, args, 0))
  {
    ParseFromKeys(Opts, args, 0, Defaults.(help := |args| == 0));
    ParseFromHelp(Opts, args, 0, Defaults.(help := |args| == 0));
  }
}
