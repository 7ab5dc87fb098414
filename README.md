# totp4j in Dafny

A model of the one-time-password core of revelc/totp4j: HOTP (RFC 4226) and TOTP (RFC 6238,
section 4.2, with T0 = 0). It has three parts:

- the path from a Base32 key and a counter to the printed code: Base32 decoding, the 8-byte
  moving factor, the keyed MAC, dynamic truncation and the zero-padded decimal code;
- the command-line option parser that builds the configuration;
- the seconds-remaining arithmetic of the TOTP window generator.

The two generators are both modelled: the command-line `Otp` and the standalone
`net.revelc.code.totp4j.Totp`, which keeps its own, older copy of the Base32 decoder.

Modules, in dependency order:

| module | file | what it holds |
|---|---|---|
| `Wrappers` | wrappers.dfy | `Option` and `Result`, standing in for Java's null returns and exceptions |
| `JavaNum` | java_num.dfy | Java's truncating `/` and `%`, `int`/`long` wrap-around, `shiftRight`, bitwise `or` and `and` on non-negative numbers |
| `ByteSeq` | byte_seq.dfy | bytes, big-endian encodings, `BigInteger.toByteArray`, `new BigInteger(byte[])`, `System.arraycopy` |
| `Decimal` | decimal.dfy | decimal text, the `%0Nd` format, `Integer.parseInt` |
| `Hmac` | hmac.dfy | the MAC as a function parameter that knows only its output length |
| `Options` | options.dfy | the option table, the defaults, the parse loop, `getIntValue`, `withKeys` |
| `Base32` | base32.dfy | `Base32.decode`, its alphabet map, and a reference RFC 4648 encoder for the round trip |
| `Hotp` | hotp.dfy | the counter buffer, dynamic truncation, the code, and the RFC 4226 test vectors |
| `Otp` | otp.dfy | `Otp.generate` and `getCounter` |
| `TotpGenerator` | totp_generator.dfy | `totpOptions`, the `Totp` value and `generateTotp` |
| `Totp4j` | totp4j.dfy | the standalone generator and its `decodeBase32` |

Code that changes state step by step is written as methods over arrays and locals:

- the decoding loops, the counter buffers and the truncation window;
- the static blocks that fill the option table and the alphabet map;
- the constructor's parse loop.

Each method is proved equal to a specification function. The properties are proved about
those functions.

Three modelling choices:

- A byte is held as the unsigned value 0..255 of Java's signed byte.
- The MAC and the clock are parameters.
- An exception that ends a parse is an `Err` value.

When no character is a Base32 character, `Base32.decode` returns a single zero byte, not an
empty array: numBitsInLastChar is 13, the overshoot is -8 and numBytes is 1. This is
Base32.java:46-61, and the model follows it (`Base32.DecodeNoCharacters`).

## Model

| member | source | states |
|---|---|---|
| Base32.AlphabetChars | src/main/java/net/revelc/code/otp/Base32.java:22 | the alphabet is the 32 characters A-Z then 2-7, in that order |
| Base32.BitValueIsAlphabetIndex | src/main/java/net/revelc/code/otp/Base32.java:22-29 | a character has a bit value exactly when it is in the alphabet, and the value is its index there |
| Base32.BuildBitValues | src/main/java/net/revelc/code/otp/Base32.java:25-30 | the static block's loop fills the map with exactly the alphabet characters, each mapped to its index |
| Base32.Letter | src/main/java/net/revelc/code/otp/Base32.java:22 | the character for a 5-bit value reads back as that value and is already upper case |
| Base32.ValuesBound | src/main/java/net/revelc/code/otp/Base32.java:37-43 | every recognised character contributes one value below 32, and none is added for other characters |
| Base32.OrIsAccumulated | src/main/java/net/revelc/code/otp/Base32.java:41 | shiftLeft(5).or(v) appends v as the next 5 bits of the accumulator |
| Base32.NumBytes | src/main/java/net/revelc/code/otp/Base32.java:46-56 | the division by 8 is exact, and numBytes is 5(n-1) div 8 + 1 for n recognised characters, 1 for none |
| Base32.OvershootTable | src/main/java/net/revelc/code/otp/Base32.java:46-51 | the overshoot for each n mod 8: in [0,4] for n mod 8 in {0,2,4,5,7}, negative for {1,3,6}; 13 bits and overshoot -8 for n = 0 |
| Base32.ShiftedIsStreamPrefix | src/main/java/net/revelc/code/otp/Base32.java:50-51 | the shifted accumulator is the first 8·numBytes bits of the 5-bit stream, so it fits in numBytes bytes |
| Base32.PadOrTruncate | src/main/java/net/revelc/code/otp/Base32.java:57-68 | a short result is copied behind zero bytes, a long one keeps its last numBytes bytes, an exact one is returned as is |
| Base32.PaddedIsDecoded | src/main/java/net/revelc/code/otp/Base32.java:53-68 | both branches of the pad/truncate step give the numBytes-byte big-endian encoding of the shifted accumulator |
| Base32.Decode | src/main/java/net/revelc/code/otp/Base32.java:32-69 | decode returns exactly the numBytes-byte big-endian encoding of the stream prefix of the recognised characters' values |
| Base32.DecodedValue | src/main/java/net/revelc/code/otp/Base32.java:53-68 | the result has exactly numBytes bytes, and its big-endian value is the shifted accumulator |
| Base32.DecodeNoCharacters | src/main/java/net/revelc/code/otp/Base32.java:46-61 | with no recognised character the result is the single byte 0 |
| Base32.DecodeEightCharacters | src/main/java/net/revelc/code/otp/Base32.java:44-57 | eight recognised characters decode to the 5 bytes that hold their 40 bits in order |
| Base32.SeparatorIgnored | src/main/java/net/revelc/code/otp/Base32.java:37-43 | inserting any character that is not Base32 after upper-casing leaves the result unchanged |
| Base32.CaseInsensitive | src/main/java/net/revelc/code/otp/Base32.java:33 | lower-case input decodes like its upper-case form |
| Base32.ValuesOfChars | src/main/java/net/revelc/code/otp/Base32.java:22-29 | each encoded character is recognised, with the value it was produced from |
| Base32.NumBytesOfEncodedLength | src/main/java/net/revelc/code/otp/Base32.java:56 | for an RFC 4648 encoding of m >= 1 bytes, numBytes is m |
| Base32.RoundTrip | src/main/java/net/revelc/code/otp/Base32.java:32-69 | decoding the RFC 4648 section 6 encoding of any non-empty byte string gives it back; the empty string decodes to [0] |
| ByteSeq.ToByteArrayShape | src/main/java/net/revelc/code/otp/Base32.java:53 | for 0 <= v < 2^(8k), toByteArray is at most k+1 bytes; it is k+1 bytes, a 0x00 sign byte before the k-byte encoding, exactly when that encoding's top bit is set; otherwise, left-padded to k, it is the k-byte encoding |
| ByteSeq.ToByteArrayInverse | src/main/java/net/revelc/code/otp/Base32.java:53 | new BigInteger(toByteArray(v)) is v for every integer v |
| ByteSeq.TwosLengthAtMost | src/main/java/net/revelc/code/otp/Base32.java:53 | toByteArray uses the fewest bytes whose two's-complement range holds the value |
| ByteSeq.ArrayCopy | src/main/java/net/revelc/code/otp/Base32.java:60 | System.arraycopy replaces exactly the target range with the source range and keeps the rest |
| JavaNum.JavaRem | src/main/java/net/revelc/code/otp/Base32.java:46 | Java's `%`: the remainder is smaller in size than the divisor and has the dividend's sign |
| JavaNum.JavaDiv | src/main/java/net/revelc/code/otp/Otp.java:55 | Java's `/`: the quotient is rounded toward zero |
| JavaNum.Int32 | src/main/java/net/revelc/code/otp/totp/TotpGenerator.java:42-46 | an int result is in the 32-bit range, congruent to the exact value mod 2^32, and exact when that fits |
| JavaNum.Int64 | src/main/java/net/revelc/code/otp/totp/TotpGenerator.java:44-46 | a long result is in the 64-bit range, congruent mod 2^64, and exact when that fits |
| JavaNum.BitAndLowMask | src/main/java/net/revelc/code/otp/Otp.java:42-44 | `& (2^k - 1)` keeps the value mod 2^k, which gives `& 0x0F` and `& 0x7f` |
| Decimal.FormatZeroPaddedShape | src/main/java/net/revelc/code/otp/Otp.java:48 | `%0Nd` of a value below 10^N has exactly N characters, all digits, and reads back as the value |
| Decimal.FormatZeroPaddedWide | src/main/java/net/revelc/code/otp/Otp.java:48 | a value too wide for the field is printed in full |
| Decimal.ParseIntOfToDecimal | src/main/java/net/revelc/code/otp/Options.java:184 | parseInt reads back every non-negative int printed in decimal |
| Decimal.ParseIntOfNegative | src/main/java/net/revelc/code/otp/Options.java:184 | parseInt reads back every negative int printed with its minus sign |
| Decimal.ParseIntAccepts | src/main/java/net/revelc/code/otp/Options.java:184 | whatever parseInt accepts is an optional sign and then digits, and the value is their value with the sign applied |
| Decimal.ParseIntRejects | src/main/java/net/revelc/code/otp/Options.java:184 | the empty string, a lone sign and any character other than a digit are rejected |
| Decimal.ParseIntOutOfRange | src/main/java/net/revelc/code/otp/Options.java:184 | a magnitude outside the int range is rejected, with either sign |
| Options.BuildOpts | src/main/java/net/revelc/code/otp/Options.java:70-92 | the static block's loop computes the table of the constants in declaration order, or the IllegalStateException for a repeated spelling |
| Options.StaticBlock | src/main/java/net/revelc/code/otp/Options.java:70-92 | the static block succeeds, and the table it builds is the 23 spellings of the 14 constants |
| Options.OptsSpellings | src/main/java/net/revelc/code/otp/Options.java:27-40 | a string maps to a constant exactly when it is that constant's `--long` or `-short` spelling |
| Options.OptsHasSpellings | src/main/java/net/revelc/code/otp/Options.java:70-92 | every constant is registered under `--` plus its long name, and under `-` plus its short name when it has one |
| Options.IndexOfEqualsFirst | src/main/java/net/revelc/code/otp/Options.java:115 | the split position is the first '=' |
| Options.SplitArgParts | src/main/java/net/revelc/code/otp/Options.java:115-117 | split("=", 2): the name has no '=', and the argument is name + "=" + value when there is a value, or the name alone |
| Options.GetIntValue | src/main/java/net/revelc/code/otp/Options.java:174-189 | on success the index moves on only when the value came from the next argument, and the number passes the validator and is an int |
| Options.GetIntValueIsValueOf | src/main/java/net/revelc/code/otp/Options.java:174-189 | getIntValue fails with a NumberFormatException carrying the text when the value text is not an int, and with the option's IllegalArgumentException when the number is out of the option's range or the value is missing |
| Options.ValidatorRange | src/main/java/net/revelc/code/otp/Options.java:127-158 | the validators accept digits 6 to 8, a counter >= 0 and a timestep > 0, and nothing else |
| Options.RunCase | src/main/java/net/revelc/code/otp/Options.java:122-166 | each case of the switch computes the specified step: a field set, a value read, or an exception |
| Options.Construct | src/main/java/net/revelc/code/otp/Options.java:111-172 | the constructor's loop computes the specified parse, for any table it reads |
| Options.Parse | src/main/java/net/revelc/code/otp/Options.java:196-198 | parse runs the constructor on the static table |
| Options.ParseEmpty | src/main/java/net/revelc/code/otp/Options.java:98-113 | no arguments give the field defaults with help set |
| Options.ParsedValid | src/main/java/net/revelc/code/otp/Options.java:127-158 | every parsed configuration has digits 6 to 8, a non-negative counter and a positive timestep |
| Options.StepNext | src/main/java/net/revelc/code/otp/Options.java:177-180 | a pass consumes the next argument exactly when the current one is a value-taking option without '=' |
| Options.StepShape | src/main/java/net/revelc/code/otp/Options.java:118-136 | a pass appends only an unrecognised argument's text before '=' to the keys, and sets help only for --help or -h |
| Options.ParsedAppend | src/main/java/net/revelc/code/otp/Options.java:114 | parsing more arguments continues from the state the earlier ones left |
| Options.AppendKey | src/main/java/net/revelc/code/otp/Options.java:118-120 | an unrecognised argument adds its text before '=' to the keys and changes nothing else |
| Options.AppendFlag | src/main/java/net/revelc/code/otp/Options.java:122-166 | each flag overwrites exactly its own field, so the last one wins; --verbose, --now and --start-time raise UnsupportedOperationException |
| Options.AppendUnsupported | src/main/java/net/revelc/code/otp/Options.java:152-164 | --verbose, --now and --start-time raise UnsupportedOperationException in any position, the first included |
| Options.AppendValue | src/main/java/net/revelc/code/otp/Options.java:179-180 | a value-taking option without '=' reads the following argument, which is consumed and is not a key |
| Options.AppendInlineValue | src/main/java/net/revelc/code/otp/Options.java:177-178 | a value-taking option with '=' reads the text after it |
| Options.AppendMissingValue | src/main/java/net/revelc/code/otp/Options.java:181-183 | a value-taking option in last place without '=', the only argument included, raises the option's IllegalArgumentException |
| Options.ParseFromKeys | src/main/java/net/revelc/code/otp/Options.java:114-120 | the keys are, in order, the visited arguments that are not options, each cut at its first '=' |
| Options.ParseFromHelp | src/main/java/net/revelc/code/otp/Options.java:113-136 | help ends up true exactly when it started true or a visited argument is --help or -h |
| Options.ParsedShape | src/main/java/net/revelc/code/otp/Options.java:113-136 | for the whole parse: the keys are the visited non-options, and help holds exactly for no arguments or a visited --help/-h |
| Options.WithKeys | src/main/java/net/revelc/code/otp/Options.java:206-216 | the copy has the one given key and help false, and the other six settings unchanged |
| Hotp.MovingFactor | src/main/java/net/revelc/code/otp/Otp.java:52-60 | the counter buffer is always 8 bytes |
| Hotp.CounterFits | src/main/java/net/revelc/code/otp/Otp.java:56-58 | toByteArray of a long is at most 8 bytes, so the copy into the buffer is in range |
| Hotp.CounterBuffer | src/main/java/net/revelc/code/otp/Otp.java:52-60 | the arraycopy into a new 8-byte array gives toByteArray right-aligned behind zero bytes |
| Hotp.MovingFactorBigEndian | src/main/java/net/revelc/code/otp/Otp.java:52-60 | for 0 <= counter < 2^63 the buffer is the 8-byte big-endian encoding and reads back as the counter |
| Hotp.MovingFactorOneByte | src/main/java/net/revelc/code/otp/Otp.java:56-58 | a counter below 256 fills only the last byte |
| Hotp.MovingFactorNegative | src/main/java/net/revelc/code/otp/Otp.java:54-58 | a small negative counter is not sign-extended: -1 becomes 00 .. 00 FF |
| Hotp.LowNibble | src/main/java/net/revelc/code/otp/Otp.java:42 | `b & 0x0F` on the sign-extended byte is the byte mod 16 |
| Hotp.ClearSign | src/main/java/net/revelc/code/otp/Otp.java:44 | `result[0] &= 0x7f` leaves the byte mod 128 |
| Hotp.CopyOfRange | src/main/java/net/revelc/code/otp/Otp.java:43 | copyOfRange gives the bytes of the range, with zeros past the end |
| Hotp.Offset | src/main/java/net/revelc/code/otp/Otp.java:42 | the offset is in [0,15] |
| Hotp.TruncatedValue | src/main/java/net/revelc/code/otp/Otp.java:42-45 | the sign-cleared window is below 2^31 |
| Hotp.TruncatableDigests | src/main/java/net/revelc/code/otp/Otp.java:42-45 | for any MAC of at least 20 bytes the window lies inside it, and the value is its 4 bytes read big-endian with the top bit cleared |
| Hotp.TruncatedInside | src/main/java/net/revelc/code/otp/Otp.java:42-45 | the same value spelled out as (b0 mod 128)·2^24 + b1·2^16 + b2·2^8 + b3 |
| Hotp.DynamicTruncate | src/main/java/net/revelc/code/otp/Otp.java:42-45 | the in-place masking of the copied window computes the truncated value |
| Hotp.CodeShape | src/main/java/net/revelc/code/otp/Otp.java:47-48 | the code has exactly `digits` decimal characters and denotes the value mod 10^digits |
| Hotp.Section54Example | src/main/java/net/revelc/code/otp/Otp.java:42-48 | the RFC 4226 section 5.4 MAC has offset 10, the value 0x50ef7f19 and the code 872921 |
| Hotp.AppendixDVector | src/main/java/net/revelc/code/otp/Otp.java:42-48 | for each of the ten RFC 4226 appendix D MACs, truncation gives the published value and 6-digit code |
| Hotp.AppendixD | src/main/java/net/revelc/code/otp/Otp.java:38-50 | with a MAC that returns the appendix D HMAC-SHA-1 values, counters 0 to 9 give the ten published codes |
| Otp.CounterValue | src/main/java/net/revelc/code/otp/Otp.java:53-56 | the TOTP counter (epoch second over the time step) or the configured counter is a long |
| Otp.GetCounter | src/main/java/net/revelc/code/otp/Otp.java:52-60 | getCounter returns the 8-byte buffer of that counter |
| Otp.TotpCounter | src/main/java/net/revelc/code/otp/Otp.java:55 | from 1970 on, the TOTP counter is the number of whole time steps elapsed |
| Otp.KeyCodeOf | src/main/java/net/revelc/code/otp/Otp.java:41-48 | each key's line is the truncated MAC of its Base32-decoded bytes and the buffer, formatted to `digits` |
| Otp.Generate | src/main/java/net/revelc/code/otp/Otp.java:38-50 | the loop prints one line per key, in order, all with the one counter computed before it |
| Otp.GenerateKey | src/main/java/net/revelc/code/otp/Otp.java:41-48 | one pass of the loop prints the code of the MAC of the counter buffer keyed with Base32.decode's bytes |
| Otp.CodesShape | src/main/java/net/revelc/code/otp/Otp.java:38-50 | each line has `digits` decimal characters and denotes the truncated MAC mod 10^digits |
| Otp.SameStepSameCodes | src/main/java/net/revelc/code/otp/Otp.java:39-41 | within one time step TOTP mode prints the same lines; HOTP mode does not depend on the clock |
| Otp.CodesOfKeys | src/main/java/net/revelc/code/otp/Otp.java:40-49 | each line depends on its key alone: the lines for a + b are the lines for a, then those for b |
| Otp.WithKeysCode | src/main/java/net/revelc/code/otp/Options.java:206-216 | the configuration withKeys makes for the k-th key prints exactly that key's line |
| Otp.KeyNeverEmpty | src/main/java/net/revelc/code/otp/Otp.java:65 | the decoded key is never empty, so SecretKeySpec accepts it |
| TotpGenerator.NewGenerator | src/main/java/net/revelc/code/otp/totp/TotpGenerator.java:30-33 | a generator that is built keeps its key |
| TotpGenerator.TotpOptionsValue | src/main/java/net/revelc/code/otp/totp/TotpGenerator.java:35-37 | totpOptions parses to TOTP mode, 6 digits, HmacSHA1, a 30-second step and no keys |
| TotpGenerator.NewGeneratorValue | src/main/java/net/revelc/code/otp/totp/TotpGenerator.java:30-37 | building a generator never fails and gives those options with the key |
| TotpGenerator.GenerateTotp | src/main/java/net/revelc/code/otp/totp/TotpGenerator.java:39-48 | the Totp value carries the inherited code for the counter, unchanged, and an int number of seconds |
| TotpGenerator.WrappedRemainingExact | src/main/java/net/revelc/code/otp/totp/TotpGenerator.java:42-46 | every wrap-around keeps the value mod 2^32, so a difference that fits an int comes out exact |
| TotpGenerator.SecondsRemainingExact | src/main/java/net/revelc/code/otp/totp/TotpGenerator.java:41-46 | secondsRemaining is (counter + 1)·30 - now with two separate clock readings, whenever that fits an int |
| TotpGenerator.SecondsRemaining | src/main/java/net/revelc/code/otp/totp/TotpGenerator.java:41-46 | with one reading, secondsRemaining is 30 - now mod 30: in [1,30], and 30 exactly at a step boundary |
| TotpGenerator.SecondsRemainingTick | src/main/java/net/revelc/code/otp/totp/TotpGenerator.java:44-46 | one second later the count drops by one within a step, and starts again at 30 at the next step |
| TotpGenerator.NextSecondsWraps | src/main/java/net/revelc/code/otp/totp/TotpGenerator.java:42-46 | after 2038 `(counter + 1) * 30` wraps to a negative int, yet secondsRemaining still comes out right |
| Totp4j.HmacSha1Name | src/main/java/net/revelc/code/totp4j/Totp.java:70-74 | the standalone generator asks for HmacSHA1 |
| Totp4j.DecodeBase32 | src/main/java/net/revelc/code/totp4j/Totp.java:91-113 | the shiftLeft(5).add loop, the overshoot and the pad-only step compute the specified decodeBase32 |
| Totp4j.PadOnly | src/main/java/net/revelc/code/totp4j/Totp.java:107-112 | a short result is copied behind zero bytes, any other is returned whole |
| Totp4j.DecodedBase32Shape | src/main/java/net/revelc/code/totp4j/Totp.java:102-112 | decodeBase32 equals Base32.decode, except that it puts an extra 0x00 in front when the first decoded byte has its top bit set |
| Totp4j.DecodedBase32Value | src/main/java/net/revelc/code/totp4j/Totp.java:102-112 | both decoders give the same big-endian value |
| Totp4j.LeadingZeroByte | src/main/java/net/revelc/code/totp4j/Totp.java:106-112 | "QAAAAAAA" decodes to 80 00 00 00 00 with Base32.decode and to 00 80 00 00 00 00 with decodeBase32 |
| Totp4j.RoundTripFails | src/main/java/net/revelc/code/totp4j/Totp.java:106-112 | for every byte string whose first byte has its top bit set, decodeBase32 of its encoding has one leading zero byte too many |
| Totp4j.RoundTripHolds | src/main/java/net/revelc/code/totp4j/Totp.java:106-112 | for every other non-empty byte string the decodeBase32 round trip holds |
| Totp4j.Intervals | src/main/java/net/revelc/code/totp4j/Totp.java:63 | the interval count is a long |
| Totp4j.GetMovingFactor | src/main/java/net/revelc/code/totp4j/Totp.java:62-68 | getMovingFactor returns the 8-byte buffer of the interval count |
| Totp4j.IntervalsSinceEpoch | src/main/java/net/revelc/code/totp4j/Totp.java:62-68 | from 1970 on, the count is the epoch millisecond over 30000, Otp's default TOTP counter, and the buffer is its 8-byte big-endian encoding |
| Totp4j.PrintOtpShape | src/main/java/net/revelc/code/totp4j/Totp.java:57-60 | the printed text is a carriage return, the `digits`-digit code of the value mod 10^digits, then " <---" |
| Totp4j.Generate | src/main/java/net/revelc/code/totp4j/Totp.java:47-55 | generate prints the six-digit code of the truncated HmacSHA1, keyed with decodeBase32's bytes, of the moving factor |
| Totp4j.GenerateCorrected | src/main/java/net/revelc/code/totp4j/Totp.java:47-55 | the same generator with the key decoded by Base32.decode (not in the source) prints the code of the MAC keyed with those bytes |
| Totp4j.GenerateKey | src/main/java/net/revelc/code/totp4j/Totp.java:49 | generate's MAC key is Base32.decode's bytes when their first byte is below 0x80, and otherwise a different key: those bytes behind an extra 0x00 |
| Totp4j.AgreesWithOtp | src/main/java/net/revelc/code/totp4j/Totp.java:47-68 | from 1970 on, for every key whose decoded first byte is below 0x80, the standalone generator prints the code Otp prints for the same key in TOTP mode with the defaults |
| Totp4j.CorrectedAgreesWithOtp | src/main/java/net/revelc/code/totp4j/Totp.java:47-68 | with the corrected decoder, that agreement holds for every key |

## Left out

- TotpUi.java: Swing UI, the repaint timer and `double` progress-bar arithmetic.
- UnsecurePersitentTotpKey.java and TotpKey.java: file I/O, plus an interface with no logic.
- The HMAC: `Mac.getInstance`, `init` and `doFinal` are a function parameter. The model knows only that its output is 20, 32 or 64 bytes for SHA-1, SHA-256 or SHA-512. The AssertionError wrapping is not modelled.
- The clock: `Instant.now` becomes a parameter. `generateTotp` reads the clock twice, so it takes two parameters.
- `Totp.main`: not modelled. It holds the argument-count check, `System.exit` and the scheduled executor that repeats `generate` every two seconds (concurrency and process control).
- `Otp.main` and `Otp(Options)`: not modelled on their own. `Otp.Run` composes parse and generate.
- Printed output: lines are returned as strings, with no output stream. The platform line separator of `%n` is not modelled.
- `doHelp`: not modelled, since it only prints.
- `toUpperCase`: ASCII only. Locale rules and characters whose upper case has a different length are not modelled.
- Decimal.FormatZeroPadded: the digits are always ASCII '0' to '9', as `%0Nd` prints them in a format locale whose zero digit is '0'. `printf` localises digits from the default format locale's zero digit, so a locale with native digits prints other characters; that is not modelled.
- `Integer.parseInt`: ASCII digits with an optional sign. Non-ASCII Unicode digits are not modelled.
- `Math.pow(10, digits)` is exact integer 10^digits. This is exact for the digits the validator admits.
- `Options.getKeys` and the other getters: modelled as field reads of the `Options` datatype.
- The null check of `args` is not modelled: a Dafny sequence is never null.
- The `Options()` copy constructor has no logic of its own. `withKeys` models the copy.
- The base32/hex setting: it is parsed and copied but never read. `Otp.generate` decodes every key as Base32.
- `generateOtp` and `getCounter` as TotpGenerator calls them do not match the `Otp` class shown. That `getCounter` is private and returns `byte[]`, and `generateOtp` does not exist there. So the generator takes `generateOtp` as a function parameter, and its counter is `Otp.CounterValue`: the epoch second over the parsed time step.
- `Totp4j.GenerateCorrected` is not in the source: it is the standalone generator with the decoder the rest of the program uses, and `Totp4j.Generate` models the source as written.
- Base32.NumBytes: the character count `numEncodedChars` is a Java `int`, and `5 * (numEncodedChars - 1)` and `numEncodedChars * 5` wrap once a key has more than 429,496,729 recognised characters. The model counts with an unbounded `nat`, so it assumes keys shorter than 2^31/5 recognised characters. The same holds for `Totp4j.DecodeBase32`.
- `BigInteger.longValueExact` never throws, because the window is below 2^31. `DynamicTruncate` returns that value directly.

## Findings

| source | as written | input that shows it | evidently intended | confidence | as-written member | corrected member |
|---|---|---|---|---|---|---|
| src/main/java/net/revelc/code/totp4j/Totp.java:106-112 | `decodeBase32` pads a short `toByteArray` result but has no branch that drops the sign byte `toByteArray` adds when the top bit is set | "QAAAAAAA", the encoding of 80 00 00 00 00, decodes to the six bytes 00 80 00 00 00 00, so the HMAC is keyed with a different key | exactly numBytes bytes, as `Base32.decode` returns them with its truncation branch (Base32.java:63-67); `Totp4j.GenerateCorrected` is the standalone generator with that decoder, and `Totp4j.GenerateKey` states which key the as-written one uses instead | high (proved, not executed) | Totp4j.RoundTripFails | Base32.RoundTrip |
