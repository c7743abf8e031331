# notchity version handling, modelled in Dafny

notchity is a small Java library that tells a Bukkit plugin which server
version it runs on. This project models its core in Dafny and proves
properties of that model:

- `VersionParser` turns `"major.minor[.patch]"` into one `int`,
  `major * 1_000_000 + minor * 1_000 + patch`. Every component must lie in
  [0, 999], and everything from the first `-` in the patch is dropped.
- `Version` is an immutable, ordered wrapper around a non-negative `int`.
- The `Release` enum lists the known internal server releases. Each has a
  small ordinal, and the table is bracketed by the `LATER` and `OLDER`
  sentinels.
- `VersionFactory` has the older encoding `major * 10000 + minor * 100 +
  patch`, which has no range check, and a case-insensitive release lookup.
- `MinecraftVersionFactory` reads the version from the host version string
  and the revision from the server package name (`v1_8_R3` gives 1.8.3).

Modules, one per file:

| file | module | models |
|---|---|---|
| `java_lang.dfy` | `JavaLang` | `int` range and wrap-around, `null`, the exceptions the code throws or lets escape, and a `Result` type that carries them |
| `java_strings.dfy` | `JavaStrings` | `String.indexOf`, `String.split` with a one-character pattern, `Integer.parseInt`, and `equalsIgnoreCase` |
| `version.dfy` | `Versions` | `Version` |
| `version_parser.dfy` | `VersionParser` | `VersionParser` |
| `release.dfy` | `Releases` | `Release` |
| `version_factory.dfy` | `VersionFactory` | `VersionFactory.parseVersion`, `getBukkitVersion` and `getReleaseVersion` |
| `minecraft_version_factory.dfy` | `MinecraftVersionFactory` | `createMinecraftVersion` and `createMinecraftRevision` |

How Java concepts are represented:

- A thrown exception is an `Err` value, and a `null` reference is `Null`.
- `IllegalArgumentException` carries a reason that stands for its message.
  Its cause is `Null`, or `Ref(NumberFormat)` when it wraps a
  `NumberFormatException`.
- The host strings become parameters. These are `Bukkit.getBukkitVersion()`,
  the server class's package name, and the tag `getRelease()` cuts from
  that name.
- `String.split` is modelled exactly for a single literal separator:
  - a string without the separator gives itself;
  - otherwise trailing empty pieces are removed, so `"1.2."` has two pieces
    and `"."` has none.

## Model

| member | source | states |
|---|---|---|
| JavaLang.Wrap32 | src/main/java/me/kvdpxne/notchity/VersionFactory.java:78 | The result is the only `int` congruent to the exact value modulo 2^32, as Java's `int` arithmetic gives; a value already in range is unchanged |
| JavaLang.Wrap32Overflow | src/main/java/me/kvdpxne/notchity/VersionFactory.java:78 | A value just past `Integer.MAX_VALUE` lands exactly 2^32 lower, in the negative range |
| JavaLang.Wrap32SecondTurn | src/main/java/me/kvdpxne/notchity/VersionFactory.java:78 | A value from 2^32 to 2^32 + `Integer.MAX_VALUE` lands exactly 2^32 lower, back in the non-negative range |
| JavaLang.Wrap32Underflow | src/main/java/me/kvdpxne/notchity/VersionFactory.java:78 | A value from -2^32 to just below `Integer.MIN_VALUE` lands exactly 2^32 higher, in the non-negative range |
| JavaStrings.IndexOf | core/src/main/java/me/kvdpxne/notchity/VersionParser.java:122 | `indexOf` is -1 exactly when the character is absent; otherwise it names an occurrence with none before it |
| JavaStrings.Split | core/src/main/java/me/kvdpxne/notchity/VersionParser.java:93 | No piece holds the separator; a string without the separator is its own single piece; otherwise the last piece, if any, is non-empty (trailing empties are removed) |
| JavaStrings.JoinFields | core/src/main/java/me/kvdpxne/notchity/VersionParser.java:93 | Joining the pieces cut at every separator, with that separator, gives back the string |
| JavaStrings.FieldsJoin | core/src/main/java/me/kvdpxne/notchity/VersionParser.java:93 | Cutting a join of separator-free pieces gives back those pieces |
| JavaStrings.SplitJoin | core/src/main/java/me/kvdpxne/notchity/VersionParser.java:93 | `split` undoes `join` for separator-free pieces whose last piece is not an empty one it would drop |
| JavaStrings.SplitJoinThen | core/src/main/java/me/kvdpxne/notchity/VersionParser.java:93 | The pieces before a further separator survive `split` unchanged, whatever follows |
| JavaStrings.ParseInt | core/src/main/java/me/kvdpxne/notchity/VersionParser.java:102 | `Integer.parseInt` succeeds only on an optional sign followed by at least one digit, fails only with `NumberFormatException`, and gives a negative value only after a leading `-` |
| JavaStrings.ParseIntMeaning | core/src/main/java/me/kvdpxne/notchity/VersionParser.java:102 | `Integer.parseInt` succeeds exactly when the text is a numeral whose signed decimal value fits an `int`, and then returns that value |
| JavaStrings.ParseIntExamples | core/src/main/java/me/kvdpxne/notchity/VersionParser.java:102 | `"+5"` reads as 5, `"007"` as 7 and `"-0"` as 0; a bare sign and a trailing `-` are format errors |
| JavaStrings.ParseIntShowInt | core/src/main/java/me/kvdpxne/notchity/VersionParser.java:102 | Every `int` written in decimal reads back as itself |
| JavaStrings.EqualsIgnoreCase | src/main/java/me/kvdpxne/notchity/VersionFactory.java:128 | Equal strings always match ignoring case, and strings that match have the same length |
| JavaStrings.EqualsIgnoreCaseIsUpperEquality | src/main/java/me/kvdpxne/notchity/VersionFactory.java:128 | Two strings match ignoring case exactly when their upper-case forms are equal |
| JavaStrings.EqualsIgnoreCaseOfUpper | src/main/java/me/kvdpxne/notchity/VersionFactory.java:128 | Between strings without lower-case letters, equality ignoring case is plain equality |
| JavaStrings.EqualsIgnoreCaseIsEquivalence | src/main/java/me/kvdpxne/notchity/VersionFactory.java:128 | `equalsIgnoreCase` is reflexive, symmetric and transitive |
| Versions.NewVersion | src/main/java/me/kvdpxne/notchity/Version.java:31-36 | Construction succeeds exactly for a non-negative value, and `getNumber` then returns that value; a negative value throws `IllegalArgumentException` without a cause |
| Versions.Version.IsLaterThan | src/main/java/me/kvdpxne/notchity/Version.java:45-47 | Every version is later than a negative number; against a non-negative number it is a positive `compareTo` with the version of that number |
| Versions.Version.IsLaterThanVersion | src/main/java/me/kvdpxne/notchity/Version.java:57-59 | False for `null`; otherwise a positive `compareTo` |
| Versions.Version.IsLaterThanOrEqual | src/main/java/me/kvdpxne/notchity/Version.java:68-70 | Every version is at least zero; against a non-negative number it is a non-negative `compareTo` |
| Versions.Version.IsLaterThanOrEqualVersion | src/main/java/me/kvdpxne/notchity/Version.java:80-82 | False for `null`; otherwise a non-negative `compareTo` |
| Versions.Version.IsEqual | src/main/java/me/kvdpxne/notchity/Version.java:91-93 | Never equal to a negative number; equal to a non-negative number exactly when that number's version is this one |
| Versions.Version.IsEqualVersion | src/main/java/me/kvdpxne/notchity/Version.java:102-104 | True exactly for a reference to an equal version |
| Versions.Version.IsOlderThan | src/main/java/me/kvdpxne/notchity/Version.java:113-115 | No version is older than zero or a negative number; against a non-negative number it is a negative `compareTo` |
| Versions.Version.IsOlderThanVersion | src/main/java/me/kvdpxne/notchity/Version.java:125-127 | False for `null`; otherwise a negative `compareTo` |
| Versions.Version.IsOlderThanOrEqual | src/main/java/me/kvdpxne/notchity/Version.java:136-138 | No version is at most a negative number; against a non-negative number it is a non-positive `compareTo` |
| Versions.Version.IsOlderThanOrEqualVersion | src/main/java/me/kvdpxne/notchity/Version.java:148-150 | False for `null`; otherwise a non-positive `compareTo` |
| Versions.Version.GetNumber | src/main/java/me/kvdpxne/notchity/Version.java:158-160 | The number is non-negative and rebuilds the same version |
| Versions.Version.CompareTo | src/main/java/me/kvdpxne/notchity/Version.java:172-174 | The result is -1, 0 or 1, and 0 exactly for the same version |
| Versions.Version.Equals | src/main/java/me/kvdpxne/notchity/Version.java:185-196 | True exactly for a reference to an equal version, and then the hash codes agree |
| Versions.Version.HashCode | src/main/java/me/kvdpxne/notchity/Version.java:205-207 | The hash is non-negative and rebuilds the same version, so distinct versions never share a hash |
| Versions.IntPredicatesCompareNumber | src/main/java/me/kvdpxne/notchity/Version.java:45-138 | The five `int` overloads are `>`, `>=`, `==`, `<` and `<=` on the number |
| Versions.NullComparandIsFalse | src/main/java/me/kvdpxne/notchity/Version.java:57-150 | Every `Version`-typed predicate, and `equals`, is false for a `null` argument |
| Versions.VersionPredicatesUseNumber | src/main/java/me/kvdpxne/notchity/Version.java:57-150 | For a present argument each `Version`-typed predicate is its `int` overload applied to the argument's number |
| Versions.Trichotomy | src/main/java/me/kvdpxne/notchity/Version.java:45-127 | Between two versions exactly one of later, equal and older holds |
| Versions.OrEqualIsDisjunction | src/main/java/me/kvdpxne/notchity/Version.java:68-150 | `isLaterThanOrEqual` is later-or-equal and `isOlderThanOrEqual` is older-or-equal, `null` included |
| Versions.LaterIsConverseOfOlder | src/main/java/me/kvdpxne/notchity/Version.java:45-127 | `a` is later than `b` exactly when `b` is older than `a`, with and without equality |
| Versions.CompareToFollowsNumbers | src/main/java/me/kvdpxne/notchity/Version.java:172-174 | The sign of `compareTo` is the order of the numbers, and it is zero exactly for equal versions |
| Versions.CompareToAntisymmetric | src/main/java/me/kvdpxne/notchity/Version.java:172-174 | `a.compareTo(b)` is the negation of `b.compareTo(a)` |
| Versions.CompareToTransitive | src/main/java/me/kvdpxne/notchity/Version.java:172-174 | `compareTo` is transitive, both strictly and non-strictly |
| Versions.EqualsIsValueEquality | src/main/java/me/kvdpxne/notchity/Version.java:185-207 | `equals` holds exactly for equal numbers; it is reflexive and symmetric; equal versions have equal `hashCode` |
| Versions.IsEqualAgreesWithEqualsAndCompare | src/main/java/me/kvdpxne/notchity/Version.java:102-104 | `isEqual` agrees with `equals` and with a zero `compareTo`; later and older agree with the sign of `compareTo` |
| Versions.ConstructorExamples | src/test/java/me/kvdpxne/notchity/VersionTest.java:20-61 | `new Version(1002003)` holds 1002003, and `new Version(-1)` throws |
| VersionParser.IsInSupportedRange | core/src/main/java/me/kvdpxne/notchity/VersionParser.java:54-58 | A component is supported exactly when it lies in [0, 999], so it fills one three-digit field of the encoding |
| VersionParser.SupportedRangeIsZeroTo999 | core/src/main/java/me/kvdpxne/notchity/VersionParser.java:54-58 | `isInSupportedRange(n)` holds exactly for 0 through 999, so it accepts 999 and 0 and rejects 1000 and -1 |
| VersionParser.Encode | core/src/main/java/me/kvdpxne/notchity/VersionParser.java:140-143 | A supported triple encodes into [0, 999999999], so the `int` arithmetic never wraps |
| VersionParser.DecodeEncode | core/src/main/java/me/kvdpxne/notchity/VersionParser.java:143 | The three components can be read back out of the encoded number |
| VersionParser.EncodeDecode | core/src/main/java/me/kvdpxne/notchity/VersionParser.java:143 | Every number in [0, 999999999] encodes some supported triple |
| VersionParser.EncodeInjective | core/src/main/java/me/kvdpxne/notchity/VersionParser.java:143 | Distinct supported triples have distinct numbers |
| VersionParser.EncodeMonotone | core/src/main/java/me/kvdpxne/notchity/VersionParser.java:143 | A lexicographically smaller triple has a smaller number |
| VersionParser.EncodeOrderIsLexOrder | core/src/main/java/me/kvdpxne/notchity/VersionParser.java:143 | Numeric order of encodings is exactly lexicographic order of the triples |
| VersionParser.StripSuffix | core/src/main/java/me/kvdpxne/notchity/VersionParser.java:122-125 | The stripped patch is the prefix before the first `-`, or the whole text when there is none |
| VersionParser.ParseComponent | core/src/main/java/me/kvdpxne/notchity/VersionParser.java:102-138 | Non-integer text is rejected with the `NumberFormatException` wrapped as the cause; an integer outside [0, 999] is rejected without a cause and is not clamped; anything else is accepted unchanged |
| VersionParser.ParseParts | core/src/main/java/me/kvdpxne/notchity/VersionParser.java:95-143 | On success the number lies in [0, 999999999], and its decoded triple is exactly what the pieces denote |
| VersionParser.ParsePartsOutcome | core/src/main/java/me/kvdpxne/notchity/VersionParser.java:95-143 | The parse succeeds exactly when there are at least two pieces and every component read is accepted. It throws `ArrayIndexOutOfBoundsException` exactly when a needed piece is missing. Otherwise it reports the first rejected component's error |
| VersionParser.ParseVersionToNumber | core/src/main/java/me/kvdpxne/notchity/VersionParser.java:84-144 | `null` or empty input is rejected. Success, the missing-piece exception and the first rejection are each characterised in terms of the `split` pieces. A result is in range and denotes the pieces' triple |
| VersionParser.ParseVersion | core/src/main/java/me/kvdpxne/notchity/VersionParser.java:161-166 | It succeeds exactly when `parseVersionToNumber` does, with the same number or the same error, and never fails the `Version` constructor's check |
| VersionParser.ComponentsDetermineParse | core/src/main/java/me/kvdpxne/notchity/VersionParser.java:119-132 | The outcome depends only on the at most three component texts read |
| VersionParser.DenotedTripleIsParsed | core/src/main/java/me/kvdpxne/notchity/VersionParser.java:84-144 | Every non-empty string whose pieces denote a supported triple parses to that triple's number |
| VersionParser.ParsedOrderIsLexOrder | core/src/main/java/me/kvdpxne/notchity/VersionParser.java:143 | For two such strings, numeric order is lexicographic order of their triples, and equal results mean equal triples |
| VersionParser.ParseFormatted | core/src/main/java/me/kvdpxne/notchity/VersionParser.java:84-166 | Round trip: the decimal `major.minor.patch` text of a supported triple parses to its encoding, as a number and as a `Version` |
| VersionParser.ParseFormattedPair | core/src/main/java/me/kvdpxne/notchity/VersionParser.java:97 | With two components the patch is 0 |
| VersionParser.PatchSuffixIgnored | core/src/main/java/me/kvdpxne/notchity/VersionParser.java:122-126 | `x.y.z-suffix` parses exactly like `x.y.z` |
| VersionParser.LaterComponentsIgnored | core/src/main/java/me/kvdpxne/notchity/VersionParser.java:119 | Pieces after the third are never read |
| VersionParser.TrailingSeparatorIgnored | core/src/main/java/me/kvdpxne/notchity/VersionParser.java:93 | A trailing `.` is dropped by `split`, so `x.y.` parses like `x.y` |
| VersionParser.ExampleFullTriple | src/test/java/me/kvdpxne/notchity/VersionParserTest.java:20-61 | `"1.2.3"` parses to 1002003, and `parseVersion` holds that number |
| VersionParser.ExampleWideComponents | src/test/java/me/kvdpxne/notchity/VersionParserTest.java:22 | `"123.456.7"` parses to 123456007 |
| VersionParser.ExampleTwoComponents | src/test/java/me/kvdpxne/notchity/VersionParserTest.java:21 | `"1.0"` parses to 1000000 and `"1.2."` to 1002000 |
| VersionParser.ExampleEmptyPiece | src/test/java/me/kvdpxne/notchity/VersionParserTest.java:30 | `"1..3"` fails with a wrapped `NumberFormatException` |
| VersionParser.ExampleNotANumber | src/test/java/me/kvdpxne/notchity/VersionParserTest.java:31 | `"abc"` fails with a wrapped `NumberFormatException` |
| VersionParser.ExampleDashPatch | core/src/main/java/me/kvdpxne/notchity/VersionParser.java:122-126 | `"1.2.-5"` leaves an empty patch, which is a format error and not a range error |
| VersionParser.ExampleMajorOutOfRange | src/test/java/me/kvdpxne/notchity/VersionParserTest.java:39 | `"1000.0.0"` fails with a range error that has no cause |
| VersionParser.ExampleNegativeMinor | src/test/java/me/kvdpxne/notchity/VersionParserTest.java:40 | `"0.-1.0"` fails with a range error |
| VersionParser.ExampleMissingPieces | core/src/main/java/me/kvdpxne/notchity/VersionParser.java:87-111 | `"5"` and `"."` throw `ArrayIndexOutOfBoundsException`; `""` and `null` are rejected before splitting |
| Releases.Release.Name | src/main/java/me/kvdpxne/notchity/Release.java:16-41 | `name()` holds no lower-case letter and starts with `V` exactly for the named releases, not the sentinels |
| Releases.Release.GetValue | src/main/java/me/kvdpxne/notchity/Release.java:16-57 | `getValue()` is `Integer.MAX_VALUE` exactly for `LATER`, `Integer.MIN_VALUE` exactly for `OLDER`, and in [-6, 6] for every named release |
| Releases.FromName | src/main/java/me/kvdpxne/notchity/Release.java:16-41 | A lookup by exact name, used to show names distinct (the library never calls `valueOf`): a name that is found belongs to the constant returned |
| Releases.FromNameOfName | src/main/java/me/kvdpxne/notchity/Release.java:16-41 | Every constant is found by its own name, so names are distinct |
| Releases.ValuesListsEachOnce | src/main/java/me/kvdpxne/notchity/Release.java:16-41 | `values()` lists every constant, each once |
| Releases.SentinelsBracketTheTable | src/main/java/me/kvdpxne/notchity/Release.java:16-41 | `LATER` comes first with `Integer.MAX_VALUE`, and `OLDER` comes last with `Integer.MIN_VALUE` |
| Releases.NamedReleasesCountDown | src/main/java/me/kvdpxne/notchity/Release.java:18-33 | The 13 named releases run from 6 down to -6, one less at each step of declaration order, strictly between the sentinels |
| Releases.DeclarationOrderDescends | src/main/java/me/kvdpxne/notchity/Release.java:16-57 | Declaration order is strictly descending order of `getValue()` |
| Releases.NameIsUpperCase | src/main/java/me/kvdpxne/notchity/Release.java:16-41 | No constant's name holds a lower-case letter |
| Releases.NamesDistinctIgnoringCase | src/main/java/me/kvdpxne/notchity/Release.java:16-41 | Two names are equal ignoring case only for the same constant |
| VersionFactory.ParsePieces | src/main/java/me/kvdpxne/notchity/VersionFactory.java:53-78 | A piece count other than 2 or 3 is rejected without a cause, and a non-integer piece with the `NumberFormatException` as the cause. Otherwise the result is the older encoding as Java's `int` arithmetic gives it, with patch 0 when absent |
| VersionFactory.ParseVersion | src/main/java/me/kvdpxne/notchity/VersionFactory.java:44-79 | The same three outcomes stated for the `split` of the input; `null` and empty input are rejected first |
| VersionFactory.GetBukkitVersion | src/main/java/me/kvdpxne/notchity/VersionFactory.java:88-90 | It succeeds exactly when the older encoding succeeds and is non-negative. It passes on the encoding's error, and throws the negative-version error for a negative encoding |
| VersionFactory.ParseVersionFormatted | src/main/java/me/kvdpxne/notchity/VersionFactory.java:78 | Round trip: three decimal components read back as their encoding, reduced into `int` range |
| VersionFactory.ParseVersionFormattedPair | src/main/java/me/kvdpxne/notchity/VersionFactory.java:62-78 | With two components the patch is 0 |
| VersionFactory.ParseVersionExact | src/main/java/me/kvdpxne/notchity/VersionFactory.java:78 | Where the encoding fits an `int`, the result is exactly `major * 10000 + minor * 100 + patch` |
| VersionFactory.FourPiecesRejected | src/main/java/me/kvdpxne/notchity/VersionFactory.java:53-58 | A fourth piece is an error, unlike in `VersionParser` |
| VersionFactory.SnapshotVersionStringRejected | src/main/java/me/kvdpxne/notchity/VersionFactory.java:53-58 | `1.8.8-R0.1-SNAPSHOT` is rejected for its piece count |
| VersionFactory.DocumentedVersionStringRejected | src/main/java/me/kvdpxne/notchity/VersionFactory.java:81-90 | The documented `1.19.2-R01` is rejected for its non-integer patch, with the `NumberFormatException` as the cause |
| VersionFactory.NegativeMajorAccepted | src/main/java/me/kvdpxne/notchity/VersionFactory.java:64-89 | A negative major component from -1 to -200000 with a minor component below 100 (and no patch) is accepted and gives a negative encoding, which `getBukkitVersion` then rejects |
| VersionFactory.NegativeMajorOutweighed | src/main/java/me/kvdpxne/notchity/VersionFactory.java:64-89 | A negative major component alone does not make the encoding negative: `"-1.200"` gives version 10000 |
| VersionFactory.FormattedReadsAs | src/main/java/me/kvdpxne/notchity/VersionFactory.java:62-78 | The decimal text `major.minor.patch` of three `int` components splits into three pieces that read back as those components |
| VersionFactory.ReadsAsEncodes | src/main/java/me/kvdpxne/notchity/VersionFactory.java:62-78 | Any string whose three dot-separated pieces read as three components is encoded as their older encoding reduced into `int` range |
| VersionFactory.EncodingOverflowWraps | src/main/java/me/kvdpxne/notchity/VersionFactory.java:78 | For any string whose three pieces read as components with an encoding above `Integer.MAX_VALUE` but below 2^32, the result is 2^32 less than the exact encoding, a negative value |
| VersionFactory.OverflowFailsBukkitVersion | src/main/java/me/kvdpxne/notchity/VersionFactory.java:88-90 | For such a string `getBukkitVersion` throws the negative-version error |
| VersionFactory.EncodingWrapsToNonNegative | src/main/java/me/kvdpxne/notchity/VersionFactory.java:78 | For any string whose three pieces read as components with an encoding from 2^32 to 2^32 + `Integer.MAX_VALUE`, the result is 2^32 less than the exact encoding, a non-negative value unrelated to the components |
| VersionFactory.BukkitVersionOfEncoding | src/main/java/me/kvdpxne/notchity/VersionFactory.java:88-90 | Any non-negative encoding, wrapped or not, becomes the version of that number |
| VersionFactory.WrappedVersionAccepted | src/main/java/me/kvdpxne/notchity/VersionFactory.java:88-90 | For such a string `getBukkitVersion` does not throw: it returns the version of the encoding less 2^32 |
| VersionFactory.WrappedVersionExample | src/main/java/me/kvdpxne/notchity/VersionFactory.java:88-90 | `"429497.0.0"` does not throw: `getBukkitVersion` returns version 2704 |
| VersionFactory.NegativeFormattedReadsAs | src/main/java/me/kvdpxne/notchity/VersionFactory.java:62-78 | The decimal text of a negative major component and two non-negative ones splits into three pieces that read back as those components |
| VersionFactory.EncodingUnderflowWraps | src/main/java/me/kvdpxne/notchity/VersionFactory.java:78 | For any string whose three pieces read as components with an encoding from -2^32 to just below `Integer.MIN_VALUE`, the result is 2^32 more than the exact encoding, a non-negative value |
| VersionFactory.UnderflowVersionAccepted | src/main/java/me/kvdpxne/notchity/VersionFactory.java:88-90 | For such a string `getBukkitVersion` does not throw, although the exact encoding is negative: it returns the version of the encoding plus 2^32 |
| VersionFactory.UnderflowVersionExample | src/main/java/me/kvdpxne/notchity/VersionFactory.java:88-90 | `"-214749.0.0"` does not throw: `getBukkitVersion` returns version 2147477296 |
| VersionFactory.FirstMatch | src/main/java/me/kvdpxne/notchity/VersionFactory.java:127-131 | The scan stops at the first constant whose name equals the tag ignoring case, and no earlier constant matches; it runs off the end only when none does |
| VersionFactory.GetReleaseVersion | src/main/java/me/kvdpxne/notchity/VersionFactory.java:121-134 | A `null` tag throws because `OLDER` is negative. A tag naming a constant gives `new Version` of its value, and any other tag gives `Integer.MAX_VALUE` |
| VersionFactory.FirstMatchIsOnlyMatch | src/main/java/me/kvdpxne/notchity/VersionFactory.java:127-131 | The constant the scan finds is the only one the tag names |
| VersionFactory.ReleaseVersionSucceeds | src/main/java/me/kvdpxne/notchity/VersionFactory.java:121-134 | The lookup yields a version exactly when the tag is present and names no constant with a negative value |
| VersionFactory.NewestReleaseLookup | src/main/java/me/kvdpxne/notchity/VersionFactory.java:127-131 | `v1_8_R3` gives 6 |
| VersionFactory.OrdinalZeroLookup | src/main/java/me/kvdpxne/notchity/VersionFactory.java:127-131 | `v1_7_R1` gives 0 |
| VersionFactory.UnlistedMinorNamesNothing | src/main/java/me/kvdpxne/notchity/VersionFactory.java:127-131 | A seven-character tag whose minor digit is not 5 to 8 matches no constant |
| VersionFactory.UnlistedMinorSelectsLater | src/main/java/me/kvdpxne/notchity/VersionFactory.java:133 | Such a tag gives `Integer.MAX_VALUE` |
| VersionFactory.UnknownReleaseLookup | src/main/java/me/kvdpxne/notchity/VersionFactory.java:133 | `v1_9_R1` gives `Integer.MAX_VALUE` |
| VersionFactory.ReleaseLookupThrowsBelowZero | src/main/java/me/kvdpxne/notchity/VersionFactory.java:123-131 | A `null` tag, `v1_6_R3` and `older` all throw the negative-version error |
| MinecraftVersionFactory.CreateMinecraftVersion | bukkit/src/main/java/me/kvdpxne/notchity/MinecraftVersionFactory.java:10-12 | It succeeds exactly when `VersionParser` does, with the same number, at most 999999999, or the same error |
| MinecraftVersionFactory.CreateMinecraftRevision | bukkit/src/main/java/me/kvdpxne/notchity/MinecraftVersionFactory.java:14-29 | Fewer than four segments throw `ArrayIndexOutOfBoundsException`, and an empty fourth segment throws `StringIndexOutOfBoundsException`. A tag not splitting into three `_` pieces throws `IllegalArgumentException`. Otherwise the outcome is `VersionParser`'s on the rebuilt `a.b.c` text |
| MinecraftVersionFactory.RevisionTagIsOneSegment | bukkit/src/main/java/me/kvdpxne/notchity/MinecraftVersionFactory.java:15-19 | A revision tag holds no `.` and is non-empty |
| MinecraftVersionFactory.RevisionTagRebuilds | bukkit/src/main/java/me/kvdpxne/notchity/MinecraftVersionFactory.java:21-28 | A tag without its `v` splits into three pieces that rebuild the plain `major.minor.revision` text |
| MinecraftVersionFactory.RevisionOfPackageName | bukkit/src/main/java/me/kvdpxne/notchity/MinecraftVersionFactory.java:14-29 | Round trip: the package name of a supported release reads back as that triple's number |
| MinecraftVersionFactory.RevisionTagExample | bukkit/src/main/java/me/kvdpxne/notchity/MinecraftVersionFactory.java:21-28 | The tag of 1.8 revision 3 is `v1_8_R3` |
| MinecraftVersionFactory.CraftBukkitRevisionExample | bukkit/src/main/java/me/kvdpxne/notchity/MinecraftVersionFactory.java:26-28 | `org.bukkit.craftbukkit.v1_8_R3` gives 1008003 |
| MinecraftVersionFactory.HostVersionString | bukkit/src/main/java/me/kvdpxne/notchity/MinecraftVersionFactory.java:10-12 | A host string shaped like `1.8.8-R0.1-SNAPSHOT` gives the number of its leading `major.minor.patch`, ignoring the build suffix and later pieces |
| MinecraftVersionFactory.UnversionedPackageName | bukkit/src/main/java/me/kvdpxne/notchity/MinecraftVersionFactory.java:15-19 | A package name of three segments throws `ArrayIndexOutOfBoundsException` |
| MinecraftVersionFactory.TwoPieceTagRejected | bukkit/src/main/java/me/kvdpxne/notchity/MinecraftVersionFactory.java:22-24 | A tag of two `_` pieces throws `IllegalArgumentException` |

Where the code and its Javadoc disagree, the model follows the code:

- `parseVersionToNumber` documents an `IllegalArgumentException` for a
  string that is not in a valid format (VersionParser.java:79-81). A single
  component that parses and is in range, such as `"5"`, instead throws
  `ArrayIndexOutOfBoundsException` when `parts[1]` is read, and the
  `NumberFormatException` handler does not catch it. A single component
  that is not an integer (`"abc"`) or is out of range (`"1000"`) fails on
  that component first, with the documented exception.
- `getReleaseVersion` is documented to return a version for an older or
  newer release when the release cannot be determined
  (VersionFactory.java:111-118). For a `null` tag it builds a version from
  `OLDER`'s value, and `new Version` throws because that value is
  negative. Every release with a negative value throws in the same way.
- `VersionFactory.parseVersion` documents only the format error
  (VersionFactory.java:40-41). It checks no range, and its `int` arithmetic
  wraps. A negative exact encoding not below `Integer.MIN_VALUE`, or one
  between `Integer.MAX_VALUE` and 2^32, makes `getBukkitVersion` throw. An
  encoding from 2^32 to 2^32 + `Integer.MAX_VALUE` comes back as an
  unrelated non-negative version: `"429497.0.0"` gives 2704. So does one
  from -2^32 to just below `Integer.MIN_VALUE`: `"-214749.0.0"` gives
  2147477296. A negative major component does not by itself make the
  encoding negative: `"-1.200"` gives 10000.
- The example in `getBukkitVersion`'s Javadoc, `1.19.2-R01`
  (VersionFactory.java:82), is itself rejected, because `2-R01` is not an
  integer.

The suffix rule at VersionParser.java:120-125 drops everything from the
first `-` of the patch. So a patch `-5` becomes empty text, which fails as
a format error (a wrapped `NumberFormatException`), not as an
out-of-range component.

## Left out

- Host lookups: `Bukkit.getBukkitVersion()` and the server class's package name are calls into the server runtime, so they are parameters.
- `getRelease`: its `substring(23)` depends on the host package layout, so `GetReleaseVersion` takes the cut tag (or `null`) as its parameter.
- The lazy holders in `VersionCreator` and `MinecraftVersionCreator` are left out. They hold JVM class-initialisation singletons with no logic of their own.
- The utility classes' private throwing constructors are left out, because they only serve as namespaces.
- Exception message texts and `Version.toString` are left out. An exception is modelled by its kind, a reason, and its cause.
- Versions.Version.Equals: it takes only a `Version` or `null`, because an object of another class is never equal and is not modelled.
- Versions.Version.CompareTo: it takes a present `Version`, so the `NullPointerException` of `compareTo(null)` is not modelled.
- JavaStrings.ParseInt: reads ASCII digits only, because the Unicode decimal digits `Integer.parseInt` also accepts do not occur in version strings.
- MinecraftVersionFactory.CreateMinecraftRevision: strings are sequences of Unicode code points, while Java's `substring(1)` drops one UTF-16 code unit. On a segment that starts with a supplementary character (outside the Basic Multilingual Plane), Java leaves a lone surrogate that `Integer.parseInt` rejects, while the model drops the whole character. That case is not modelled. Server package names are ASCII.
- JavaStrings: every string operation is modelled on code points, not UTF-16 code units, which differ only for supplementary characters.
- JavaStrings.EqualsIgnoreCase: folds ASCII case only, because Unicode case folding does not matter for the ASCII release names.
- JavaStrings.Split: handles a one-character literal pattern only, which is all the code uses, not general regular expressions.
- The build scripts are configuration only and are left out.
