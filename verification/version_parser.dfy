/** `VersionParser`: turns `"major.minor[.patch]"` into one `int`,
    `major * 1_000_000 + minor * 1_000 + patch`, every component in
    [MIN_VALUE, MAX_VALUE]; a `-suffix` on the patch component is ignored. */
module VersionParser {
  import opened JavaLang
  import opened JavaStrings
  import opened Versions

  /** Bounds every version component must respect. */
  const MAX_VALUE: int := 999
  const MIN_VALUE: int := 0

  /** The largest number a supported version string can encode. */
  const MAX_ENCODED: int := 999_999_999

  /** `isInSupportedRange`: the component lies in [MIN_VALUE, MAX_VALUE],
      so it is written with at most three decimal digits and fills one
      three-digit field of the encoding. */
  predicate IsInSupportedRange(version: Int32)
    ensures IsInSupportedRange(version) <==> 0 <= version < 1000
  {
    MAX_VALUE >= version && MIN_VALUE <= version
  }

  // ---------------------------------------------------------------------
  // The numeric encoding
  // ---------------------------------------------------------------------

  /** A version as its three components. */
  datatype Triple = Triple(major: Int32, minor: Int32, patch: Int32) {
    predicate Supported() {
      IsInSupportedRange(major) && IsInSupportedRange(minor) && IsInSupportedRange(patch)
    }

    /** Lexicographic order on (major, minor, patch). */
    predicate LexLess(other: Triple) {
      || major < other.major
      || (major == other.major && minor < other.minor)
      || (major == other.major && minor == other.minor && patch < other.patch)
    }
  }

  /** The number a supported triple is stored as; it always fits an `int`,
      so the Java multiplication and addition never wrap. */
  function Encode(t: Triple): (n: int)
    requires t.Supported()
    ensures 0 <= n <= MAX_ENCODED
  {
    t.major * 1_000_000 + t.minor * 1_000 + t.patch
  }

  /** Reads the three components back out of an encoded number. */
  function Decode(n: int): (t: Triple)
    requires 0 <= n <= MAX_ENCODED
    ensures t.Supported()
  {
    Triple(n / 1_000_000, n / 1_000 % 1_000, n % 1_000)
  }

  /** Decoding recovers the triple that was encoded. */
  lemma DecodeEncode(t: Triple)
    requires t.Supported()
    ensures Decode(Encode(t)) == t
  {
    var n := Encode(t);
    var low := t.minor * 1_000 + t.patch;
    assert 0 <= low < 1_000_000;
    assert n == t.major * 1_000_000 + low;
    assert n / 1_000_000 == t.major;
    assert n % 1_000_000 == low;
    assert n / 1_000 == t.major * 1_000 + t.minor by {
      assert n == (t.major * 1_000 + t.minor) * 1_000 + t.patch;
    }
    assert n % 1_000 == t.patch;
  }

  /** Every number up to MAX_ENCODED is the encoding of its decoding. */
  lemma EncodeDecode(n: int)
    requires 0 <= n <= MAX_ENCODED
    ensures Encode(Decode(n)) == n
  {
    var t := Decode(n);
    assert n == (n / 1_000) * 1_000 + n % 1_000;
    assert n / 1_000 == (n / 1_000_000) * 1_000 + n / 1_000 % 1_000 by {
      assert n / 1_000 / 1_000 == n / 1_000_000;
    }
  }

  /** Distinct supported triples encode to distinct numbers. */
  lemma EncodeInjective(t: Triple, u: Triple)
    requires t.Supported() && u.Supported()
    ensures Encode(t) == Encode(u) <==> t == u
  {
    if Encode(t) == Encode(u) {
      DecodeEncode(t);
      DecodeEncode(u);
    }
  }

  /** Lexicographically smaller triples have smaller numbers. */
  lemma EncodeMonotone(t: Triple, u: Triple)
    requires t.Supported() && u.Supported() && t.LexLess(u)
    ensures Encode(t) < Encode(u)
  {
    if t.major < u.major {
      assert t.minor * 1_000 + t.patch < 1_000_000;
      assert t.major * 1_000_000 + 1_000_000 <= u.major * 1_000_000;
    } else if t.minor < u.minor {
      assert t.minor * 1_000 + 1_000 <= u.minor * 1_000;
    }
  }

  /** Numeric order of encodings is lexicographic order of the triples. */
  lemma EncodeOrderIsLexOrder(t: Triple, u: Triple)
    requires t.Supported() && u.Supported()
    ensures Encode(t) < Encode(u) <==> t.LexLess(u)
  {
    if t.LexLess(u) {
      EncodeMonotone(t, u);
    } else if u.LexLess(t) {
      EncodeMonotone(u, t);
    } else {
      assert t == u;
    }
  }

  // ---------------------------------------------------------------------
  // Parsing
  // ---------------------------------------------------------------------

  /** The patch text with everything from its first `-` removed. */
  function StripSuffix(s: string): (r: string)
    ensures '-' !in r
    ensures r <= s
    ensures '-' in s ==> s[|r|] == '-'
    ensures '-' !in s ==> r == s
  {
    var index := IndexOf(s, '-');
    if -1 != index then s[..index] else s
  }

  /** How many components the parser reads: at most three. */
  function ComponentCount(parts: seq<string>): nat {
    if |parts| < 3 then |parts| else 3
  }

  /** The text parsed for component `k`: the part itself, or for the
      patch the part with its suffix stripped. */
  function ComponentText(parts: seq<string>, k: nat): string
    requires k < ComponentCount(parts)
  {
    if k == 2 then StripSuffix(parts[2]) else parts[k]
  }

  /** One component: `Integer.parseInt` then the range check. A
      `NumberFormatException` comes back wrapped in an
      `IllegalArgumentException`; an out-of-range value is rejected with a
      bare `IllegalArgumentException`, never clamped. */
  function ParseComponent(text: string): (r: Result<Int32>)
    ensures ParseInt(text).Err? ==> r == Err(IllegalArgument(InvalidFormat, Ref(NumberFormat)))
    ensures ParseInt(text).Ok? && !IsInSupportedRange(ParseInt(text).value) ==>
      r == Err(IllegalArgument(OutOfRange, Null))
    ensures ParseInt(text).Ok? && IsInSupportedRange(ParseInt(text).value) ==> r == ParseInt(text)
  {
    match ParseInt(text)
    case Err(e) => Err(IllegalArgument(InvalidFormat, Ref(e)))
    case Ok(n) =>
      if !IsInSupportedRange(n) then Err(IllegalArgument(OutOfRange, Null)) else Ok(n)
  }

  /** Component `k` parses to a supported value. */
  predicate ComponentAccepted(parts: seq<string>, k: nat)
    requires k < ComponentCount(parts)
  {
    ParseComponent(ComponentText(parts, k)).Ok?
  }

  /** The pieces of a version string denote the triple `t`: two or more
      pieces, the first three read as integers give `t`'s components (a
      missing patch reads as 0), all of them supported. */
  ghost predicate Denotes(parts: seq<string>, t: Triple) {
    && |parts| >= 2
    && t.Supported()
    && ParseInt(ComponentText(parts, 0)) == Ok(t.major)
    && ParseInt(ComponentText(parts, 1)) == Ok(t.minor)
    && (if |parts| > 2 then ParseInt(ComponentText(parts, 2)) == Ok(t.patch) else t.patch == 0)
  }

  /** Every component the parser reads is accepted. */
  predicate AllComponentsAccepted(parts: seq<string>) {
    forall k | 0 <= k < ComponentCount(parts) :: ComponentAccepted(parts, k)
  }

  /** `e` is the error of the first component, in reading order, that the
      parser rejects: the earlier ones were all accepted. */
  ghost predicate FirstRejection(parts: seq<string>, e: Exception) {
    exists k | 0 <= k < ComponentCount(parts) ::
      && (forall j | 0 <= j < k :: ComponentAccepted(parts, j))
      && ParseComponent(ComponentText(parts, k)) == Err(e)
  }

  /** The body of `parseVersionToNumber` after the split: components are
      read in order, the first failure aborts the parse, and indexing a
      missing part throws `ArrayIndexOutOfBoundsException`, which the
      `NumberFormatException` handler does not catch. */
  function ParseParts(parts: seq<string>): (r: Result<Int32>)
    ensures r.Ok? ==> 0 <= r.value <= MAX_ENCODED && Denotes(parts, Decode(r.value))
  {
    if |parts| < 1 then Err(ArrayIndexOutOfBounds)
    else
      var major := ParseComponent(ComponentText(parts, 0));
      if major.Err? then Err(major.error)
      else if |parts| < 2 then Err(ArrayIndexOutOfBounds)
      else
        var minor := ParseComponent(ComponentText(parts, 1));
        if minor.Err? then Err(minor.error)
        else if 2 < |parts| then
          var patch := ParseComponent(ComponentText(parts, 2));
          if patch.Err? then Err(patch.error)
          else
            var t := Triple(major.value, minor.value, patch.value);
            DecodeEncode(t);
            Ok(Encode(t))
        else
          var t := Triple(major.value, minor.value, 0);
          DecodeEncode(t);
          Ok(Encode(t))
  }

  /** How the parse of the pieces ends: it succeeds exactly when there are
      at least two pieces and every component read is accepted; it throws
      `ArrayIndexOutOfBoundsException` exactly when a needed piece is
      missing; otherwise it reports the first rejected component's error. */
  lemma ParsePartsOutcome(parts: seq<string>)
    ensures ParseParts(parts).Ok? <==> |parts| >= 2 && AllComponentsAccepted(parts)
    ensures ParseParts(parts) == Err(ArrayIndexOutOfBounds) <==>
      |parts| == 0 || (|parts| == 1 && ComponentAccepted(parts, 0))
    ensures ParseParts(parts).Err? && ParseParts(parts).error != ArrayIndexOutOfBounds ==>
      FirstRejection(parts, ParseParts(parts).error)
  {
    var r := ParseParts(parts);
    if |parts| == 0 {
      return;
    }
    if !ComponentAccepted(parts, 0) {
      assert ParseComponent(ComponentText(parts, 0)) == Err(r.error);
      return;
    }
    if |parts| == 1 {
      return;
    }
    if !ComponentAccepted(parts, 1) {
      assert ParseComponent(ComponentText(parts, 1)) == Err(r.error);
      return;
    }
    if |parts| == 2 {
      assert AllComponentsAccepted(parts);
      return;
    }
    if !ComponentAccepted(parts, 2) {
      assert ParseComponent(ComponentText(parts, 2)) == Err(r.error);
      return;
    }
    assert AllComponentsAccepted(parts);
  }

  /** `parseVersionToNumber`: `null` or empty input is rejected, otherwise
      the input is split on `.` and its pieces parsed. */
  function ParseVersionToNumber(version: Nullable<string>): (r: Result<Int32>)
    ensures version.Null? || version.get == "" ==> r == Err(IllegalArgument(NullOrEmpty, Null))
    ensures r.Ok? ==> 0 <= r.value <= MAX_ENCODED
    ensures r.Ok? ==> version.Ref? && Denotes(Split(version.get, '.'), Decode(r.value))
    ensures version.Ref? && version.get != "" ==>
      var parts := Split(version.get, '.');
      && (r.Ok? <==> |parts| >= 2 && AllComponentsAccepted(parts))
      && (r == Err(ArrayIndexOutOfBounds) <==> |parts| == 0 || (|parts| == 1 && ComponentAccepted(parts, 0)))
      && (r.Err? && r.error != ArrayIndexOutOfBounds ==> FirstRejection(parts, r.error))
  {
    if version.Null? || version.get == "" then Err(IllegalArgument(NullOrEmpty, Null))
    else
      var parts := Split(version.get, '.');
      ParsePartsOutcome(parts);
      ParseParts(parts)
  }

  /** `parseVersion`: the parsed number wrapped in a `Version`. The
      number is never negative, so the constructor's check never fires. */
  function ParseVersion(version: Nullable<string>): (r: Result<Version>)
    ensures r.Ok? <==> ParseVersionToNumber(version).Ok?
    ensures r.Ok? ==> r.value.GetNumber() == ParseVersionToNumber(version).value
    ensures r.Err? ==> r.error == ParseVersionToNumber(version).error
    ensures r.Err? ==> r.error != IllegalArgument(NegativeVersion, Null)
  {
    var numericVersion :- ParseVersionToNumber(version);
    NewVersion(numericVersion)
  }

  // ---------------------------------------------------------------------
  // Properties of the parser
  // ---------------------------------------------------------------------

  /** The range check accepts exactly 0 through 999. */
  lemma SupportedRangeIsZeroTo999(n: Int32)
    ensures IsInSupportedRange(n) <==> 0 <= n <= 999
    ensures IsInSupportedRange(999) && IsInSupportedRange(0)
    ensures !IsInSupportedRange(1000) && !IsInSupportedRange(-1)
  {
  }

  /** The parse depends only on the (at most three) component texts read. */
  lemma ComponentsDetermineParse(p: seq<string>, q: seq<string>)
    requires ComponentCount(p) == ComponentCount(q)
    requires forall k | 0 <= k < ComponentCount(p) :: ComponentText(p, k) == ComponentText(q, k)
    ensures ParseParts(p) == ParseParts(q)
  {
    if ComponentCount(p) >= 1 {
      assert ComponentText(p, 0) == ComponentText(q, 0);
    }
    if ComponentCount(p) >= 2 {
      assert ComponentText(p, 1) == ComponentText(q, 1);
    }
    if ComponentCount(p) >= 3 {
      assert ComponentText(p, 2) == ComponentText(q, 2);
    }
  }

  /** Any string whose pieces denote a triple parses to that triple's
      encoding: the parser accepts everything the format allows. */
  lemma DenotedTripleIsParsed(s: string, t: Triple)
    requires s != "" && Denotes(Split(s, '.'), t)
    ensures ParseVersionToNumber(Ref(s)) == Ok(Encode(t))
  {
    var parts := Split(s, '.');
    forall k | 0 <= k < ComponentCount(parts) ensures ComponentAccepted(parts, k) {
    }
    var r := ParseVersionToNumber(Ref(s));
    var u := Decode(r.value);
    assert u == t;
    EncodeDecode(r.value);
  }

  /** Numeric order of parsed versions is lexicographic order of the
      triples their strings denote; equal numbers mean equal triples. */
  lemma ParsedOrderIsLexOrder(s1: string, t1: Triple, s2: string, t2: Triple)
    requires s1 != "" && Denotes(Split(s1, '.'), t1)
    requires s2 != "" && Denotes(Split(s2, '.'), t2)
    ensures ParseVersionToNumber(Ref(s1)).Ok? && ParseVersionToNumber(Ref(s2)).Ok?
    ensures ParseVersionToNumber(Ref(s1)).value < ParseVersionToNumber(Ref(s2)).value <==> t1.LexLess(t2)
    ensures ParseVersionToNumber(Ref(s1)) == ParseVersionToNumber(Ref(s2)) <==> t1 == t2
  {
    DenotedTripleIsParsed(s1, t1);
    DenotedTripleIsParsed(s2, t2);
    EncodeOrderIsLexOrder(t1, t2);
    EncodeInjective(t1, t2);
  }

  /** `"major.minor.patch"` in decimal. */
  function Format(t: Triple): string
    requires t.Supported()
  {
    Join([ShowNat(t.major), ShowNat(t.minor), ShowNat(t.patch)], '.')
  }

  /** Parsing the decimal text of a supported triple gives its encoding. */
  lemma ParseFormatted(t: Triple)
    requires t.Supported()
    ensures ParseVersionToNumber(Ref(Format(t))) == Ok(Encode(t))
    ensures ParseVersion(Ref(Format(t))) == Ok(Version(Encode(t)))
  {
    var a, b, c := ShowNat(t.major), ShowNat(t.minor), ShowNat(t.patch);
    ShowNatHasNoPunctuation(t.major);
    ShowNatHasNoPunctuation(t.minor);
    ShowNatHasNoPunctuation(t.patch);
    ParseIntShowNat(t.major);
    ParseIntShowNat(t.minor);
    ParseIntShowNat(t.patch);
    SplitJoinThree(a, b, c);
    DenotedTripleIsParsed(Format(t), t);
  }

  /** With only two components the patch is 0. */
  lemma ParseFormattedPair(major: Int32, minor: Int32)
    requires IsInSupportedRange(major) && IsInSupportedRange(minor)
    ensures ParseVersionToNumber(Ref(Join([ShowNat(major), ShowNat(minor)], '.')))
         == Ok(Encode(Triple(major, minor, 0)))
  {
    var a, b := ShowNat(major), ShowNat(minor);
    ShowNatHasNoPunctuation(major);
    ShowNatHasNoPunctuation(minor);
    ParseIntShowNat(major);
    ParseIntShowNat(minor);
    SplitJoin([a, b], '.');
    DenotedTripleIsParsed(Join([a, b], '.'), Triple(major, minor, 0));
  }

  /** `"x.y.z-suffix"` parses exactly like `"x.y.z"`. */
  lemma PatchSuffixIgnored(a: string, b: string, c: string, suffix: string)
    requires '.' !in a && '.' !in b && '.' !in c && '.' !in suffix
    requires '-' !in c && c != ""
    ensures ParseVersionToNumber(Ref(Join([a, b, c + "-" + suffix], '.')))
         == ParseVersionToNumber(Ref(Join([a, b, c], '.')))
  {
    var d := c + "-" + suffix;
    SplitJoinThree(a, b, d);
    SplitJoinThree(a, b, c);
    var stripped := StripSuffix(d);
    assert d[..|c|] == c && d[|c|] == '-';
    assert stripped == c;
    ComponentsDetermineParse([a, b, d], [a, b, c]);
  }

  /** Components after the third are never read, whatever they hold. */
  lemma LaterComponentsIgnored(a: string, b: string, c: string, rest: string)
    requires '.' !in a && '.' !in b && '.' !in c && c != ""
    ensures ParseVersionToNumber(Ref(Join([a, b, c], '.') + "." + rest))
         == ParseVersionToNumber(Ref(Join([a, b, c], '.')))
  {
    SplitJoinThen([a, b, c], rest, '.');
    SplitJoinThree(a, b, c);
    var p := Split(Join([a, b, c], '.') + "." + rest, '.');
    assert p[..3] == [a, b, c];
    ComponentsDetermineParse(p, [a, b, c]);
  }

  /** A trailing `.` is dropped by the split, so `"x.y."` parses like `"x.y"`. */
  lemma TrailingSeparatorIgnored(a: string, b: string)
    requires '.' !in a && '.' !in b && b != ""
    ensures ParseVersionToNumber(Ref(Join([a, b], '.') + "."))
         == ParseVersionToNumber(Ref(Join([a, b], '.')))
  {
    SplitJoinThen([a, b], "", '.');
    assert Fields("", '.') == [""];
    SplitJoin([a, b], '.');
    assert Join([a, b], '.') + "." + "" == Join([a, b], '.') + ".";
  }

  // ---------------------------------------------------------------------
  // The cases the parser's unit tests exercise, and a few more
  // ---------------------------------------------------------------------

  // Strings with several pieces are written as `Join([...], '.')`, which
  // is the literal text with the pieces separated by dots.

  /** `"1.2.3"` parses to 1002003, and `parseVersion` holds that number. */
  lemma ExampleFullTriple()
    ensures ParseVersionToNumber(Ref(Join(["1", "2", "3"], '.'))) == Ok(1002003)
    ensures ParseVersion(Ref(Join(["1", "2", "3"], '.'))) == Ok(Version(1002003))
  {
    assert ShowNat(1) == "1" && ShowNat(2) == "2" && ShowNat(3) == "3";
    ParseFormatted(Triple(1, 2, 3));
  }

  /** `"123.456.7"` parses to 123456007. */
  lemma ExampleWideComponents()
    ensures ParseVersionToNumber(Ref(Join(["123", "456", "7"], '.'))) == Ok(123456007)
  {
    assert ShowNat(123) == "123" && ShowNat(456) == "456" && ShowNat(7) == "7";
    ParseFormatted(Triple(123, 456, 7));
  }

  /** `"1.0"` parses to 1000000 and `"1.2."` to 1002000: the patch is 0. */
  lemma ExampleTwoComponents()
    ensures ParseVersionToNumber(Ref(Join(["1", "0"], '.'))) == Ok(1000000)
    ensures ParseVersionToNumber(Ref(Join(["1", "2"], '.') + ".")) == Ok(1002000)
  {
    assert ShowNat(1) == "1" && ShowNat(0) == "0" && ShowNat(2) == "2";
    ParseFormattedPair(1, 0);
    ParseFormattedPair(1, 2);
    TrailingSeparatorIgnored("1", "2");
  }

  /** `"1..3"` fails on its empty middle piece with a wrapped
      `NumberFormatException`. */
  lemma ExampleEmptyPiece()
    ensures ParseVersionToNumber(Ref(Join(["1", "", "3"], '.')))
         == Err(IllegalArgument(InvalidFormat, Ref(NumberFormat)))
  {
    assert ShowNat(1) == "1";
    ParseIntShowNat(1);
    SplitJoin(["1", "", "3"], '.');
  }

  /** `"abc"` fails on its only piece with a wrapped `NumberFormatException`. */
  lemma ExampleNotANumber()
    ensures ParseVersionToNumber(Ref("abc")) == Err(IllegalArgument(InvalidFormat, Ref(NumberFormat)))
  {
    assert Split("abc", '.') == ["abc"];
    assert !IsDigit("abc"[0]);
  }

  /** `"1.2.-5"`: the suffix rule leaves an empty patch, a format error
      rather than a range error. */
  lemma ExampleDashPatch()
    ensures ParseVersionToNumber(Ref(Join(["1", "2", "-5"], '.')))
         == Err(IllegalArgument(InvalidFormat, Ref(NumberFormat)))
  {
    assert ShowNat(1) == "1" && ShowNat(2) == "2";
    ParseIntShowNat(1);
    ParseIntShowNat(2);
    SplitJoin(["1", "2", "-5"], '.');
    assert StripSuffix("-5") == "";
  }

  /** `"1000.0.0"` parses as integers but its major component is out of
      range: a bare `IllegalArgumentException`, never a clamped value. */
  lemma ExampleMajorOutOfRange()
    ensures ParseVersionToNumber(Ref(Join(["1000", "0", "0"], '.'))) == Err(IllegalArgument(OutOfRange, Null))
  {
    assert ShowNat(1000) == "1000";
    ParseIntShowNat(1000);
    SplitJoin(["1000", "0", "0"], '.');
  }

  /** `"0.-1.0"`: a negative minor component is a range error too. */
  lemma ExampleNegativeMinor()
    ensures ParseVersionToNumber(Ref(Join(["0", "-1", "0"], '.'))) == Err(IllegalArgument(OutOfRange, Null))
  {
    assert ShowNat(0) == "0" && "-" + ShowNat(1) == "-1";
    ParseIntShowNat(0);
    ParseIntNegated(1);
    SplitJoin(["0", "-1", "0"], '.');
  }

  /** A lone `"5"` passes its range check and then indexes a missing
      piece; `"."` splits to no pieces at all; `null` and `""` are
      rejected before splitting. */
  lemma ExampleMissingPieces()
    ensures ParseVersionToNumber(Ref("5")) == Err(ArrayIndexOutOfBounds)
    ensures ParseVersionToNumber(Ref(".")) == Err(ArrayIndexOutOfBounds)
    ensures ParseVersionToNumber(Ref("")) == Err(IllegalArgument(NullOrEmpty, Null))
    ensures ParseVersionToNumber(Null) == Err(IllegalArgument(NullOrEmpty, Null))
  {
    assert ShowNat(5) == "5";
    ParseIntShowNat(5);
    assert Split("5", '.') == ["5"];
    assert Fields(".", '.') == ["", ""];
  }
}
