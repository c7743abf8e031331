/** `VersionFactory`: the older host-version encoding
    `major * 10000 + minor * 100 + patch` (no range check), and the release
    lookup that maps a release tag onto the `Release` table. The host
    strings (`Bukkit.getBukkitVersion()` and the tag cut from the server's
    package name) are parameters here. */
module VersionFactory {
  import opened JavaLang
  import opened JavaStrings
  import opened Versions
  import opened Releases

  // ---------------------------------------------------------------------
  // parseVersion: the older encoding
  // ---------------------------------------------------------------------

  /** The older encoding of three components, before `int` wrap-around. */
  function OldEncode(major: int, minor: int, patch: int): int {
    major * 10000 + minor * 100 + patch
  }

  /** The pieces are two or three in number and each reads as an integer. */
  predicate AllPiecesNumeric(parts: seq<string>) {
    forall k | 0 <= k < |parts| :: ParseInt(parts[k]).Ok?
  }

  /** The encoding of the pieces `split` produced: a count other than two
      or three is rejected with a bare `IllegalArgumentException`, a piece
      that is not an integer with one wrapping the `NumberFormatException`.
      Components are not range-checked, and the Java arithmetic wraps
      (`Wrap32`). */
  function ParsePieces(parts: seq<string>): (r: Result<Int32>)
    ensures |parts| < 2 || 3 < |parts| ==> r == Err(IllegalArgument(InvalidFormat, Null))
    ensures 2 <= |parts| <= 3 && !AllPiecesNumeric(parts) ==>
      r == Err(IllegalArgument(InvalidFormat, Ref(NumberFormat)))
    ensures 2 <= |parts| <= 3 && AllPiecesNumeric(parts) ==>
      r == Ok(Wrap32(OldEncode(ParseInt(parts[0]).value, ParseInt(parts[1]).value,
                               if |parts| == 3 then ParseInt(parts[2]).value else 0)))
  {
    if 2 > |parts| || 3 < |parts| then Err(IllegalArgument(InvalidFormat, Null))
    else
      var major := ParseInt(parts[0]);
      var minor := ParseInt(parts[1]);
      var patch := if 2 < |parts| then ParseInt(parts[2]) else Ok(0);
      if major.Err? || minor.Err? || patch.Err? then
        assert !AllPiecesNumeric(parts) by {
          if major.Err? {
            assert !ParseInt(parts[0]).Ok?;
          } else if minor.Err? {
            assert !ParseInt(parts[1]).Ok?;
          } else {
            assert !ParseInt(parts[2]).Ok?;
          }
        }
        Err(IllegalArgument(InvalidFormat, Ref(NumberFormat)))
      else
        Ok(Wrap32(OldEncode(major.value, minor.value, patch.value)))
  }

  /** `parseVersion`: `null` and empty input are rejected first; otherwise
      the input is split at every `.` and the pieces are encoded. */
  function ParseVersion(version: Nullable<string>): (r: Result<Int32>)
    ensures version.Null? || version.get == "" ==> r == Err(IllegalArgument(NullOrEmpty, Null))
    ensures version.Ref? && version.get != "" ==>
      var parts := Split(version.get, '.');
      && (|parts| < 2 || 3 < |parts| ==> r == Err(IllegalArgument(InvalidFormat, Null)))
      && (2 <= |parts| <= 3 && !AllPiecesNumeric(parts) ==>
            r == Err(IllegalArgument(InvalidFormat, Ref(NumberFormat))))
      && (2 <= |parts| <= 3 && AllPiecesNumeric(parts) ==>
            r == Ok(Wrap32(OldEncode(ParseInt(parts[0]).value, ParseInt(parts[1]).value,
                                     if |parts| == 3 then ParseInt(parts[2]).value else 0))))
  {
    if version.Null? || version.get == "" then Err(IllegalArgument(NullOrEmpty, Null))
    else ParsePieces(Split(version.get, '.'))
  }

  /** `getBukkitVersion`: the older encoding wrapped in a `Version`, which
      throws when the encoding is negative. */
  function GetBukkitVersion(bukkitVersion: Nullable<string>): (r: Result<Version>)
    ensures r.Ok? <==> ParseVersion(bukkitVersion).Ok? && ParseVersion(bukkitVersion).value >= 0
    ensures r.Ok? ==> r.value.GetNumber() == ParseVersion(bukkitVersion).value
    ensures ParseVersion(bukkitVersion).Err? ==> r.Err? && r.error == ParseVersion(bukkitVersion).error
    ensures ParseVersion(bukkitVersion).Ok? && ParseVersion(bukkitVersion).value < 0 ==>
      r == Err(IllegalArgument(NegativeVersion, Null))
  {
    var n :- ParseVersion(bukkitVersion);
    NewVersion(n)
  }

  /** Three components written as plain numerals are read back, and the
      result is the older encoding reduced into `int` range as Java's
      arithmetic does. */
  lemma ParseVersionFormatted(major: nat, minor: nat, patch: nat)
    requires major <= INT_MAX && minor <= INT_MAX && patch <= INT_MAX
    ensures ParseVersion(Ref(Join([ShowNat(major), ShowNat(minor), ShowNat(patch)], '.')))
         == Ok(Wrap32(OldEncode(major, minor, patch)))
  {
    var xs := [ShowNat(major), ShowNat(minor), ShowNat(patch)];
    ShowNatHasNoPunctuation(major);
    ShowNatHasNoPunctuation(minor);
    ShowNatHasNoPunctuation(patch);
    SplitJoin(xs, '.');
    ParseIntShowNat(major);
    ParseIntShowNat(minor);
    ParseIntShowNat(patch);
    JoinHasSeparator(xs, '.');
    assert AllPiecesNumeric(xs);
    var r := ParsePieces(xs);
    assert ParseInt(xs[0]).value == major && ParseInt(xs[1]).value == minor;
    assert ParseInt(xs[2]).value == patch;
    assert ParseVersion(Ref(Join(xs, '.'))) == r;
  }

  /** Two components written as plain numerals are read back with a zero
      patch. */
  lemma ParseVersionFormattedPair(major: nat, minor: nat)
    requires major <= INT_MAX && minor <= INT_MAX
    ensures ParseVersion(Ref(Join([ShowNat(major), ShowNat(minor)], '.')))
         == Ok(Wrap32(OldEncode(major, minor, 0)))
  {
    var xs := [ShowNat(major), ShowNat(minor)];
    ShowNatHasNoPunctuation(major);
    ShowNatHasNoPunctuation(minor);
    SplitJoin(xs, '.');
    ParseIntShowNat(major);
    ParseIntShowNat(minor);
    JoinHasSeparator(xs, '.');
    assert AllPiecesNumeric(xs);
    var r := ParsePieces(xs);
    assert ParseInt(xs[0]).value == major && ParseInt(xs[1]).value == minor;
    assert ParseVersion(Ref(Join(xs, '.'))) == r;
  }

  /** Whenever the components keep the encoding inside `int`, the Java
      arithmetic is exact. */
  lemma ParseVersionExact(major: nat, minor: nat, patch: nat)
    requires OldEncode(major, minor, patch) <= INT_MAX
    ensures ParseVersion(Ref(Join([ShowNat(major), ShowNat(minor), ShowNat(patch)], '.')))
         == Ok(OldEncode(major, minor, patch))
    ensures ParseVersion(Ref(Join([ShowNat(major), ShowNat(minor)], '.')))
         == Ok(OldEncode(major, minor, 0))
  {
    assert major <= INT_MAX && minor <= INT_MAX && patch <= INT_MAX by {
      assert major * 10000 >= major && minor * 100 >= minor;
    }
    ParseVersionFormatted(major, minor, patch);
    ParseVersionFormattedPair(major, minor);
  }

  /** Unlike `VersionParser`, a fourth piece is an error here. */
  lemma FourPiecesRejected(a: string, b: string, c: string, d: string)
    requires '.' !in a && '.' !in b && '.' !in c && '.' !in d && d != ""
    ensures ParseVersion(Ref(Join([a, b, c, d], '.'))) == Err(IllegalArgument(InvalidFormat, Null))
  {
    SplitJoin([a, b, c, d], '.');
  }

  /** The host version strings the server reports carry a build suffix,
      which this encoding does not strip: `1.8.8-R0.1-SNAPSHOT` has four
      pieces and throws. */
  lemma SnapshotVersionStringRejected()
    ensures GetBukkitVersion(Ref(Join(["1", "8", "8-R0", "1-SNAPSHOT"], '.')))
         == Err(IllegalArgument(InvalidFormat, Null))
  {
    FourPiecesRejected("1", "8", "8-R0", "1-SNAPSHOT");
  }

  /** The `1.19.2-R01` of the method's own documentation has a third piece
      that is not an integer, and throws. */
  lemma DocumentedVersionStringRejected()
    ensures GetBukkitVersion(Ref(Join(["1", "19", "2-R01"], '.')))
         == Err(IllegalArgument(InvalidFormat, Ref(NumberFormat)))
  {
    var xs := ["1", "19", "2-R01"];
    SplitJoin(xs, '.');
    JoinHasSeparator(xs, '.');
    assert !IsDigit(xs[2][1]);
    assert !ParseInt(xs[2]).Ok?;
    assert !AllPiecesNumeric(xs);
  }

  /** The arithmetic of a negative major component: the encoding lies in
      the negative part of the `int` range. */
  lemma NegativeMajorEncoding(major: nat, minor: nat)
    requires 0 < major <= 200000 && minor < 100
    ensures OldEncode(-(major as int), minor, 0) == minor * 100 - major * 10000
    ensures INT_MIN <= OldEncode(-(major as int), minor, 0) < 0
  {
  }

  /** There is no range check: a negative major component such as the
      `-1` of `"-1.0"` is accepted and gives a negative encoding (-10000
      there), which `getBukkitVersion` then rejects in the `Version`
      constructor. */
  lemma NegativeMajorAccepted(major: nat, minor: nat)
    requires 0 < major <= 200000 && minor < 100
    ensures ParseVersion(Ref(Join(["-" + ShowNat(major), ShowNat(minor)], '.')))
         == Ok(minor * 100 - major * 10000)
    ensures GetBukkitVersion(Ref(Join(["-" + ShowNat(major), ShowNat(minor)], '.')))
         == Err(IllegalArgument(NegativeVersion, Null))
  {
    var xs := ["-" + ShowNat(major), ShowNat(minor)];
    NegativeMajorPieces(major, minor);
    NegativeMajorEncoding(major, minor);
    assert ParseVersion(Ref(Join(xs, '.'))) == ParsePieces(xs);
  }

  /** The pieces of a negative major component and a minor one split back
      apart and encode exactly. */
  lemma NegativeMajorPieces(major: nat, minor: nat)
    requires 0 < major <= 200000 && minor < 100
    ensures var xs := ["-" + ShowNat(major), ShowNat(minor)];
      && Join(xs, '.') != ""
      && Split(Join(xs, '.'), '.') == xs
      && ParsePieces(xs).Ok?
      && ParsePieces(xs).value == OldEncode(-(major as int), minor, 0)
  {
    var xs := ["-" + ShowNat(major), ShowNat(minor)];
    NegativeMajorSplits(major, minor);
    ParseIntNegated(major);
    ParseIntShowNat(minor);
    NegativeMajorEncoding(major, minor);
    ParsePiecesOfPair(xs, -(major as int), minor);
  }

  /** Two pieces that read as `a` and `b` encode as `a.b.0`. */
  lemma ParsePiecesOfPair(xs: seq<string>, a: Int32, b: Int32)
    requires |xs| == 2 && ParseInt(xs[0]) == Ok(a) && ParseInt(xs[1]) == Ok(b)
    ensures ParsePieces(xs) == Ok(Wrap32(OldEncode(a, b, 0)))
  {
    assert AllPiecesNumeric(xs);
  }

  /** The two pieces of a negative-major string survive the join and split. */
  lemma NegativeMajorSplits(major: nat, minor: nat)
    ensures var xs := ["-" + ShowNat(major), ShowNat(minor)];
      && Join(xs, '.') != ""
      && Split(Join(xs, '.'), '.') == xs
  {
    var xs := ["-" + ShowNat(major), ShowNat(minor)];
    ShowNatHasNoPunctuation(major);
    ShowNatHasNoPunctuation(minor);
    assert xs[0][0] == '-' && xs[0][1..] == ShowNat(major);
    assert '.' !in xs[0];
    SplitJoin(xs, '.');
    JoinHasSeparator(xs, '.');
  }

  /** `version` splits into exactly three pieces that read as `major`,
      `minor` and `patch`. */
  predicate ReadsAs(version: string, major: Int32, minor: Int32, patch: Int32) {
    var parts := Split(version, '.');
    && |parts| == 3
    && ParseInt(parts[0]) == Ok(major)
    && ParseInt(parts[1]) == Ok(minor)
    && ParseInt(parts[2]) == Ok(patch)
  }

  /** The decimal text of three components reads as those components. */
  lemma FormattedReadsAs(major: nat, minor: nat, patch: nat)
    requires major <= INT_MAX && minor <= INT_MAX && patch <= INT_MAX
    ensures ReadsAs(Join([ShowNat(major), ShowNat(minor), ShowNat(patch)], '.'), major, minor, patch)
  {
    var xs := [ShowNat(major), ShowNat(minor), ShowNat(patch)];
    ShowNatHasNoPunctuation(major);
    ShowNatHasNoPunctuation(minor);
    ShowNatHasNoPunctuation(patch);
    SplitJoinThree(ShowNat(major), ShowNat(minor), ShowNat(patch));
    ParseIntShowNat(major);
    ParseIntShowNat(minor);
    ParseIntShowNat(patch);
    PiecesReadAs(Join(xs, '.'), xs, major, minor, patch);
  }

  /** A string whose pieces read as three components reads as them. */
  lemma PiecesReadAs(version: string, xs: seq<string>, major: Int32, minor: Int32, patch: Int32)
    requires Split(version, '.') == xs && |xs| == 3
    requires ParseInt(xs[0]) == Ok(major) && ParseInt(xs[1]) == Ok(minor) && ParseInt(xs[2]) == Ok(patch)
    ensures ReadsAs(version, major, minor, patch)
  {
  }

  /** A string that reads as three components is encoded as the older
      encoding reduced into `int` range. */
  lemma ReadsAsEncodes(version: string, major: Int32, minor: Int32, patch: Int32)
    requires ReadsAs(version, major, minor, patch)
    ensures ParseVersion(Ref(version)) == Ok(Wrap32(OldEncode(major, minor, patch)))
  {
    var parts := Split(version, '.');
    assert AllPiecesNumeric(parts);
  }

  /** Components whose encoding passes `Integer.MAX_VALUE` but stays below
      2^32 wrap into the negative range: `"300000.0.0"` encodes to
      3000000000 - 2^32. */
  lemma EncodingOverflowWraps(version: string, major: Int32, minor: Int32, patch: Int32)
    requires ReadsAs(version, major, minor, patch)
    requires INT_MAX < OldEncode(major, minor, patch) <= INT_MAX - INT_MIN
    ensures ParseVersion(Ref(version)).Ok?
    ensures ParseVersion(Ref(version)).value == OldEncode(major, minor, patch) - 0x1_0000_0000
  {
    ReadsAsEncodes(version, major, minor, patch);
    ParsedFirstTurn(version, OldEncode(major, minor, patch));
  }

  /** A parse holding the wrap of a value just past `Integer.MAX_VALUE`
      holds that value less 2^32. */
  lemma ParsedFirstTurn(version: string, e: int)
    requires ParseVersion(Ref(version)) == Ok(Wrap32(e))
    requires INT_MAX < e <= INT_MAX - INT_MIN
    ensures ParseVersion(Ref(version)) == Ok(e - 0x1_0000_0000)
  {
    Wrap32Overflow(e);
  }

  /** The wrapped encoding is negative, so `getBukkitVersion` throws. */
  lemma OverflowFailsBukkitVersion(version: string, major: Int32, minor: Int32, patch: Int32)
    requires ReadsAs(version, major, minor, patch)
    requires INT_MAX < OldEncode(major, minor, patch) <= INT_MAX - INT_MIN
    ensures GetBukkitVersion(Ref(version)) == Err(IllegalArgument(NegativeVersion, Null))
  {
    EncodingOverflowWraps(version, major, minor, patch);
  }

  /** Components whose encoding reaches 2^32 wrap a full turn and come
      out non-negative: `"429497.0.0"` encodes to 4294970000 - 2^32. */
  lemma EncodingWrapsToNonNegative(version: string, major: Int32, minor: Int32, patch: Int32)
    requires ReadsAs(version, major, minor, patch)
    requires 0x1_0000_0000 <= OldEncode(major, minor, patch) <= 0x1_0000_0000 + INT_MAX
    ensures ParseVersion(Ref(version)).Ok?
    ensures ParseVersion(Ref(version)).value == OldEncode(major, minor, patch) - 0x1_0000_0000
  {
    ReadsAsEncodes(version, major, minor, patch);
    ParsedSecondTurn(version, OldEncode(major, minor, patch));
  }

  /** A parse holding the wrap of a value one full turn past the `int`
      range holds that value less 2^32. */
  lemma ParsedSecondTurn(version: string, e: int)
    requires ParseVersion(Ref(version)) == Ok(Wrap32(e))
    requires 0x1_0000_0000 <= e <= 0x1_0000_0000 + INT_MAX
    ensures ParseVersion(Ref(version)) == Ok(e - 0x1_0000_0000)
  {
    Wrap32SecondTurn(e);
  }

  /** For such components `getBukkitVersion` does not throw: it returns a
      version whose number is unrelated to the components. */
  lemma WrappedVersionAccepted(version: string, major: Int32, minor: Int32, patch: Int32)
    requires ReadsAs(version, major, minor, patch)
    requires 0x1_0000_0000 <= OldEncode(major, minor, patch) <= 0x1_0000_0000 + INT_MAX
    ensures GetBukkitVersion(Ref(version))
         == Ok(Version(OldEncode(major, minor, patch) - 0x1_0000_0000))
  {
    EncodingWrapsToNonNegative(version, major, minor, patch);
  }

  /** Any non-negative encoding, wrapped or not, becomes the version of
      that number. */
  lemma BukkitVersionOfEncoding(v: Nullable<string>, n: NonNegInt32)
    requires ParseVersion(v) == Ok(n)
    ensures GetBukkitVersion(v) == Ok(Version(n))
  {
  }

  /** `"429497.0.0"` is read as version 2704. */
  lemma WrappedVersionExample()
    ensures GetBukkitVersion(Ref(Join([ShowNat(429497), ShowNat(0), ShowNat(0)], '.')))
         == Ok(Version(2704))
  {
    FormattedReadsAs(429497, 0, 0);
    WrappedVersionAccepted(Join([ShowNat(429497), ShowNat(0), ShowNat(0)], '.'), 429497, 0, 0);
  }

  /** The decimal text of a negative major component followed by two
      non-negative ones reads as those components. */
  lemma NegativeFormattedReadsAs(major: nat, minor: nat, patch: nat)
    requires 0 < major <= -INT_MIN && minor <= INT_MAX && patch <= INT_MAX
    ensures ReadsAs(Join(["-" + ShowNat(major), ShowNat(minor), ShowNat(patch)], '.'),
                    -(major as int), minor, patch)
  {
    var xs := ["-" + ShowNat(major), ShowNat(minor), ShowNat(patch)];
    ShowNatHasNoPunctuation(major);
    ShowNatHasNoPunctuation(minor);
    ShowNatHasNoPunctuation(patch);
    assert xs[0][0] == '-' && xs[0][1..] == ShowNat(major);
    assert '.' !in xs[0];
    SplitJoinThree(xs[0], xs[1], xs[2]);
    ParseIntNegated(major);
    ParseIntShowNat(minor);
    ParseIntShowNat(patch);
    PiecesReadAs(Join(xs, '.'), xs, -(major as int), minor, patch);
  }

  /** Components whose encoding lies below `Integer.MIN_VALUE`, down to
      -2^32, wrap up into the non-negative range: `"-214749.0.0"` encodes
      to -2147490000 + 2^32. */
  lemma EncodingUnderflowWraps(version: string, major: Int32, minor: Int32, patch: Int32)
    requires ReadsAs(version, major, minor, patch)
    requires -0x1_0000_0000 <= OldEncode(major, minor, patch) < INT_MIN
    ensures ParseVersion(Ref(version)).Ok?
    ensures ParseVersion(Ref(version)).value == OldEncode(major, minor, patch) + 0x1_0000_0000
  {
    ReadsAsEncodes(version, major, minor, patch);
    ParsedUnderflow(version, OldEncode(major, minor, patch));
  }

  /** A parse holding the wrap of a value below `Integer.MIN_VALUE`, down
      to -2^32, holds that value plus 2^32. */
  lemma ParsedUnderflow(version: string, e: int)
    requires ParseVersion(Ref(version)) == Ok(Wrap32(e))
    requires -0x1_0000_0000 <= e < INT_MIN
    ensures ParseVersion(Ref(version)).Ok?
    ensures ParseVersion(Ref(version)).value == e + 0x1_0000_0000
  {
    Wrap32Underflow(e);
  }

  /** For such components `getBukkitVersion` does not throw, although the
      major component is negative: it returns the version of the
      encoding plus 2^32. */
  lemma UnderflowVersionAccepted(version: string, major: Int32, minor: Int32, patch: Int32)
    requires ReadsAs(version, major, minor, patch)
    requires -0x1_0000_0000 <= OldEncode(major, minor, patch) < INT_MIN
    ensures GetBukkitVersion(Ref(version)).Ok?
    ensures GetBukkitVersion(Ref(version)).value.GetNumber()
         == OldEncode(major, minor, patch) + 0x1_0000_0000
  {
    EncodingUnderflowWraps(version, major, minor, patch);
  }

  /** `"-214749.0.0"` is read as version 2147477296. */
  lemma UnderflowVersionExample()
    ensures GetBukkitVersion(Ref(Join(["-" + ShowNat(214749), ShowNat(0), ShowNat(0)], '.')))
         == Ok(Version(2147477296))
  {
    var v := Join(["-" + ShowNat(214749), ShowNat(0), ShowNat(0)], '.');
    NegativeFormattedReadsAs(214749, 0, 0);
    UnderflowVersionAccepted(v, -214749, 0, 0);
  }

  /** A negative major component does not by itself make the encoding
      negative: in `"-1.200"` the minor component outweighs it, and
      `getBukkitVersion` returns version 10000. */
  lemma NegativeMajorOutweighed()
    ensures GetBukkitVersion(Ref(Join(["-" + ShowNat(1), ShowNat(200)], '.')))
         == Ok(Version(10000))
  {
    var xs := ["-" + ShowNat(1), ShowNat(200)];
    NegativeMajorSplits(1, 200);
    ParseIntNegated(1);
    ParseIntShowNat(200);
    ParsePiecesOfPair(xs, -1, 200);
    assert ParseVersion(Ref(Join(xs, '.'))) == Ok(10000);
  }

  // ---------------------------------------------------------------------
  // getReleaseVersion: the release lookup
  // ---------------------------------------------------------------------

  /** The release tag names `r`, ignoring case. */
  predicate NamesRelease(context: string, r: Release) {
    EqualsIgnoreCase(r.Name(), context)
  }

  /** The loop over `Release.values()` from position `from`: the position
      of the first constant whose name equals `context` ignoring case, or
      `|releases|` when none does. */
  function FirstMatch(releases: seq<Release>, context: string, from: nat): (i: nat)
    requires from <= |releases|
    ensures from <= i <= |releases|
    ensures i < |releases| ==> NamesRelease(context, releases[i])
    ensures forall j | from <= j < i :: !NamesRelease(context, releases[j])
    decreases |releases| - from
  {
    if from == |releases| then from
    else if NamesRelease(context, releases[from]) then from
    else FirstMatch(releases, context, from + 1)
  }

  /** `getReleaseVersion`, given the tag `getRelease()` would return:
      `null` selects `OLDER`, a tag naming a constant selects that constant,
      any other tag selects `LATER`; the selected value then goes through
      `new Version`, which throws for `OLDER` and every negative ordinal. */
  function GetReleaseVersion(context: Nullable<string>): (r: Result<Version>)
    ensures context.Null? ==> r == Err(IllegalArgument(NegativeVersion, Null))
    ensures context.Ref? && (forall k | 0 <= k < |VALUES| :: !NamesRelease(context.get, VALUES[k])) ==>
      r == Ok(Version(INT_MAX))
    ensures context.Ref? ==>
      forall k | 0 <= k < |VALUES| :: NamesRelease(context.get, VALUES[k]) ==>
        r == NewVersion(VALUES[k].GetValue())
  {
    if context.Null? then NewVersion(OLDER.GetValue())
    else
      var i := FirstMatch(VALUES, context.get, 0);
      if i < |VALUES| then
        FirstMatchIsOnlyMatch(context.get, i);
        NewVersion(VALUES[i].GetValue())
      else NewVersion(LATER.GetValue())
  }

  /** A matching constant is the only one: names differ even ignoring case. */
  lemma FirstMatchIsOnlyMatch(context: string, i: nat)
    requires i < |VALUES| && NamesRelease(context, VALUES[i])
    ensures forall k | 0 <= k < |VALUES| :: NamesRelease(context, VALUES[k]) ==> k == i
  {
    forall k | 0 <= k < |VALUES| && NamesRelease(context, VALUES[k]) ensures k == i {
      EqualsIgnoreCaseIsEquivalence(VALUES[k].Name(), context, VALUES[i].Name());
      EqualsIgnoreCaseIsEquivalence(VALUES[i].Name(), context, VALUES[k].Name());
      NamesDistinctIgnoringCase(VALUES[k], VALUES[i]);
      ValuesListsEachOnce(VALUES[k]);
    }
  }

  /** The lookup yields a version exactly when a tag is present and it
      names no constant with a negative ordinal (`OLDER`, `V1_6_*`, `V1_5_*`). */
  lemma ReleaseVersionSucceeds(context: Nullable<string>)
    ensures GetReleaseVersion(context).Ok? <==>
      context.Ref? && forall k | 0 <= k < |VALUES| :: NamesRelease(context.get, VALUES[k]) ==> VALUES[k].GetValue() >= 0
  {
    if context.Ref? {
      var i := FirstMatch(VALUES, context.get, 0);
      if i < |VALUES| {
        assert NamesRelease(context.get, VALUES[i]);
      }
    }
  }

  /** A tag of the shape the server package uses, `v1_8_R3`, selects its
      constant. */
  lemma NewestReleaseLookup()
    ensures GetReleaseVersion(Ref("v1_8_R3")) == Ok(Version(6))
  {
    assert NamesRelease("v1_8_R3", VALUES[1]);
  }

  /** `v1_7_R1` selects ordinal 0, the oldest release `Version` accepts. */
  lemma OrdinalZeroLookup()
    ensures GetReleaseVersion(Ref("v1_7_R1")) == Ok(Version(0))
  {
    assert NamesRelease("v1_7_R1", VALUES[7]);
  }

  /** Every seven-character name carries its minor version, `5` to `8`, at
      position 3, so a tag with another character there names no constant. */
  lemma UnlistedMinorNamesNothing(context: string, r: Release)
    requires |context| == 7 && context[3] !in "5678"
    ensures !NamesRelease(context, r)
  {
    var name := r.Name();
    if |name| == 7 {
      assert name[3] in "5678";
      assert ToUpperAscii(name[3]) == name[3];
      assert ToUpperAscii(context[3]) != name[3];
    }
  }

  /** A tag of the table's shape whose minor version is not in the table
      selects `LATER`. */
  lemma UnlistedMinorSelectsLater(context: string)
    requires |context| == 7 && context[3] !in "5678"
    ensures GetReleaseVersion(Ref(context)) == Ok(Version(INT_MAX))
  {
    forall k | 0 <= k < |VALUES| ensures !NamesRelease(context, VALUES[k]) {
      UnlistedMinorNamesNothing(context, VALUES[k]);
    }
  }

  /** A newer tag such as `v1_9_R1` selects `LATER`. */
  lemma UnknownReleaseLookup()
    ensures GetReleaseVersion(Ref("v1_9_R1")) == Ok(Version(INT_MAX))
  {
    UnlistedMinorSelectsLater("v1_9_R1");
  }

  /** As written, the `null` fallback and every negative ordinal throw:
      `OLDER` and `V1_6_R3` cannot be turned into a `Version`. */
  lemma ReleaseLookupThrowsBelowZero()
    ensures GetReleaseVersion(Null) == Err(IllegalArgument(NegativeVersion, Null))
    ensures GetReleaseVersion(Ref("v1_6_R3")) == Err(IllegalArgument(NegativeVersion, Null))
    ensures GetReleaseVersion(Ref("older")) == Err(IllegalArgument(NegativeVersion, Null))
  {
    assert NamesRelease("v1_6_R3", VALUES[8]);
    assert NamesRelease("older", VALUES[14]);
  }
}
