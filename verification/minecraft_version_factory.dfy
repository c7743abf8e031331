/** `MinecraftVersionFactory`: the server's Minecraft version read with
    `VersionParser`, and its internal revision read from the server
    package name (`org.bukkit.craftbukkit.v1_8_R3` gives 1.8.3). The host
    strings (`Bukkit.getBukkitVersion()` and the server class's package
    name) are parameters here. */
module MinecraftVersionFactory {
  import opened JavaLang
  import opened JavaStrings
  import opened Versions
  import VersionParser

  /** `createMinecraftVersion`: the host version string through
      `VersionParser.parseVersion`. */
  function CreateMinecraftVersion(bukkitVersion: Nullable<string>): (r: Result<Version>)
    ensures r.Ok? <==> VersionParser.ParseVersionToNumber(bukkitVersion).Ok?
    ensures r.Ok? ==> r.value.GetNumber() == VersionParser.ParseVersionToNumber(bukkitVersion).value
    ensures r.Ok? ==> r.value.GetNumber() <= VersionParser.MAX_ENCODED
    ensures r.Err? ==> r.error == VersionParser.ParseVersionToNumber(bukkitVersion).error
  {
    VersionParser.ParseVersion(bukkitVersion)
  }

  /** The version text rebuilt from the three `_` pieces of a revision tag:
      the first two as they are, the third without its leading character
      (the `R` of `R3`). */
  function RebuiltVersion(parts: seq<string>): string
    requires |parts| == 3 && parts[2] != ""
  {
    Join([parts[0], parts[1], parts[2][1..]], '.')
  }

  /** `createMinecraftRevision`, given the server class's package name:
      the fourth `.` piece is the tag; its first character is dropped and
      the rest must split into exactly three `_` pieces. A missing fourth
      piece throws `ArrayIndexOutOfBoundsException`, an empty one
      `StringIndexOutOfBoundsException`. */
  function CreateMinecraftRevision(packageName: string): (r: Result<Version>)
    ensures |Split(packageName, '.')| < 4 ==> r == Err(ArrayIndexOutOfBounds)
    ensures |Split(packageName, '.')| >= 4 && Split(packageName, '.')[3] == "" ==>
      r == Err(StringIndexOutOfBounds)
    ensures |Split(packageName, '.')| >= 4 && Split(packageName, '.')[3] != "" ==>
      var parts := Split(Split(packageName, '.')[3][1..], '_');
      && (|parts| != 3 ==> r == Err(IllegalArgument(RevisionShape, Null)))
      && (|parts| == 3 ==> parts[2] != "" && r == VersionParser.ParseVersion(Ref(RebuiltVersion(parts))))
    ensures r.Ok? ==> r.value.GetNumber() <= VersionParser.MAX_ENCODED
  {
    var segments := Split(packageName, '.');
    if |segments| < 4 then Err(ArrayIndexOutOfBounds)
    else
      var revision := segments[3];
      if revision == "" then Err(StringIndexOutOfBounds)
      else
        var parts := Split(revision[1..], '_');
        if |parts| != 3 then Err(IllegalArgument(RevisionShape, Null))
        else VersionParser.ParseVersion(Ref(RebuiltVersion(parts)))
  }

  /** The revision tag the server package carries for a release:
      `v<major>_<minor>_R<revision>`. */
  function RevisionTag(t: VersionParser.Triple): string
    requires t.Supported()
  {
    "v" + Join([ShowNat(t.major), ShowNat(t.minor), "R" + ShowNat(t.patch)], '_')
  }

  /** No `.` occurs in a revision tag, so it stays one package segment. */
  lemma RevisionTagIsOneSegment(t: VersionParser.Triple)
    requires t.Supported()
    ensures '.' !in RevisionTag(t) && RevisionTag(t) != ""
  {
    var pieces := [ShowNat(t.major), ShowNat(t.minor), "R" + ShowNat(t.patch)];
    ShowNatHasNoPunctuation(t.major);
    ShowNatHasNoPunctuation(t.minor);
    ShowNatHasNoPunctuation(t.patch);
    assert '.' !in pieces[2];
    JoinAvoids(pieces, '_', '.');
  }

  /** The tag, with its `v` dropped, splits back into its three pieces and
      rebuilds the plain `major.minor.revision` text. */
  lemma RevisionTagRebuilds(t: VersionParser.Triple)
    requires t.Supported()
    ensures var parts := Split(RevisionTag(t)[1..], '_');
      |parts| == 3 && parts[2] != "" && RebuiltVersion(parts) == VersionParser.Format(t)
  {
    var pieces := [ShowNat(t.major), ShowNat(t.minor), "R" + ShowNat(t.patch)];
    ShowNatHasNoPunctuation(t.major);
    ShowNatHasNoPunctuation(t.minor);
    ShowNatHasNoPunctuation(t.patch);
    assert '_' !in pieces[2];
    assert RevisionTag(t)[1..] == Join(pieces, '_');
    SplitJoin(pieces, '_');
    assert pieces[2][1..] == ShowNat(t.patch);
  }

  /** Round trip: the package name of a release with a supported
      `major.minor` and revision reads back as that triple's number,
      whatever the three leading segments are. */
  lemma RevisionOfPackageName(a: string, b: string, c: string, t: VersionParser.Triple)
    requires '.' !in a && '.' !in b && '.' !in c && t.Supported()
    ensures CreateMinecraftRevision(Join([a, b, c, RevisionTag(t)], '.'))
         == Ok(Version(VersionParser.Encode(t)))
  {
    var segments := [a, b, c, RevisionTag(t)];
    RevisionTagIsOneSegment(t);
    SplitJoin(segments, '.');
    RevisionTagRebuilds(t);
    VersionParser.ParseFormatted(t);
  }

  /** `org.bukkit.craftbukkit.<tag>` with the tag of 1.8 revision 3 reads
      as 1008003. */
  lemma CraftBukkitRevisionExample()
    ensures CreateMinecraftRevision(Join(["org", "bukkit", "craftbukkit", RevisionTag(VersionParser.Triple(1, 8, 3))], '.'))
         == Ok(Version(1008003))
  {
    RevisionOfPackageName("org", "bukkit", "craftbukkit", VersionParser.Triple(1, 8, 3));
  }

  /** The tag of 1.8 revision 3 is `v1_8_R3`. */
  lemma RevisionTagExample()
    ensures RevisionTag(VersionParser.Triple(1, 8, 3)) == "v1_8_R3"
  {
    assert ShowNat(1) == "1" && ShowNat(8) == "8" && ShowNat(3) == "3";
    assert "R" + "3" == "R3";
    JoinCons("8", ["R3"], '_');
    JoinCons("1", ["8", "R3"], '_');
    assert ["1"] + ["8", "R3"] == ["1", "8", "R3"] && ["8"] + ["R3"] == ["8", "R3"];
  }

  /** A host version string of the usual shape, such as
      `1.8.8-R0.1-SNAPSHOT`, reads as its leading `major.minor.patch`: the
      build suffix of the third piece and everything after it are
      ignored. */
  lemma HostVersionString(t: VersionParser.Triple, build: string, rest: string)
    requires t.Supported() && '.' !in build
    ensures CreateMinecraftVersion(Ref(Join([ShowNat(t.major), ShowNat(t.minor),
                                             ShowNat(t.patch) + "-" + build, rest], '.')))
         == Ok(Version(VersionParser.Encode(t)))
  {
    var a, b, c := ShowNat(t.major), ShowNat(t.minor), ShowNat(t.patch);
    ShowNatHasNoPunctuation(t.major);
    ShowNatHasNoPunctuation(t.minor);
    ShowNatHasNoPunctuation(t.patch);
    var d := c + "-" + build;
    assert '.' !in d;
    calc {
      VersionParser.ParseVersionToNumber(Ref(Join([a, b, d, rest], '.')));
      { JoinAppend([a, b, d], [rest], '.');
        assert [a, b, d] + [rest] == [a, b, d, rest]; }
      VersionParser.ParseVersionToNumber(Ref(Join([a, b, d], '.') + "." + rest));
      { VersionParser.LaterComponentsIgnored(a, b, d, rest); }
      VersionParser.ParseVersionToNumber(Ref(Join([a, b, d], '.')));
      { VersionParser.PatchSuffixIgnored(a, b, c, build); }
      VersionParser.ParseVersionToNumber(Ref(Join([a, b, c], '.')));
      { VersionParser.ParseFormatted(t); }
      Ok(VersionParser.Encode(t));
    }
  }

  /** A package name without a fourth segment, such as a bare
      `org.bukkit.craftbukkit`, throws `ArrayIndexOutOfBoundsException`. */
  lemma UnversionedPackageName(a: string, b: string, c: string)
    requires '.' !in a && '.' !in b && '.' !in c && c != ""
    ensures CreateMinecraftRevision(Join([a, b, c], '.')) == Err(ArrayIndexOutOfBounds)
  {
    SplitJoin([a, b, c], '.');
  }

  /** A tag with only two `_` pieces, such as `v1_8`, throws
      `IllegalArgumentException`. */
  lemma TwoPieceTagRejected(a: string, b: string, c: string, x: string, y: string)
    requires '.' !in a && '.' !in b && '.' !in c
    requires '.' !in x && '.' !in y && '_' !in x && '_' !in y && y != ""
    ensures CreateMinecraftRevision(Join([a, b, c, "v" + Join([x, y], '_')], '.'))
         == Err(IllegalArgument(RevisionShape, Null))
  {
    var tag := "v" + Join([x, y], '_');
    JoinAvoids([x, y], '_', '.');
    SplitJoin([a, b, c, tag], '.');
    assert tag[1..] == Join([x, y], '_');
    SplitJoin([x, y], '_');
  }
}
