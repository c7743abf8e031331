/** The `Release` enum: internal server releases, each with a small
    ordinal, bracketed by the sentinels `LATER` (newer than any known
    release) and `OLDER` (older than any known release). */
module Releases {
  import opened JavaLang
  import opened JavaStrings

  datatype Release =
    | LATER
    | V1_8_R3 | V1_8_R2 | V1_8_R1
    | V1_7_R4 | V1_7_R3 | V1_7_R2 | V1_7_R1
    | V1_6_R3 | V1_6_R2 | V1_6_R1
    | V1_5_R3 | V1_5_R2 | V1_5_R1
    | OLDER
  {
    /** `name()`: the constant's identifier, upper-case, and starting with
        `V` exactly for the named releases. */
    function Name(): (n: string)
      ensures NoLowerCase(n)
      ensures |n| >= 5 && (n[0] == 'V' <==> this != LATER && this != OLDER)
    {
      match this
      case LATER => "LATER"
      case V1_8_R3 => "V1_8_R3"
      case V1_8_R2 => "V1_8_R2"
      case V1_8_R1 => "V1_8_R1"
      case V1_7_R4 => "V1_7_R4"
      case V1_7_R3 => "V1_7_R3"
      case V1_7_R2 => "V1_7_R2"
      case V1_7_R1 => "V1_7_R1"
      case V1_6_R3 => "V1_6_R3"
      case V1_6_R2 => "V1_6_R2"
      case V1_6_R1 => "V1_6_R1"
      case V1_5_R3 => "V1_5_R3"
      case V1_5_R2 => "V1_5_R2"
      case V1_5_R1 => "V1_5_R1"
      case OLDER => "OLDER"
    }

    /** `getValue()`: the ordinal the constant was declared with. Only the
        sentinels reach the ends of the `int` range; the named releases
        lie in [-6, 6]. */
    function GetValue(): (v: Int32)
      ensures v == INT_MAX <==> this == LATER
      ensures v == INT_MIN <==> this == OLDER
      ensures this != LATER && this != OLDER ==> -6 <= v <= 6
    {
      match this
      case LATER => INT_MAX
      case V1_8_R3 => 6
      case V1_8_R2 => 5
      case V1_8_R1 => 4
      case V1_7_R4 => 3
      case V1_7_R3 => 2
      case V1_7_R2 => 1
      case V1_7_R1 => 0
      case V1_6_R3 => -1
      case V1_6_R2 => -2
      case V1_6_R1 => -3
      case V1_5_R3 => -4
      case V1_5_R2 => -5
      case V1_5_R1 => -6
      case OLDER => INT_MIN
    }
  }

  /** `Release.values()`: every constant, in declaration order. */
  const VALUES: seq<Release> := [
    LATER,
    V1_8_R3, V1_8_R2, V1_8_R1,
    V1_7_R4, V1_7_R3, V1_7_R2, V1_7_R1,
    V1_6_R3, V1_6_R2, V1_6_R1,
    V1_5_R3, V1_5_R2, V1_5_R1,
    OLDER
  ]

  /** The constant a name belongs to, if any: the inverse of `Name`. A
      helper for stating that names are distinct; unlike the implicit
      `Release.valueOf`, an unknown name gives `Null` rather than throwing,
      and the library never looks a constant up by its exact name. */
  function FromName(name: string): (r: Nullable<Release>)
    ensures r.Ref? ==> r.get.Name() == name
  {
    if name == "LATER" then Ref(LATER)
    else if name == "V1_8_R3" then Ref(V1_8_R3)
    else if name == "V1_8_R2" then Ref(V1_8_R2)
    else if name == "V1_8_R1" then Ref(V1_8_R1)
    else if name == "V1_7_R4" then Ref(V1_7_R4)
    else if name == "V1_7_R3" then Ref(V1_7_R3)
    else if name == "V1_7_R2" then Ref(V1_7_R2)
    else if name == "V1_7_R1" then Ref(V1_7_R1)
    else if name == "V1_6_R3" then Ref(V1_6_R3)
    else if name == "V1_6_R2" then Ref(V1_6_R2)
    else if name == "V1_6_R1" then Ref(V1_6_R1)
    else if name == "V1_5_R3" then Ref(V1_5_R3)
    else if name == "V1_5_R2" then Ref(V1_5_R2)
    else if name == "V1_5_R1" then Ref(V1_5_R1)
    else if name == "OLDER" then Ref(OLDER)
    else Null
  }

  /** Every constant is recovered from its name, so names are distinct. */
  lemma FromNameOfName(r: Release)
    ensures FromName(r.Name()) == Ref(r)
  {
  }

  /** `values()` lists every constant exactly once. */
  lemma ValuesListsEachOnce(r: Release)
    ensures r in VALUES
    ensures forall i, j | 0 <= i < j < |VALUES| :: VALUES[i] != VALUES[j]
  {
  }

  /** `LATER` comes first with `Integer.MAX_VALUE`; `OLDER` comes last with
      `Integer.MIN_VALUE`. */
  lemma SentinelsBracketTheTable()
    ensures VALUES[0] == LATER && LATER.GetValue() == INT_MAX
    ensures Last(VALUES) == OLDER && OLDER.GetValue() == INT_MIN
  {
  }

  /** The named releases run from `V1_8_R3 = 6` down to `V1_5_R1 = -6`,
      one less at each step of declaration order, strictly between the
      sentinels. */
  lemma NamedReleasesCountDown()
    ensures |VALUES| == 15
    ensures forall i | 1 <= i <= 13 :: VALUES[i].GetValue() == 7 - i
    ensures forall i | 1 <= i <= 13 :: OLDER.GetValue() < VALUES[i].GetValue() < LATER.GetValue()
  {
  }

  /** Declaration order is strictly descending order of value. */
  lemma DeclarationOrderDescends(i: nat, j: nat)
    requires i < j < |VALUES|
    ensures VALUES[i].GetValue() > VALUES[j].GetValue()
  {
    NamedReleasesCountDown();
  }

  /** No name holds a lower-case letter. */
  lemma NameIsUpperCase(r: Release)
    ensures NoLowerCase(r.Name())
  {
  }

  /** Even ignoring case, two constants' names agree only for the same
      constant, so a case-insensitive lookup matches at most one. */
  lemma NamesDistinctIgnoringCase(a: Release, b: Release)
    ensures EqualsIgnoreCase(a.Name(), b.Name()) <==> a == b
  {
    NameIsUpperCase(a);
    NameIsUpperCase(b);
    EqualsIgnoreCaseOfUpper(a.Name(), b.Name());
    if a.Name() == b.Name() {
      FromNameOfName(a);
      FromNameOfName(b);
    }
  }
}
