/** The immutable, ordered `Version` value: a non-negative `int` with
    comparison predicates against a raw `int` or against another, possibly
    `null`, `Version`. Order, equality and hash depend on the value alone. */
module Versions {
  import opened JavaLang

  /** A version number; higher values are more recent. The field type
      carries the constructor's invariant `value >= 0`. */
  datatype Version = Version(value: NonNegInt32) {

    /** Every version is later than a negative number; against a number
        that is a version, this is a positive `compareTo`. */
    predicate IsLaterThan(other: Int32)
      ensures other < 0 ==> IsLaterThan(other)
      ensures other >= 0 ==> (IsLaterThan(other) <==> CompareTo(Version(other)) > 0)
    {
      value > other
    }

    /** False for a `null` comparand, otherwise a positive `compareTo`. */
    predicate IsLaterThanVersion(other: Nullable<Version>)
      ensures other.Null? ==> !IsLaterThanVersion(other)
      ensures other.Ref? ==> (IsLaterThanVersion(other) <==> CompareTo(other.get) > 0)
    {
      other.Ref? && IsLaterThan(other.get.value)
    }

    /** Every version is at least zero; against a number that is a version,
        this is a non-negative `compareTo`. */
    predicate IsLaterThanOrEqual(other: Int32)
      ensures other <= 0 ==> IsLaterThanOrEqual(other)
      ensures other >= 0 ==> (IsLaterThanOrEqual(other) <==> CompareTo(Version(other)) >= 0)
    {
      value >= other
    }

    /** False for a `null` comparand, otherwise a non-negative `compareTo`. */
    predicate IsLaterThanOrEqualVersion(other: Nullable<Version>)
      ensures other.Null? ==> !IsLaterThanOrEqualVersion(other)
      ensures other.Ref? ==> (IsLaterThanOrEqualVersion(other) <==> CompareTo(other.get) >= 0)
    {
      other.Ref? && IsLaterThanOrEqual(other.get.value)
    }

    /** Never equal to a negative number; otherwise equal exactly to this
        version's own number. */
    predicate IsEqual(other: Int32)
      ensures other < 0 ==> !IsEqual(other)
      ensures other >= 0 ==> (IsEqual(other) <==> Version(other) == this)
    {
      value == other
    }

    /** True exactly for a reference to an equal version. */
    predicate IsEqualVersion(other: Nullable<Version>)
      ensures IsEqualVersion(other) <==> other == Ref(this)
    {
      other.Ref? && IsEqual(other.get.value)
    }

    /** No version is older than zero or a negative number; against a
        number that is a version, this is a negative `compareTo`. */
    predicate IsOlderThan(other: Int32)
      ensures other <= 0 ==> !IsOlderThan(other)
      ensures other >= 0 ==> (IsOlderThan(other) <==> CompareTo(Version(other)) < 0)
    {
      value < other
    }

    /** False for a `null` comparand, otherwise a negative `compareTo`. */
    predicate IsOlderThanVersion(other: Nullable<Version>)
      ensures other.Null? ==> !IsOlderThanVersion(other)
      ensures other.Ref? ==> (IsOlderThanVersion(other) <==> CompareTo(other.get) < 0)
    {
      other.Ref? && IsOlderThan(other.get.value)
    }

    /** No version is at most a negative number; against a number that is
        a version, this is a non-positive `compareTo`. */
    predicate IsOlderThanOrEqual(other: Int32)
      ensures other < 0 ==> !IsOlderThanOrEqual(other)
      ensures other >= 0 ==> (IsOlderThanOrEqual(other) <==> CompareTo(Version(other)) <= 0)
    {
      value <= other
    }

    /** False for a `null` comparand, otherwise a non-positive `compareTo`. */
    predicate IsOlderThanOrEqualVersion(other: Nullable<Version>)
      ensures other.Null? ==> !IsOlderThanOrEqualVersion(other)
      ensures other.Ref? ==> (IsOlderThanOrEqualVersion(other) <==> CompareTo(other.get) <= 0)
    {
      other.Ref? && IsOlderThanOrEqual(other.get.value)
    }

    /** The number is non-negative and rebuilds this very version. */
    function GetNumber(): (n: Int32)
      ensures n >= 0 && Version(n) == this
    {
      value
    }

    /** `Integer.compare(this.value, other.value)`: -1, 0 or 1, and zero
        exactly for the same version. */
    function CompareTo(other: Version): (r: int)
      ensures -1 <= r <= 1
      ensures r == 0 <==> this == other
    {
      if value < other.value then -1 else if value == other.value then 0 else 1
    }

    /** `equals(Object)` restricted to `Version` and `null` comparands
        (an object of another class is never equal): true exactly for a
        reference to an equal version, and then the hash codes agree. */
    predicate Equals(o: Nullable<Version>)
      ensures Equals(o) <==> o == Ref(this)
      ensures Equals(o) ==> HashCode() == o.get.HashCode()
    {
      o.Ref? && value == o.get.value
    }

    /** The hash is the number itself, so distinct versions never collide. */
    function HashCode(): (h: Int32)
      ensures h >= 0 && Version(h) == this
    {
      value
    }
  }

  /** `new Version(value)`: rejects a negative value. */
  function NewVersion(value: Int32): (r: Result<Version>)
    ensures r.Ok? <==> value >= 0
    ensures r.Ok? ==> r.value.GetNumber() == value
    ensures r.Err? ==> r.error == IllegalArgument(NegativeVersion, Null)
  {
    if 0 > value then Err(IllegalArgument(NegativeVersion, Null)) else Ok(Version(value))
  }

  /** The `int` overloads are the five integer comparisons on the number. */
  lemma IntPredicatesCompareNumber(v: Version, n: Int32)
    ensures v.IsLaterThan(n) <==> v.GetNumber() > n
    ensures v.IsLaterThanOrEqual(n) <==> v.GetNumber() >= n
    ensures v.IsEqual(n) <==> v.GetNumber() == n
    ensures v.IsOlderThan(n) <==> v.GetNumber() < n
    ensures v.IsOlderThanOrEqual(n) <==> v.GetNumber() <= n
  {
  }

  /** Against a `null` comparand every `Version` predicate is false. */
  lemma NullComparandIsFalse(v: Version)
    ensures !v.IsLaterThanVersion(Null)
    ensures !v.IsLaterThanOrEqualVersion(Null)
    ensures !v.IsEqualVersion(Null)
    ensures !v.IsOlderThanVersion(Null)
    ensures !v.IsOlderThanOrEqualVersion(Null)
    ensures !v.Equals(Null)
  {
  }

  /** Against a present comparand each `Version` predicate is its `int`
      overload applied to the comparand's number. */
  lemma VersionPredicatesUseNumber(v: Version, w: Version)
    ensures v.IsLaterThanVersion(Ref(w)) == v.IsLaterThan(w.GetNumber())
    ensures v.IsLaterThanOrEqualVersion(Ref(w)) == v.IsLaterThanOrEqual(w.GetNumber())
    ensures v.IsEqualVersion(Ref(w)) == v.IsEqual(w.GetNumber())
    ensures v.IsOlderThanVersion(Ref(w)) == v.IsOlderThan(w.GetNumber())
    ensures v.IsOlderThanOrEqualVersion(Ref(w)) == v.IsOlderThanOrEqual(w.GetNumber())
  {
  }

  /** Between two versions exactly one of later, equal and older holds. */
  lemma Trichotomy(a: Version, b: Version)
    ensures a.IsLaterThanVersion(Ref(b)) || a.IsEqualVersion(Ref(b)) || a.IsOlderThanVersion(Ref(b))
    ensures !(a.IsLaterThanVersion(Ref(b)) && a.IsEqualVersion(Ref(b)))
    ensures !(a.IsLaterThanVersion(Ref(b)) && a.IsOlderThanVersion(Ref(b)))
    ensures !(a.IsEqualVersion(Ref(b)) && a.IsOlderThanVersion(Ref(b)))
  {
  }

  /** The "or equal" predicates are the disjunctions they are named after,
      `null` comparand included. */
  lemma OrEqualIsDisjunction(a: Version, b: Nullable<Version>)
    ensures a.IsLaterThanOrEqualVersion(b) <==> a.IsLaterThanVersion(b) || a.IsEqualVersion(b)
    ensures a.IsOlderThanOrEqualVersion(b) <==> a.IsOlderThanVersion(b) || a.IsEqualVersion(b)
  {
  }

  /** Later and older are converses of each other. */
  lemma LaterIsConverseOfOlder(a: Version, b: Version)
    ensures a.IsLaterThanVersion(Ref(b)) <==> b.IsOlderThanVersion(Ref(a))
    ensures a.IsLaterThanOrEqualVersion(Ref(b)) <==> b.IsOlderThanOrEqualVersion(Ref(a))
  {
  }

  /** The sign of `compareTo` is the integer order of the numbers, and it is
      zero exactly for the same version. */
  lemma CompareToFollowsNumbers(a: Version, b: Version)
    ensures a.CompareTo(b) < 0 <==> a.GetNumber() < b.GetNumber()
    ensures a.CompareTo(b) > 0 <==> a.GetNumber() > b.GetNumber()
    ensures a.CompareTo(b) == 0 <==> a == b
  {
  }

  /** `compareTo` is antisymmetric. */
  lemma CompareToAntisymmetric(a: Version, b: Version)
    ensures a.CompareTo(b) == -b.CompareTo(a)
  {
  }

  /** `compareTo` is transitive, so it is a total order on versions. */
  lemma CompareToTransitive(a: Version, b: Version, c: Version)
    ensures a.CompareTo(b) <= 0 && b.CompareTo(c) <= 0 ==> a.CompareTo(c) <= 0
    ensures a.CompareTo(b) < 0 && b.CompareTo(c) < 0 ==> a.CompareTo(c) < 0
  {
  }

  /** `equals` is value equality, so equal versions are interchangeable,
      and `hashCode` agrees with it. */
  lemma EqualsIsValueEquality(a: Version, b: Version)
    ensures a.Equals(Ref(b)) <==> a.GetNumber() == b.GetNumber()
    ensures a.Equals(Ref(b)) <==> a == b
    ensures a.Equals(Ref(b)) <==> b.Equals(Ref(a))
    ensures a.Equals(Ref(b)) ==> a.HashCode() == b.HashCode()
    ensures a.Equals(Ref(a))
  {
  }

  /** `isEqual` agrees with `equals` and with a zero `compareTo`. */
  lemma IsEqualAgreesWithEqualsAndCompare(a: Version, b: Version)
    ensures a.IsEqualVersion(Ref(b)) <==> a.Equals(Ref(b))
    ensures a.IsEqualVersion(Ref(b)) <==> a.CompareTo(b) == 0
    ensures a.IsLaterThanVersion(Ref(b)) <==> a.CompareTo(b) > 0
    ensures a.IsOlderThanVersion(Ref(b)) <==> a.CompareTo(b) < 0
  {
  }

  /** `new Version(1002003).getNumber()` is 1002003; `new Version(-1)` throws. */
  lemma ConstructorExamples()
    ensures NewVersion(1002003) == Ok(Version(1002003))
    ensures NewVersion(1002003).value.GetNumber() == 1002003
    ensures NewVersion(-1) == Err(IllegalArgument(NegativeVersion, Null))
  {
  }
}
