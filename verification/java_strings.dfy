/** The `java.lang.String` and `java.lang.Integer` operations the version
    parsers are built from: `indexOf`, `split` on a single literal
    character, `Integer.parseInt` in base 10 over ASCII digits, and ASCII
    `equalsIgnoreCase`. A string is a sequence of Unicode code points, not
    of UTF-16 code units; the two agree except on supplementary
    characters. */
module JavaStrings {
  import opened JavaLang

  // ---------------------------------------------------------------------
  // indexOf
  // ---------------------------------------------------------------------

  /** `s.indexOf(c)`: the position of the first `c` in `s`, or -1. */
  function IndexOf(s: string, c: char): (i: int)
    ensures -1 <= i < |s|
    ensures i == -1 <==> c !in s
    ensures 0 <= i ==> s[i] == c && c !in s[..i]
    decreases |s|
  {
    if |s| == 0 then -1
    else if s[0] == c then 0
    else
      var j := IndexOf(s[1..], c);
      if j < 0 then -1
      else
        assert s[..j + 1] == [s[0]] + s[1..][..j];
        j + 1
  }

  // ---------------------------------------------------------------------
  // split
  // ---------------------------------------------------------------------

  /** The pieces of `s` between occurrences of `sep`, empty ones included:
      one more piece than there are separators. */
  function Fields(s: string, sep: char): (r: seq<string>)
    ensures |r| >= 1
    ensures forall k | 0 <= k < |r| :: sep !in r[k]
    decreases |s|
  {
    var i := IndexOf(s, sep);
    if i < 0 then [s] else [s[..i]] + Fields(s[i + 1..], sep)
  }

  /** `String.join(sep, xs)`: the pieces glued back with `sep` between them. */
  function Join(xs: seq<string>, sep: char): string
    requires |xs| >= 1
    decreases |xs|
  {
    if |xs| == 1 then xs[0] else xs[0] + [sep] + Join(xs[1..], sep)
  }

  /** True when no piece holds the separator, so `Join` loses nothing. */
  predicate SeparatorFree(xs: seq<string>, sep: char) {
    forall k | 0 <= k < |xs| :: sep !in xs[k]
  }

  /** The last element of a non-empty sequence. */
  function Last<T>(xs: seq<T>): T
    requires |xs| >= 1
  {
    xs[|xs| - 1]
  }

  /** `xs` with every trailing empty string removed. */
  function DropTrailingEmpty(xs: seq<string>): (r: seq<string>)
    ensures |r| <= |xs| && r == xs[..|r|]
    ensures r == [] || Last(r) != ""
    ensures forall k | |r| <= k < |xs| :: xs[k] == ""
    decreases |xs|
  {
    if |xs| == 0 then []
    else if Last(xs) == "" then DropTrailingEmpty(xs[..|xs| - 1])
    else xs
  }

  /** `s.split(sep)` for a separator that is a single literal character
      (`"\\."`, `"_"`): when `sep` does not occur the result is `[s]`
      (so `""` gives `[""]`); otherwise the pieces between separators,
      a leading empty piece kept and trailing empty pieces removed (so a
      string made only of separators gives `[]`). */
  function Split(s: string, sep: char): (r: seq<string>)
    ensures SeparatorFree(r, sep)
    ensures sep !in s ==> r == [s]
    ensures sep in s ==> r == [] || Last(r) != ""
  {
    if sep !in s then [s] else DropTrailingEmpty(Fields(s, sep))
  }

  /** Gluing a first piece onto the join of the rest. */
  lemma JoinCons(x: string, xs: seq<string>, sep: char)
    requires |xs| >= 1
    ensures Join([x] + xs, sep) == x + [sep] + Join(xs, sep)
  {
    assert ([x] + xs)[1..] == xs;
  }

  /** A string is the part before position `i`, its character there, and
      the part after. */
  lemma Reassemble(s: string, i: nat)
    requires i < |s|
    ensures s[..i] + [s[i]] + s[i + 1..] == s
  {
    assert s == s[..i] + s[i..];
  }

  /** Gluing the pieces back restores the string exactly. */
  lemma {:induction false} JoinFields(s: string, sep: char)
    ensures Join(Fields(s, sep), sep) == s
    decreases |s|
  {
    var i := IndexOf(s, sep);
    if i >= 0 {
      var rest := s[i + 1..];
      var tail := Fields(rest, sep);
      calc {
        Join(Fields(s, sep), sep);
        Join([s[..i]] + tail, sep);
        { JoinCons(s[..i], tail, sep); }
        s[..i] + [sep] + Join(tail, sep);
        { JoinFields(rest, sep); }
        s[..i] + [s[i]] + s[i + 1..];
        { Reassemble(s, i); }
        s;
      }
    }
  }

  /** Cutting at the first separator peels off the first piece. */
  lemma FieldsCons(p: string, t: string, sep: char)
    requires sep !in p
    ensures Fields(p + [sep] + t, sep) == [p] + Fields(t, sep)
  {
    var s := p + [sep] + t;
    var i := IndexOf(s, sep);
    assert s[..|p|] == p;
    assert s[|p|] == sep;
    assert i == |p|;
    assert s[..i] == p && s[i + 1..] == t;
  }

  /** Cutting the joined pieces gives the pieces back. */
  lemma {:induction false} FieldsJoin(xs: seq<string>, sep: char)
    requires |xs| >= 1 && SeparatorFree(xs, sep)
    ensures Fields(Join(xs, sep), sep) == xs
    decreases |xs|
  {
    if |xs| == 1 {
      assert sep !in xs[0];
    } else {
      assert SeparatorFree(xs[1..], sep) by {
        forall k | 0 <= k < |xs[1..]| ensures sep !in xs[1..][k] {
          assert xs[1..][k] == xs[k + 1];
        }
      }
      FieldsJoin(xs[1..], sep);
      assert sep !in xs[0];
      FieldsCons(xs[0], Join(xs[1..], sep), sep);
      assert xs == [xs[0]] + xs[1..];
    }
  }

  /** Trailing empties after a non-empty last piece belong to the tail alone. */
  lemma {:induction false} DropTrailingEmptyAppend(xs: seq<string>, ys: seq<string>)
    requires |xs| >= 1 && Last(xs) != ""
    ensures DropTrailingEmpty(xs + ys) == xs + DropTrailingEmpty(ys)
    decreases |ys|
  {
    if |ys| == 0 {
      assert xs + ys == xs;
    } else if Last(ys) == "" {
      assert (xs + ys)[..|xs + ys| - 1] == xs + ys[..|ys| - 1];
      DropTrailingEmptyAppend(xs, ys[..|ys| - 1]);
    } else {
      assert Last(xs + ys) == Last(ys);
    }
  }

  /** A separator in the joined string exists as soon as there are two pieces. */
  lemma JoinHasSeparator(xs: seq<string>, sep: char)
    requires |xs| >= 2
    ensures sep in Join(xs, sep)
  {
    assert Join(xs, sep)[|xs[0]|] == sep;
  }

  /** `split` undoes `join` when no piece holds the separator and the last
      piece is not an empty string that `split` would drop. */
  lemma SplitJoin(xs: seq<string>, sep: char)
    requires |xs| >= 1 && SeparatorFree(xs, sep)
    requires |xs| == 1 || Last(xs) != ""
    ensures Split(Join(xs, sep), sep) == xs
  {
    if |xs| == 1 {
      assert sep !in xs[0];
    } else {
      JoinHasSeparator(xs, sep);
      FieldsJoin(xs, sep);
      DropTrailingEmptyAppend(xs, []);
      assert xs + [] == xs;
    }
  }

  /** Three separator-free pieces, the last non-empty, split back out of
      their join. */
  lemma SplitJoinThree(a: string, b: string, c: string)
    requires '.' !in a && '.' !in b && '.' !in c && c != ""
    ensures Split(Join([a, b, c], '.'), '.') == [a, b, c]
  {
    var xs := [a, b, c];
    assert forall k | 0 <= k < 3 :: xs[k] == a || xs[k] == b || xs[k] == c;
    SplitJoin(xs, '.');
  }

  /** Whatever follows the pieces `xs` and one more separator, `split`
      still starts with `xs`: later text never disturbs earlier pieces,
      and only the pieces of that text survive, trailing empties dropped. */
  lemma SplitJoinThen(xs: seq<string>, t: string, sep: char)
    requires |xs| >= 1 && SeparatorFree(xs, sep) && Last(xs) != ""
    ensures Split(Join(xs, sep) + [sep] + t, sep) == xs + DropTrailingEmpty(Fields(t, sep))
  {
    var s := Join(xs, sep) + [sep] + t;
    var ts := Fields(t, sep);
    assert sep in s by {
      assert s[|Join(xs, sep)|] == sep;
    }
    assert SeparatorFree(xs + ts, sep);
    calc {
      Split(s, sep);
      DropTrailingEmpty(Fields(s, sep));
      { JoinFields(t, sep); JoinAppend(xs, ts, sep); }
      DropTrailingEmpty(Fields(Join(xs + ts, sep), sep));
      { FieldsJoin(xs + ts, sep); }
      DropTrailingEmpty(xs + ts);
      { DropTrailingEmptyAppend(xs, ts); }
      xs + DropTrailingEmpty(ts);
    }
  }

  /** Joining two non-empty lists joins their joins. */
  lemma {:induction false} JoinAppend(xs: seq<string>, ys: seq<string>, sep: char)
    requires |xs| >= 1 && |ys| >= 1
    ensures Join(xs + ys, sep) == Join(xs, sep) + [sep] + Join(ys, sep)
    decreases |xs|
  {
    if |xs| == 1 {
      assert (xs + ys)[1..] == ys;
    } else {
      assert (xs + ys)[1..] == xs[1..] + ys;
      JoinAppend(xs[1..], ys, sep);
    }
  }

  /** A character in no piece and other than the separator is not in the
      joined string. */
  lemma {:induction false} JoinAvoids(xs: seq<string>, sep: char, c: char)
    requires |xs| >= 1 && c != sep
    requires forall k | 0 <= k < |xs| :: c !in xs[k]
    ensures c !in Join(xs, sep)
    decreases |xs|
  {
    if |xs| > 1 {
      JoinAvoids(xs[1..], sep, c);
    }
  }

  // ---------------------------------------------------------------------
  // Integer.parseInt and decimal digits
  // ---------------------------------------------------------------------

  predicate IsDigit(c: char) {
    '0' <= c <= '9'
  }

  predicate AllDigits(s: string) {
    forall k | 0 <= k < |s| :: IsDigit(s[k])
  }

  /** The number a string of ASCII decimal digits denotes, read left to right. */
  function DigitsValue(s: string): nat
    requires AllDigits(s)
    decreases |s|
  {
    if |s| == 0 then 0 else 10 * DigitsValue(s[..|s| - 1]) + (Last(s) as int - '0' as int)
  }

  /** The shapes `Integer.parseInt` accepts before its range check: an
      optional `+` or `-` followed by at least one digit. */
  ghost predicate IsNumeral(s: string) {
    || (|s| >= 1 && AllDigits(s))
    || (|s| >= 2 && (s[0] == '+' || s[0] == '-') && AllDigits(s[1..]))
  }

  /** The value a numeral denotes: its digits read in base ten, negated
      after a leading `-`. */
  ghost function SignedValue(s: string): int
    requires IsNumeral(s)
  {
    if s[0] == '-' then -(DigitsValue(s[1..]) as int)
    else if s[0] == '+' then DigitsValue(s[1..])
    else DigitsValue(s)
  }

  /** `Integer.parseInt(s)` restricted to ASCII digits: an optional sign
      and one or more digits whose value fits an `int`; anything else
      throws `NumberFormatException`. */
  function ParseInt(s: string): (r: Result<Int32>)
    ensures r.Ok? ==> IsNumeral(s)
    ensures r.Err? ==> r.error == NumberFormat
    ensures r.Ok? && r.value < 0 ==> s[0] == '-'
  {
    if |s| == 0 then Err(NumberFormat)
    else
      var digits := if s[0] == '-' || s[0] == '+' then s[1..] else s;
      if |digits| == 0 || !AllDigits(digits) then Err(NumberFormat)
      else
        var magnitude := DigitsValue(digits);
        var n: int := if s[0] == '-' then -(magnitude as int) else magnitude;
        if INT_MIN <= n <= INT_MAX then Ok(n) else Err(NumberFormat)
  }

  /** `Integer.parseInt` accepts exactly the numerals whose value fits an
      `int`, and returns that value. */
  lemma ParseIntMeaning(s: string)
    ensures ParseInt(s).Ok? <==> IsNumeral(s) && INT_MIN <= SignedValue(s) <= INT_MAX
    ensures ParseInt(s).Ok? ==> ParseInt(s).value == SignedValue(s)
  {
  }

  /** A leading `+`, leading zeros and `-0` are accepted; a bare sign is
      not a numeral. */
  lemma ParseIntExamples()
    ensures ParseInt("+5") == Ok(5)
    ensures ParseInt("007") == Ok(7)
    ensures ParseInt("-0") == Ok(0)
    ensures ParseInt("+") == Err(NumberFormat) && ParseInt("-") == Err(NumberFormat)
    ensures ParseInt("5-") == Err(NumberFormat)
  {
    assert "5"[..0] == "" && DigitsValue("5") == 5;
    assert "+5"[1..] == "5";
    assert "0"[..0] == "" && DigitsValue("0") == 0;
    assert "00"[..1] == "0" && DigitsValue("00") == 0;
    assert "007"[..2] == "00" && DigitsValue("007") == 7;
    assert "-0"[1..] == "0";
    assert "+"[1..] == "" && "-"[1..] == "";
    assert !IsDigit("5-"[1]);
  }

  function DigitChar(d: nat): (c: char)
    requires d < 10
    ensures IsDigit(c)
  {
    ('0' as int + d) as char
  }

  /** The shortest decimal text of `n`, as `Integer.toString` writes it. */
  function ShowNat(n: nat): (s: string)
    ensures |s| >= 1 && AllDigits(s)
    decreases n
  {
    if n < 10 then [DigitChar(n)] else ShowNat(n / 10) + [DigitChar(n % 10)]
  }

  /** `Integer.toString(n)`. */
  function ShowInt(n: Int32): string {
    if n < 0 then "-" + ShowNat(-(n as int)) else ShowNat(n)
  }

  /** Reading back the digits `ShowNat` writes gives the number. */
  lemma {:induction false} DigitsValueShowNat(n: nat)
    ensures DigitsValue(ShowNat(n)) == n
    decreases n
  {
    if n >= 10 {
      var s := ShowNat(n);
      assert s[..|s| - 1] == ShowNat(n / 10);
      DigitsValueShowNat(n / 10);
    }
  }

  /** `Integer.parseInt` reads back the decimal text of any non-negative `int`. */
  lemma ParseIntShowNat(n: nat)
    requires n <= INT_MAX
    ensures ParseInt(ShowNat(n)) == Ok(n)
  {
    var s := ShowNat(n);
    assert IsDigit(s[0]);
    DigitsValueShowNat(n);
  }

  /** ... and, after a minus sign, the text of its negation, down to `INT_MIN`. */
  lemma ParseIntNegated(n: nat)
    requires 0 < n <= -INT_MIN
    ensures ParseInt("-" + ShowNat(n)) == Ok(-(n as int))
  {
    var s := "-" + ShowNat(n);
    assert s[0] == '-' && s[1..] == ShowNat(n);
    DigitsValueShowNat(n);
  }

  /** `Integer.parseInt` inverts `Integer.toString` on every `int`. */
  lemma ParseIntShowInt(n: Int32)
    ensures ParseInt(ShowInt(n)) == Ok(n)
  {
    if n < 0 {
      ParseIntNegated(-(n as int));
    } else {
      ParseIntShowNat(n);
    }
  }

  /** Decimal text of a natural number holds neither separator nor sign. */
  lemma ShowNatHasNoPunctuation(n: nat)
    ensures '.' !in ShowNat(n) && '-' !in ShowNat(n) && '_' !in ShowNat(n)
  {
    var s := ShowNat(n);
    assert forall k | 0 <= k < |s| :: IsDigit(s[k]);
  }

  // ---------------------------------------------------------------------
  // equalsIgnoreCase
  // ---------------------------------------------------------------------

  /** `Character.toUpperCase` on the ASCII letters; other characters unchanged. */
  function ToUpperAscii(c: char): char {
    if 'a' <= c <= 'z' then (c as int - 32) as char else c
  }

  /** `a.equalsIgnoreCase(b)` with ASCII case folding: same length and,
      position by position, equal characters or equal upper-case forms.
      Equal strings always match, and matching strings have one length. */
  predicate EqualsIgnoreCase(a: string, b: string)
    ensures a == b ==> EqualsIgnoreCase(a, b)
    ensures EqualsIgnoreCase(a, b) ==> |a| == |b|
  {
    && |a| == |b|
    && forall k | 0 <= k < |a| :: a[k] == b[k] || ToUpperAscii(a[k]) == ToUpperAscii(b[k])
  }

  /** `s` with every ASCII lower-case letter made upper-case. */
  function ToUpperAsciiString(s: string): (u: string)
    ensures |u| == |s|
    ensures forall k | 0 <= k < |s| :: u[k] == ToUpperAscii(s[k])
  {
    seq(|s|, k requires 0 <= k < |s| => ToUpperAscii(s[k]))
  }

  /** Two strings are equal ignoring case exactly when their upper-case
      forms are equal. */
  lemma EqualsIgnoreCaseIsUpperEquality(a: string, b: string)
    ensures EqualsIgnoreCase(a, b) <==> ToUpperAsciiString(a) == ToUpperAsciiString(b)
  {
    var ua, ub := ToUpperAsciiString(a), ToUpperAsciiString(b);
    if ua == ub {
      forall k | 0 <= k < |a|
        ensures a[k] == b[k] || ToUpperAscii(a[k]) == ToUpperAscii(b[k])
      {
        assert ua[k] == ub[k];
      }
    }
    if EqualsIgnoreCase(a, b) {
      forall k | 0 <= k < |a| ensures ua[k] == ub[k] {
        if a[k] == b[k] {
          assert ToUpperAscii(a[k]) == ToUpperAscii(b[k]);
        }
      }
    }
  }

  /** No lower-case ASCII letter occurs in `s`. */
  predicate NoLowerCase(s: string) {
    forall k | 0 <= k < |s| :: !('a' <= s[k] <= 'z')
  }

  /** Between strings without lower-case letters, ignoring case changes nothing. */
  lemma EqualsIgnoreCaseOfUpper(a: string, b: string)
    requires NoLowerCase(a) && NoLowerCase(b)
    ensures EqualsIgnoreCase(a, b) <==> a == b
  {
    if EqualsIgnoreCase(a, b) {
      forall k | 0 <= k < |a| ensures a[k] == b[k] {
        assert ToUpperAscii(a[k]) == a[k] && ToUpperAscii(b[k]) == b[k];
      }
    }
  }

  /** Ignoring case is an equivalence relation, as `equalsIgnoreCase` promises. */
  lemma EqualsIgnoreCaseIsEquivalence(a: string, b: string, c: string)
    ensures EqualsIgnoreCase(a, a)
    ensures EqualsIgnoreCase(a, b) ==> EqualsIgnoreCase(b, a)
    ensures EqualsIgnoreCase(a, b) && EqualsIgnoreCase(b, c) ==> EqualsIgnoreCase(a, c)
  {
  }
}
