/** The part of Semantic Versioning 2.0.0 that the Jenkins view model relies on
    when it orders builds by `SemVer.parse("<tag>-<commits>")`: a version core
    `major.minor.patch` of numerals without leading zeros, optionally followed
    by a numeric pre-release identifier, and the precedence of section 11. */
module SemVer {
  import opened Wrappers
  import opened KotlinText
  import opened Sorting

  datatype Version = Version(major: nat, minor: nat, patch: nat, pre: Option<nat>)

  /** A numeric identifier: digits, with no leading zero unless it is `0`. */
  predicate Canonical(s: string) {
    s != [] && AllDigits(s) && (s[0] == '0' ==> |s| == 1)
  }

  function ParseNumeral(s: string): (r: Option<nat>)
    ensures r.Some? <==> Canonical(s)
    ensures r.Some? ==> r.value == DigitsValue(s)
  {
    if Canonical(s) then Some(DigitsValue(s)) else None
  }

  /** `major.minor.patch`. */
  function ParseCore(s: string): (r: Option<(nat, nat, nat)>)
    ensures r.Some? <==> (
      var p := Split(s, '.');
      |p| == 3 && Canonical(p[0]) && Canonical(p[1]) && Canonical(p[2]))
  {
    var p := Split(s, '.');
    if |p| != 3 then None
    else match (ParseNumeral(p[0]), ParseNumeral(p[1]), ParseNumeral(p[2]))
      case (Some(x), Some(y), Some(z)) => Some((x, y, z))
      case _ => None
  }

  /** `SemVer.parse`, for a core with at most one numeric pre-release identifier;
      `None` stands for the `IllegalArgumentException` it throws otherwise. */
  function Parse(s: string): (r: Option<Version>)
    ensures r.Some? ==> ParseCore(Split(s, '-')[0]).Some? && |Split(s, '-')| == if r.value.pre.Some? then 2 else 1
  {
    var p := Split(s, '-');
    match ParseCore(p[0])
    case None => None
    case Some((x, y, z)) =>
      if |p| == 1 then Some(Version(x, y, z, None))
      else if |p| == 2 then
        match ParseNumeral(p[1])
        case Some(n) => Some(Version(x, y, z, Some(n)))
        case None => None
      else None
  }

  /** The text of a version. */
  function Format(v: Version): string {
    FormatCore(v.major, v.minor, v.patch) + (if v.pre.Some? then "-" + NatToString(v.pre.value) else "")
  }

  /** Printed numerals are numeric identifiers. */
  lemma {:induction false} NatToStringCanonical(n: nat)
    ensures Canonical(NatToString(n))
  {
    if n >= 10 {
      NatToStringCanonical(n / 10);
      assert NatToString(n)[0] == NatToString(n / 10)[0];
    }
  }

  /** A digit string contains no separator. */
  lemma DigitsHaveNoSeparator(s: string, c: char)
    requires AllDigits(s) && !IsDigit(c)
    ensures c !in s
  {
  }

  /** A printed numeral parses back and holds neither separator. */
  lemma NumeralFacts(n: nat)
    ensures ParseNumeral(NatToString(n)) == Some(n)
    ensures '.' !in NatToString(n) && '-' !in NatToString(n)
  {
    NatToStringCanonical(n);
    DigitsValueOfNatToString(n);
    DigitsHaveNoSeparator(NatToString(n), '.');
    DigitsHaveNoSeparator(NatToString(n), '-');
  }

  /** Three pieces without the separator, joined by it, split back into themselves. */
  lemma SplitThree(x: string, y: string, z: string, c: char)
    requires c !in x && c !in y && c !in z
    ensures Split(x + [c] + y + [c] + z, c) == [x, y, z]
  {
    SplitWithoutSeparator(z, c);
    SplitAtFirstSeparator(y, c, z);
    SplitAtFirstSeparator(x, c, y + [c] + z);
    assert x + [c] + y + [c] + z == x + [c] + (y + [c] + z);
  }

  /** The text of a version core. */
  function FormatCore(major: nat, minor: nat, patch: nat): string {
    NatToString(major) + "." + NatToString(minor) + "." + NatToString(patch)
  }

  /** Parsing a formatted core gives it back; the core holds no dash. */
  lemma ParseCoreOfFormat(major: nat, minor: nat, patch: nat)
    ensures ParseCore(FormatCore(major, minor, patch)) == Some((major, minor, patch))
    ensures '-' !in FormatCore(major, minor, patch)
  {
    var x, y, z := NatToString(major), NatToString(minor), NatToString(patch);
    NumeralFacts(major);
    NumeralFacts(minor);
    NumeralFacts(patch);
    SplitThree(x, y, z, '.');
    assert FormatCore(major, minor, patch) == x + ['.'] + y + ['.'] + z;
  }

  /** Parsing a formatted version gives it back. */
  lemma FormatParseRoundTrip(v: Version)
    ensures Parse(Format(v)) == Some(v)
  {
    var core := FormatCore(v.major, v.minor, v.patch);
    ParseCoreOfFormat(v.major, v.minor, v.patch);
    if v.pre.None? {
      SplitWithoutSeparator(core, '-');
      assert Format(v) == core;
    } else {
      var n := NatToString(v.pre.value);
      NumeralFacts(v.pre.value);
      SplitAtFirstSeparator(core, '-', n);
      SplitWithoutSeparator(n, '-');
      assert Format(v) == core + ['-'] + n;
    }
  }

  /** Precedence as section 11 of Semantic Versioning 2.0.0 defines it for these
      versions: major, minor and patch compare numerically, a version with a
      pre-release has lower precedence than the same core without one, and
      numeric pre-release identifiers compare numerically. */
  predicate Precedes(a: Version, b: Version) {
    || a.major < b.major
    || (a.major == b.major && a.minor < b.minor)
    || (a.major == b.major && a.minor == b.minor && a.patch < b.patch)
    || (a.major == b.major && a.minor == b.minor && a.patch == b.patch
        && a.pre.Some? && (b.pre.None? || a.pre.value < b.pre.value))
  }

  /** The sort key `compareTo` amounts to. */
  function Key(v: Version): seq<int> {
    [v.major, v.minor, v.patch] + (if v.pre.Some? then [0, v.pre.value] else [1])
  }

  /** Ordering by `Key` is precedence: a key is at most another exactly when
      its version is the same or precedes the other. */
  lemma KeyOrdersByPrecedence(a: Version, b: Version)
    ensures LexLe(Key(a), Key(b)) <==> (a == b || Precedes(a, b))
  {
    var pa := if a.pre.Some? then [0, a.pre.value] else [1];
    var pb := if b.pre.Some? then [0, b.pre.value] else [1];
    assert Key(a) == [a.major] + ([a.minor] + ([a.patch] + pa));
    assert Key(b) == [b.major] + ([b.minor] + ([b.patch] + pb));
    LexLeCons(a.major, [a.minor] + ([a.patch] + pa), b.major, [b.minor] + ([b.patch] + pb));
    LexLeCons(a.minor, [a.patch] + pa, b.minor, [b.patch] + pb);
    LexLeCons(a.patch, pa, b.patch, pb);
    if a.pre.Some? && b.pre.Some? {
      LexLeCons(0, [a.pre.value], 0, [b.pre.value]);
      LexLeCons(a.pre.value, [], b.pre.value, []);
    } else if a.pre.Some? {
      LexLeCons(0, [a.pre.value], 1, []);
    } else if b.pre.Some? {
      LexLeCons(1, [], 0, [b.pre.value]);
    } else {
      LexLeCons(1, [], 1, []);
    }
  }
}
