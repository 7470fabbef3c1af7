/**
 * Versions as the `semver` crate reads the plain form `MAJOR.MINOR.PATCH`
 * (section 2 of Semantic Versioning 2.0.0), and their precedence (section 11).
 */
module Semver {
  import opened Wrappers
  import opened Text
  import opened Numeric

  /** A version without pre-release or build metadata. */
  datatype Version = Version(major: nat, minor: nat, patch: nat)

  /** Every field fits the crate's `u64`. */
  predicate InRange(v: Version)
  {
    v.major < U64_LIMIT && v.minor < U64_LIMIT && v.patch < U64_LIMIT
  }

  /** The canonical text of a version, as `Display` writes it. */
  function Format(v: Version): string
  {
    ToDecimal(v.major) + "." + ToDecimal(v.minor) + "." + ToDecimal(v.patch)
  }

  /**
   * `Version::parse`, for the plain form: exactly three dot-separated numeric
   * identifiers.  Only canonical text parses, and what parses is in range.
   */
  function Parse(s: string): (r: Option<Version>)
    ensures r.Some? ==> InRange(r.value) && Format(r.value) == s
  {
    var parts := SplitOn(s, '.');
    if |parts| != 3 then None
    else
      match (ParseNumericIdentifier(parts[0]), ParseNumericIdentifier(parts[1]), ParseNumericIdentifier(parts[2]))
      case (Some(major), Some(minor), Some(patch)) =>
        JoinSplitOn(s, '.');
        JoinThree(parts, '.');
        Some(Version(major, minor, patch))
      case _ => None
  }

  /** Three pieces joined with a separator. */
  lemma JoinThree(parts: seq<string>, sep: char)
    requires |parts| == 3
    ensures Join(parts, sep) == parts[0] + [sep] + parts[1] + [sep] + parts[2]
  {
    assert parts[1..][1..] == [parts[2]];
    assert Join(parts[1..], sep) == parts[1] + [sep] + parts[2];
  }

  /** Every version in range parses back from its canonical text. */
  lemma ParseFormat(v: Version)
    requires InRange(v)
    ensures Parse(Format(v)) == Some(v)
  {
    var parts := [ToDecimal(v.major), ToDecimal(v.minor), ToDecimal(v.patch)];
    NoOtherCharInDigits(parts[0], '.');
    NoOtherCharInDigits(parts[1], '.');
    NoOtherCharInDigits(parts[2], '.');
    JoinThree(parts, '.');
    SplitOnJoin(parts, '.');
    ParseNumericIdentifierToDecimal(v.major);
    ParseNumericIdentifierToDecimal(v.minor);
    ParseNumericIdentifierToDecimal(v.patch);
  }

  /** Canonical version text holds no `-` (so no pre-release part) and starts with a digit. */
  lemma FormatShape(v: Version)
    ensures '-' !in Format(v) && IsDigit(Format(v)[0])
  {
    NoOtherCharInDigits(ToDecimal(v.major), '-');
    NoOtherCharInDigits(ToDecimal(v.minor), '-');
    NoOtherCharInDigits(ToDecimal(v.patch), '-');
  }

  /** Precedence: major, then minor, then patch, each compared numerically. */
  predicate Less(a: Version, b: Version)
    ensures Less(a, b) ==> a != b
    ensures Less(a, b) ==> a.major <= b.major
  {
    || a.major < b.major
    || (a.major == b.major && a.minor < b.minor)
    || (a.major == b.major && a.minor == b.minor && a.patch < b.patch)
  }

  /** Precedence is a strict total order: exactly one of less, equal, greater holds. */
  lemma LessTrichotomy(a: Version, b: Version)
    ensures Less(a, b) || a == b || Less(b, a)
    ensures !(Less(a, b) && Less(b, a)) && !Less(a, a)
  {
  }

  lemma LessTransitive(a: Version, b: Version, c: Version)
    requires Less(a, b) && Less(b, c)
    ensures Less(a, c)
  {
  }
}
