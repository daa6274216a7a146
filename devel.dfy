/**
 * `devel.py`, `increment_version`: bumping the `major.minor.patch` version
 * found in a string, as items 6 to 8 of Semantic Versioning 2.0.0 prescribe
 * (no pre-release or build part).
 */
module Devel {
  import opened Wrappers
  import opened Decimal

  datatype Version = Version(major: nat, minor: nat, patch: nat)

  /** Precedence of versions without pre-release part: major, then minor, then patch. */
  predicate VersionLess(a: Version, b: Version) {
    || a.major < b.major
    || (a.major == b.major && a.minor < b.minor)
    || (a.major == b.major && a.minor == b.minor && a.patch < b.patch)
  }

  /**
   * A match of `(\d+)\.(\d+)\.(\d+)` starting at `i`: each group takes the whole
   * run of digits there, as the greedy groups do.
   */
  function VersionAt(s: string, i: nat): Option<Version>
    requires i <= |s|
  {
    var t := s[i..];
    var k1 := LeadingDigits(t);
    if k1 == 0 || k1 == |t| || t[k1] != '.' then None
    else
      var u := t[k1 + 1..];
      var k2 := LeadingDigits(u);
      if k2 == 0 || k2 == |u| || u[k2] != '.' then None
      else
        var v := u[k2 + 1..];
        var k3 := LeadingDigits(v);
        if k3 == 0 then None
        else Some(Version(ParseDigits(t[..k1]), ParseDigits(u[..k2]), ParseDigits(v[..k3])))
  }

  /** The leftmost position, from `from` on, where the version pattern matches, as `re.search` finds it. */
  function FindVersion(s: string, from: nat): (r: Option<nat>)
    requires from <= |s|
    ensures r.Some? ==> from <= r.value <= |s| && VersionAt(s, r.value).Some?
    ensures r.Some? ==> forall j :: from <= j < r.value ==> VersionAt(s, j).None?
    ensures r.None? ==> forall j :: from <= j <= |s| ==> VersionAt(s, j).None?
    decreases |s| - from
  {
    if VersionAt(s, from).Some? then Some(from)
    else if from == |s| then None
    else FindVersion(s, from + 1)
  }

  /** The version's three numbers in decimal, joined by dots, as `increment_version` returns them. */
  function Render(v: Version): string {
    ToDecimal(v.major) + "." + ToDecimal(v.minor) + "." + ToDecimal(v.patch)
  }

  /** The branch on `part`: `major`, `minor` and `patch` bump their part and reset the lower ones. */
  function Bump(v: Version, part: string): (r: Version)
    ensures part == "major" || part == "minor" || part == "patch" ==> VersionLess(v, r)
    ensures part != "major" && part != "minor" && part != "patch" ==> r == v
  {
    if part == "major" then Version(v.major + 1, 0, 0)
    else if part == "minor" then Version(v.major, v.minor + 1, 0)
    else if part == "patch" then Version(v.major, v.minor, v.patch + 1)
    else v
  }

  /**
   * `increment_version`. With no match, `version_match` is `None` and reading its
   * group raises `AttributeError`.
   */
  function IncrementVersion(version: string, part: string): (r: Result<string, Exception>)
    ensures r.Failure? <==> forall j :: 0 <= j <= |version| ==> VersionAt(version, j).None?
    ensures r.Failure? ==> r.error == AttributeError
  {
    match FindVersion(version, 0)
    case None => Failure(AttributeError)
    case Some(i) => Success(Render(Bump(VersionAt(version, i).value, part)))
  }

  /** The version `increment_version` reads from `version`: the leftmost match. */
  function FoundVersion(version: string): Option<Version> {
    match FindVersion(version, 0)
    case None => None
    case Some(i) => VersionAt(version, i)
  }

  /** A number then a dot: the digit run ends at the dot, and what follows is `x`. */
  lemma NumberThenDot(a: string, x: string)
    requires IsNumber(a)
    ensures var t := a + "." + x;
      LeadingDigits(t) == |a| && |a| < |t| && t[|a|] == '.' && t[..|a|] == a && t[|a| + 1..] == x
  {
    var t := a + "." + x;
    assert t == a + ("." + x);
    LeadingDigitsOf(a, "." + x);
  }

  /** A number, a dot, a number, a dot and a number not followed by a digit is read as that version. */
  lemma VersionAtParts(s: string, i: nat, a: string, b: string, c: string, rest: string)
    requires i <= |s| && IsNumber(a) && IsNumber(b) && IsNumber(c)
    requires rest == [] || !IsDigit(rest[0])
    requires s[i..] == a + "." + (b + "." + (c + rest))
    ensures VersionAt(s, i) == Some(Version(ParseDigits(a), ParseDigits(b), ParseDigits(c)))
  {
    NumberThenDot(a, b + "." + (c + rest));
    NumberThenDot(b, c + rest);
    LeadingDigitsOf(c, rest);
    assert (c + rest)[..|c|] == c;
  }

  /** A number then a dot at the front of `t`: `t` is that number, the dot and what follows. */
  lemma NumberDotAtFront(t: string, k: nat)
    requires k == LeadingDigits(t) && 1 <= k < |t| && t[k] == '.'
    ensures IsNumber(t[..k]) && t == t[..k] + "." + t[k + 1..]
  {
    assert forall j :: 0 <= j < k ==> t[..k][j] == t[j];
  }

  /** A number at the front of `t`, followed by a non-digit or nothing. */
  lemma NumberAtFront(t: string, k: nat)
    requires k == LeadingDigits(t) && 1 <= k
    ensures IsNumber(t[..k]) && t == t[..k] + t[k..] && (t[k..] == [] || !IsDigit(t[k..][0]))
  {
    assert forall j :: 0 <= j < k ==> t[..k][j] == t[j];
  }

  /**
   * Everything `VersionAt` reads is a number, a dot, a number, a dot and a number
   * not followed by a digit, and the version holds the values of the three numbers.
   */
  lemma VersionAtSound(s: string, i: nat) returns (a: string, b: string, c: string, rest: string)
    requires i <= |s| && VersionAt(s, i).Some?
    ensures IsNumber(a) && IsNumber(b) && IsNumber(c) && (rest == [] || !IsDigit(rest[0]))
    ensures s[i..] == a + "." + (b + "." + (c + rest))
    ensures VersionAt(s, i) == Some(Version(ParseDigits(a), ParseDigits(b), ParseDigits(c)))
  {
    var t := s[i..];
    var k1 := LeadingDigits(t);
    NumberDotAtFront(t, k1);
    var u := t[k1 + 1..];
    var k2 := LeadingDigits(u);
    NumberDotAtFront(u, k2);
    var v := u[k2 + 1..];
    var k3 := LeadingDigits(v);
    NumberAtFront(v, k3);
    a, b, c, rest := t[..k1], u[..k2], v[..k3], v[k3..];
    VersionAtParts(s, i, a, b, c, rest);
  }

  /** The output is read back as the bumped version: rendering and matching are inverse. */
  lemma RenderRoundTrip(v: Version)
    ensures VersionAt(Render(v), 0) == Some(v)
    ensures FoundVersion(Render(v)) == Some(v)
  {
    var s := Render(v);
    ParseToDecimal(v.major);
    ParseToDecimal(v.minor);
    ParseToDecimal(v.patch);
    var a, b, c := ToDecimal(v.major), ToDecimal(v.minor), ToDecimal(v.patch);
    assert s[0..] == a + "." + (b + "." + (c + []));
    VersionAtParts(s, 0, a, b, c, []);
  }

  /**
   * Every successful increment renders the bumped leftmost version, and reading
   * the output again gives that bumped version.
   */
  lemma IncrementVersionSpec(version: string, part: string)
    ensures IncrementVersion(version, part).Success? <==> FoundVersion(version).Some?
    ensures FoundVersion(version).Some? ==>
      IncrementVersion(version, part) == Success(Render(Bump(FoundVersion(version).value, part)))
    ensures FoundVersion(version).Some? ==>
      FoundVersion(IncrementVersion(version, part).value) == Some(Bump(FoundVersion(version).value, part))
  {
    if FoundVersion(version).Some? {
      RenderRoundTrip(Bump(FoundVersion(version).value, part));
    }
  }

  /** Items 6 to 8 of Semantic Versioning: the bumped part grows by one and the lower parts reset. */
  lemma BumpParts(v: Version)
    ensures Bump(v, "major") == Version(v.major + 1, 0, 0)
    ensures Bump(v, "minor") == Version(v.major, v.minor + 1, 0)
    ensures Bump(v, "patch") == Version(v.major, v.minor, v.patch + 1)
  {
  }

  /** Precedence is a strict total order. */
  lemma VersionLessIsStrictTotal(a: Version, b: Version, c: Version)
    ensures !VersionLess(a, a)
    ensures VersionLess(a, b) && VersionLess(b, c) ==> VersionLess(a, c)
    ensures a != b ==> VersionLess(a, b) || VersionLess(b, a)
  {
  }

  /** The version is the leftmost one in the string, wherever it sits. */
  lemma LeftmostVersion(version: string, i: nat, v: Version)
    requires i <= |version| && VersionAt(version, i) == Some(v)
    requires forall j :: 0 <= j < i ==> VersionAt(version, j).None?
    ensures FoundVersion(version) == Some(v)
  {
  }

  /** A number in canonical decimal form: digits, with a leading `0` only for zero itself. */
  predicate Canonical(t: string) {
    IsNumber(t) && (t[0] == '0' ==> t == "0")
  }

  /** `str(n)` is canonical. */
  lemma ToDecimalCanonical(n: nat)
    ensures Canonical(ToDecimal(n))
  {
    if ToDecimal(n)[0] == '0' {
      assert n == 0;
    }
  }

  /**
   * `int()` drops leading zeros and `str()` adds none: every output is three
   * canonical numbers joined by dots, holding the bumped version's parts.
   */
  lemma IncrementVersionCanonical(version: string, part: string) returns (a: string, b: string, c: string)
    requires FoundVersion(version).Some?
    ensures Canonical(a) && Canonical(b) && Canonical(c)
    ensures IncrementVersion(version, part) == Success(a + "." + b + "." + c)
    ensures Version(ParseDigits(a), ParseDigits(b), ParseDigits(c)) == Bump(FoundVersion(version).value, part)
  {
    var w := Bump(FoundVersion(version).value, part);
    a, b, c := ToDecimal(w.major), ToDecimal(w.minor), ToDecimal(w.patch);
    ToDecimalCanonical(w.major);
    ToDecimalCanonical(w.minor);
    ToDecimalCanonical(w.patch);
    ParseToDecimal(w.major);
    ParseToDecimal(w.minor);
    ParseToDecimal(w.patch);
    IncrementVersionSpec(version, part);
  }
}
