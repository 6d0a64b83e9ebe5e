/**
 * A model of the functions of golang.org/x/mod/semver that the command calls
 * (Canonical, Build, Prerelease and IsValid), all resting on one parser for
 * Go's version grammar:
 *
 *   "v" MAJOR ["." MINOR ["." PATCH [PRERELEASE] [BUILD]]]
 *
 * MAJOR, MINOR and PATCH are decimal numbers without leading zeros (item 2
 * of Semantic Versioning 2.0.0); PRERELEASE is "-" and dot-separated
 * identifiers over [0-9A-Za-z-], none empty, numeric ones without leading
 * zeros (item 9); BUILD is "+" and dot-separated non-empty identifiers over
 * the same characters (item 10). "v1" and "v1.2" are shorthands for
 * "v1.0.0" and "v1.2.0" and take no suffix.
 */
module Semver {
  import opened Wrappers
  import opened GoStrings

  /** A piece split off the front of the input, and what follows it. */
  datatype Token = Token(text: string, rest: string)

  /**
   * What the parser keeps of a valid version. `short` is what a shorthand
   * lacks (".0.0" after a bare major, ".0" after major.minor, "" otherwise);
   * `prerelease` keeps its "-" and `build` its "+".
   */
  datatype Parsed = Parsed(major: string, minor: string, patch: string,
                           short: string, prerelease: string, build: string)

  /** A version number: decimal digits, no leading zero. */
  predicate IsNumber(s: string) {
    s != "" && AllDigits(s) && (s[0] == '0' ==> |s| == 1)
  }

  predicate IsIdentChar(c: char) {
    'A' <= c <= 'Z' || 'a' <= c <= 'z' || IsDigit(c) || c == '-'
  }

  /** A numeric identifier with a leading zero, which a pre-release may not hold. */
  predicate IsBadNum(id: string) {
    AllDigits(id) && |id| > 1 && id[0] == '0'
  }

  /** Dot-separated non-empty identifiers; `numeric` also bans leading zeros in numeric ones. */
  predicate IsIdentList(body: string, numeric: bool) {
    (forall k :: 0 <= k < |body| ==> IsIdentChar(body[k]) || body[k] == '.') &&
    (forall id :: id in Split(body, '.') ==> id != "" && (numeric ==> !IsBadNum(id)))
  }

  /** One identifier, without dots, is an identifier list. */
  lemma SingleIdent(id: string, numeric: bool)
    requires id != "" && forall k :: 0 <= k < |id| ==> IsIdentChar(id[k])
    requires numeric ==> !IsBadNum(id)
    ensures IsIdentList(id, numeric)
  {
    SplitWhole(id, '.');
  }

  predicate IsPrerelease(s: string) {
    s != "" && s[0] == '-' && IsIdentList(s[1..], true)
  }

  predicate IsBuild(s: string) {
    s != "" && s[0] == '+' && IsIdentList(s[1..], false)
  }

  /** The number of decimal digits `v` starts with. */
  function DigitRun(v: string): (i: nat)
    ensures i <= |v| && AllDigits(v[..i]) && (i < |v| ==> !IsDigit(v[i]))
  {
    if v == "" || !IsDigit(v[0]) then 0
    else
      var i := 1 + DigitRun(v[1..]);
      assert v[..i] == [v[0]] + v[1..][..i - 1];
      i
  }

  /** parseInt: splits a version number off the front of `v`. */
  function ParseInt(v: string): (r: Option<Token>)
    ensures r.Some? ==> IsNumber(r.value.text) && r.value.text + r.value.rest == v
    ensures r.Some? ==> r.value.rest == "" || !IsDigit(r.value.rest[0])
  {
    if v == "" || !IsDigit(v[0]) then None
    else
      var i := DigitRun(v);
      if v[0] == '0' && i != 1 then None
      else Some(Token(v[..i], v[i..]))
  }

  /** parsePrerelease: splits "-" and identifiers up to the first "+" off the front of `v`. */
  function ParsePrerelease(v: string): (r: Option<Token>)
    ensures r.Some? ==> IsPrerelease(r.value.text) && r.value.text + r.value.rest == v
    ensures r.Some? ==> r.value.rest == "" || r.value.rest[0] == '+'
  {
    if v == "" || v[0] != '-' then None
    else
      var i := Index(v, '+');
      if IsIdentList(v[1..i], true) then Some(Token(v[..i], v[i..])) else None
  }

  /** parseBuild: "+" and identifiers up to the end of `v`. */
  function ParseBuild(v: string): (r: Option<Token>)
    ensures r.Some? ==> IsBuild(r.value.text) && r.value.text == v && r.value.rest == ""
  {
    if v == "" || v[0] != '+' then None
    else if IsIdentList(v[1..], false) then Some(Token(v, ""))
    else None
  }

  /** The pre-release and build suffixes that may follow the patch number. */
  datatype Suffixes = Suffixes(prerelease: string, build: string)

  /** The end of parse: an optional pre-release, then an optional build, then nothing. */
  function ParseSuffixes(v: string): (r: Option<Suffixes>)
    ensures r.Some? ==> r.value.prerelease + r.value.build == v
    ensures r.Some? ==> r.value.prerelease == "" || IsPrerelease(r.value.prerelease)
    ensures r.Some? ==> r.value.build == "" || IsBuild(r.value.build)
  {
    var pre :- if v != "" && v[0] == '-' then ParsePrerelease(v) else Some(Token("", v));
    var build :- if pre.rest != "" && pre.rest[0] == '+' then ParseBuild(pre.rest)
                 else Some(Token("", pre.rest));
    if build.rest != "" then None
    else Some(Suffixes(pre.text, build.text))
  }

  /** parse after "v" MAJOR "." MINOR ".": the patch number and the suffixes. */
  function ParseFromPatch(major: string, minor: string, v: string): (r: Option<Parsed>)
    requires IsNumber(major) && IsNumber(minor)
    ensures r.Some? ==> WellFormed(r.value) && Text(r.value) == "v" + major + "." + minor + "." + v
  {
    match ParseInt(v)
    case None => None
    case Some(patch) =>
      match ParseSuffixes(patch.rest)
      case None => None
      case Some(suffixes) =>
        FullText(Parsed(major, minor, patch.text, "", suffixes.prerelease, suffixes.build), v);
        Some(Parsed(major, minor, patch.text, "", suffixes.prerelease, suffixes.build))
  }

  /** A parse without shorthand spells its numbers, its pre-release and its build. */
  lemma FullText(p: Parsed, v: string)
    requires IsNumber(p.major) && IsNumber(p.minor) && IsNumber(p.patch) && p.short == ""
    requires p.prerelease == "" || IsPrerelease(p.prerelease)
    requires p.build == "" || IsBuild(p.build)
    requires p.patch + (p.prerelease + p.build) == v
    ensures WellFormed(p) && Text(p) == "v" + p.major + "." + p.minor + "." + v
  {
  }

  /** parse after "v" MAJOR ".": the minor number, then the end or "." and the rest. */
  function ParseFromMinor(major: string, v: string): (r: Option<Parsed>)
    requires IsNumber(major)
    ensures r.Some? ==> WellFormed(r.value) && Text(r.value) == "v" + major + "." + v
  {
    match ParseInt(v)
    case None => None
    case Some(minor) =>
      if minor.rest == "" then
        ShortText(major, minor.text, ".0");
        Some(Parsed(major, minor.text, "0", ".0", "", ""))
      else if minor.rest[0] != '.' then None
      else
        var r := ParseFromPatch(major, minor.text, minor.rest[1..]);
        DotJoin("v" + major + ".", minor.text, minor.rest, v);
        r
  }

  /** parse after "v": the major number, then the end or "." and the rest. */
  function ParseFromMajor(v: string): (r: Option<Parsed>)
    ensures r.Some? ==> WellFormed(r.value) && Text(r.value) == "v" + v
  {
    match ParseInt(v)
    case None => None
    case Some(major) =>
      if major.rest == "" then
        ShortText(major.text, "0", ".0.0");
        Some(Parsed(major.text, "0", "0", ".0.0", "", ""))
      else if major.rest[0] != '.' then None
      else
        var r := ParseFromMinor(major.text, major.rest[1..]);
        DotJoin("v", major.text, major.rest, v);
        r
  }

  /** A number followed by "." and the rest, with a fixed prefix in front. */
  lemma DotJoin(prefix: string, num: string, rest: string, v: string)
    requires num + rest == v && rest != "" && rest[0] == '.'
    ensures prefix + num + "." + rest[1..] == prefix + v
  {
    assert rest == "." + rest[1..];
  }

  /** The shorthand parses are well formed and spell "v" MAJOR or "v" MAJOR "." MINOR. */
  lemma ShortText(major: string, minor: string, short: string)
    requires IsNumber(major) && IsNumber(minor)
    requires (short == ".0.0" && minor == "0") || short == ".0"
    ensures WellFormed(Parsed(major, minor, "0", short, "", ""))
    ensures Text(Parsed(major, minor, "0", short, "", "")) ==
            if short == ".0" then "v" + major + "." + minor else "v" + major
  {
    assert ".0" != ".0.0";
  }

  /**
   * parse: the parts of `v`, or None when `v` is not a valid version. Every
   * parse is well formed and spells out its input: the parser loses nothing.
   */
  function Parse(v: string): (r: Option<Parsed>)
    ensures r.Some? ==> WellFormed(r.value) && Text(r.value) == v
  {
    if v == "" || v[0] != 'v' then None
    else
      assert v == "v" + v[1..];
      ParseFromMajor(v[1..])
  }

  /** The parses a valid input can have. */
  predicate WellFormed(p: Parsed) {
    IsNumber(p.major) && IsNumber(p.minor) && IsNumber(p.patch) &&
    (p.prerelease == "" || IsPrerelease(p.prerelease)) &&
    (p.build == "" || IsBuild(p.build)) &&
    (p.short == "" ||
     (p.short == ".0" && p.patch == "0" && p.prerelease == "" && p.build == "") ||
     (p.short == ".0.0" && p.minor == "0" && p.patch == "0" && p.prerelease == "" && p.build == ""))
  }

  /** The version string a parse was read from. */
  function Text(p: Parsed): string {
    if p.short == ".0.0" then "v" + p.major
    else if p.short == ".0" then "v" + p.major + "." + p.minor
    else "v" + p.major + "." + p.minor + "." + p.patch + p.prerelease + p.build
  }

  /** The canonical form of a parse: all three numbers, the pre-release, no build. */
  function CanonicalText(p: Parsed): string {
    "v" + p.major + "." + p.minor + "." + p.patch + p.prerelease
  }

  /** The parse of a canonical form. */
  function Canonicalized(p: Parsed): Parsed {
    p.(short := "", build := "")
  }

  lemma NoPlusInPrerelease(pre: string)
    requires pre == "" || IsPrerelease(pre)
    ensures '+' !in pre
  {
    if pre != "" {
      forall k | 1 <= k < |pre| ensures pre[k] != '+' {
        assert pre[k] == pre[1..][k - 1];
      }
    }
  }

  lemma ParseIntOf(num: string, rest: string)
    requires IsNumber(num)
    requires rest == "" || !IsDigit(rest[0])
    ensures ParseInt(num + rest) == Some(Token(num, rest))
  {
    DigitRunOf(num, rest);
    assert (num + rest)[..|num|] == num;
  }

  lemma {:induction false} DigitRunOf(num: string, rest: string)
    requires AllDigits(num)
    requires rest == "" || !IsDigit(rest[0])
    ensures DigitRun(num + rest) == |num|
  {
    if num == "" {
      assert num + rest == rest;
    } else {
      assert (num + rest)[1..] == num[1..] + rest;
      DigitRunOf(num[1..], rest);
    }
  }

  lemma ParsePrereleaseOf(pre: string, rest: string)
    requires IsPrerelease(pre)
    requires rest == "" || rest[0] == '+'
    ensures ParsePrerelease(pre + rest) == Some(Token(pre, rest))
  {
    NoPlusInPrerelease(pre);
    IndexAfter(pre, rest, '+');
    var v := pre + rest;
    assert Index(v, '+') == |pre|;
    assert v[1..|pre|] == pre[1..];
    assert v[..|pre|] == pre;
  }

  lemma SuffixesOf(pre: string, build: string)
    requires pre == "" || IsPrerelease(pre)
    requires build == "" || IsBuild(build)
    ensures ParseSuffixes(pre + build) == Some(Suffixes(pre, build))
  {
    if pre != "" {
      ParsePrereleaseOf(pre, build);
    } else {
      assert pre + build == build;
    }
  }

  lemma FromPatchOf(p: Parsed)
    requires WellFormed(p) && p.short == ""
    ensures ParseFromPatch(p.major, p.minor, p.patch + p.prerelease + p.build) == Some(p)
  {
    assert p.patch + p.prerelease + p.build == p.patch + (p.prerelease + p.build);
    ParseIntOf(p.patch, p.prerelease + p.build);
    SuffixesOf(p.prerelease, p.build);
  }

  /** The minor stage reads a number and a "." and hands the rest to the patch stage. */
  lemma MinorDotStep(major: string, minor: string, rest: string)
    requires IsNumber(major) && IsNumber(minor)
    requires rest != "" && rest[0] == '.'
    ensures ParseFromMinor(major, minor + rest) == ParseFromPatch(major, minor, rest[1..])
  {
    ParseIntOf(minor, rest);
  }

  /** The minor stage of a "v" MAJOR "." MINOR shorthand. */
  lemma MinorShortOf(p: Parsed)
    requires WellFormed(p) && p.short == ".0"
    ensures ParseFromMinor(p.major, p.minor) == Some(p)
  {
    ParseIntOf(p.minor, "");
    assert p.minor + "" == p.minor;
  }

  lemma FromMinorOf(p: Parsed)
    requires WellFormed(p) && p.short != ".0.0"
    ensures ParseFromMinor(p.major, AfterMinorDot(p)) == Some(p)
  {
    if p.short == ".0" {
      MinorShortOf(p);
    } else {
      var afterMinor := "." + (p.patch + p.prerelease + p.build);
      assert AfterMinorDot(p) == p.minor + afterMinor;
      MinorDotStep(p.major, p.minor, afterMinor);
      assert afterMinor[1..] == p.patch + p.prerelease + p.build;
      FromPatchOf(p);
    }
  }

  /** What follows MAJOR "." in the text of a parse that is not a bare major. */
  function AfterMinorDot(p: Parsed): string {
    if p.short == ".0" then p.minor else p.minor + "." + p.patch + p.prerelease + p.build
  }

  lemma FromMajorOf(p: Parsed)
    requires WellFormed(p) && p.short != ".0.0"
    ensures ParseFromMajor(p.major + "." + AfterMinorDot(p)) == Some(p)
  {
    var afterMajor := "." + AfterMinorDot(p);
    assert p.major + "." + AfterMinorDot(p) == p.major + afterMajor;
    ParseIntOf(p.major, afterMajor);
    assert afterMajor[1..] == AfterMinorDot(p);
    FromMinorOf(p);
  }

  lemma FromBareMajorOf(p: Parsed)
    requires WellFormed(p) && p.short == ".0.0"
    ensures ParseFromMajor(p.major) == Some(p)
  {
    ParseIntOf(p.major, "");
    assert p.major + "" == p.major;
  }

  /** Parse reads the "v" and hands the rest to the major stage. */
  lemma ParseAfterV(rest: string)
    ensures Parse("v" + rest) == ParseFromMajor(rest)
  {
    assert ("v" + rest)[1..] == rest;
  }

  /** Every well-formed parse is what its own text parses to: Parse and Text are inverses. */
  lemma TextParse(p: Parsed)
    requires WellFormed(p)
    ensures Parse(Text(p)) == Some(p)
  {
    if p.short == ".0.0" {
      assert Text(p) == "v" + p.major;
      ParseAfterV(p.major);
      FromBareMajorOf(p);
    } else {
      var rest := p.major + "." + AfterMinorDot(p);
      assert Text(p) == "v" + rest;
      ParseAfterV(rest);
      FromMajorOf(p);
    }
  }

  /** semver.IsValid */
  predicate IsValid(v: string) {
    Parse(v).Some?
  }

  /**
   * semver.Canonical: the version with the numbers a shorthand omits filled
   * in as 0 and the build dropped, or "" when `v` is not valid.
   */
  function Canonical(v: string): (c: string)
    ensures c == "" <==> !IsValid(v)
    ensures IsValid(v) ==> c == CanonicalText(Parse(v).value)
  {
    match Parse(v)
    case None => ""
    case Some(p) =>
      CanonicalOfText(p);
      if p.build != "" then v[..|v| - |p.build|]
      else if p.short != "" then v + p.short
      else v
  }

  /** How Canonical rewrites the text of a parse yields its canonical form. */
  lemma CanonicalOfText(p: Parsed)
    requires WellFormed(p)
    ensures p.build != "" ==> |p.build| <= |Text(p)| && Text(p)[..|Text(p)| - |p.build|] == CanonicalText(p)
    ensures p.build == "" ==> Text(p) + p.short == CanonicalText(p)
  {
    if p.build != "" {
      assert Text(p) == CanonicalText(p) + p.build;
    } else if p.short == ".0.0" {
      assert p.short == "." + "0" + "." + "0";
    } else if p.short == ".0" {
      assert p.short == "." + "0";
    }
  }

  /** semver.Build: the build suffix with its "+", or "". */
  function Build(v: string): string {
    match Parse(v)
    case None => ""
    case Some(p) => p.build
  }

  /** semver.Prerelease: the pre-release suffix with its "-", or "". */
  function Prerelease(v: string): string {
    match Parse(v)
    case None => ""
    case Some(p) => p.prerelease
  }

  /** A canonical form parses back, with the same numbers and pre-release and no build. */
  lemma CanonicalParse(v: string)
    requires IsValid(v)
    ensures Parse(Canonical(v)) == Some(Canonicalized(Parse(v).value))
  {
    var p := Parse(v).value;
    var q := Canonicalized(p);
    assert CanonicalText(p) == Text(q);
    TextParse(q);
  }

  /** Canonical is idempotent. */
  lemma CanonicalIdempotent(v: string)
    ensures Canonical(Canonical(v)) == Canonical(v)
  {
    if IsValid(v) {
      CanonicalParse(v);
    }
  }
}
