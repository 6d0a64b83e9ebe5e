/**
 * internal/pkg/cli/cli.go: the positional-argument resolver, the version
 * normaliser and the encode/decode request wrappers.
 */
module Cli {
  import opened Wrappers
  import opened GoStrings
  import Semver
  import opened Pairing
  import opened Errors

  // ---------------------------------------------------------------------
  // Positional arguments

  /** shift: the slice without its first element; an empty one is returned as it is. */
  function Shift(a: seq<string>): (r: seq<string>)
    ensures |a| == 0 ==> r == a
    ensures |a| > 0 ==> |r| == |a| - 1 && forall i :: 0 <= i < |r| ==> r[i] == a[i + 1]
  {
    if |a| == 0 then a
    else if |a| == 1 then []
    else a[1..]
  }

  /**
   * What parsePositionalArgs computes: the slots in order, each empty slot
   * taking the next leftover argument while there is one.
   */
  function Resolve(args: seq<string>, vars: seq<string>): (r: seq<string>)
    ensures |r| == |vars|
    decreases |vars|
  {
    if vars == [] then []
    else if vars[0] == "" && |args| >= 1 then [args[0]] + Resolve(Shift(args), vars[1..])
    else [vars[0]] + Resolve(args, vars[1..])
  }

  lemma ConcatAssoc(a: seq<string>, b: seq<string>, c: seq<string>)
    ensures a + (b + c) == a + b + c
  {
  }

  /** One step of the resolver: the first slot, then the rest. */
  lemma ResolveStep(args: seq<string>, vars: seq<string>)
    requires vars != []
    ensures vars[0] == "" && |args| >= 1 ==> Resolve(args, vars) == [args[0]] + Resolve(Shift(args), vars[1..])
    ensures !(vars[0] == "" && |args| >= 1) ==> Resolve(args, vars) == [vars[0]] + Resolve(args, vars[1..])
  {
  }

  /** The number of empty slots. */
  function EmptySlots(vars: seq<string>): nat {
    if vars == [] then 0 else (if vars[0] == "" then 1 else 0) + EmptySlots(vars[1..])
  }

  /**
   * Slot by slot: a slot set by its flag keeps its value; the k-th empty slot
   * (counting from 0) takes args[k] when there is one, and stays "" otherwise.
   */
  lemma {:induction false} ResolveSlot(args: seq<string>, vars: seq<string>, n: nat)
    requires n < |vars|
    decreases |vars|
    ensures var k := EmptySlots(vars[..n]);
      Resolve(args, vars)[n] == if vars[n] != "" then vars[n] else if k < |args| then args[k] else ""
  {
    if n > 0 {
      var next := if vars[0] == "" && |args| >= 1 then Shift(args) else args;
      ResolveSlot(next, vars[1..], n - 1);
      assert vars[..n][1..] == vars[1..][..n - 1];
    }
  }

  /** Leftover arguments beyond one per empty slot are ignored. */
  lemma {:induction false} ResolveIgnoresSurplus(args: seq<string>, vars: seq<string>)
    requires EmptySlots(vars) <= |args|
    ensures Resolve(args, vars) == Resolve(args[..EmptySlots(vars)], vars)
    decreases |vars|
  {
    if vars != [] {
      var k := EmptySlots(vars);
      if vars[0] == "" {
        assert Shift(args[..k]) == Shift(args)[..k - 1];
        ResolveIgnoresSurplus(Shift(args), vars[1..]);
      } else {
        ResolveIgnoresSurplus(args, vars[1..]);
      }
    }
  }

  /** The cases of the parsePositionalArgs table in the command's tests. */
  lemma ResolveExamples()
    ensures Resolve([], ["a", "b"]) == ["a", "b"]
    ensures Resolve(["other"], ["a", "b"]) == ["a", "b"]
    ensures Resolve(["other", "again"], ["a", "b"]) == ["a", "b"]
    ensures Resolve(["other", "again", "ignored"], ["a", "b"]) == ["a", "b"]
    ensures Resolve([], ["", ""]) == ["", ""]
    ensures Resolve(["first"], ["", ""]) == ["first", ""]
    ensures Resolve(["first", "second"], ["", ""]) == ["first", "second"]
    ensures Resolve(["first", "second", "ignored"], ["", ""]) == ["first", "second"]
    ensures Resolve([], ["firstset", ""]) == ["firstset", ""]
    ensures Resolve(["second"], ["firstset", ""]) == ["firstset", "second"]
    ensures Resolve(["second", "ignored"], ["firstset", ""]) == ["firstset", "second"]
    ensures Resolve(["second", "ignored1", "ignored2"], ["firstset", ""]) == ["firstset", "second"]
    ensures Resolve([], ["", "secondset"]) == ["", "secondset"]
    ensures Resolve(["first"], ["", "secondset"]) == ["first", "secondset"]
    ensures Resolve(["first", "ignored"], ["", "secondset"]) == ["first", "secondset"]
    ensures Resolve(["first", "ignored1", "ignored2"], ["", "secondset"]) == ["first", "secondset"]
  {
  }

  /** The cases of the shift table in the command's tests. */
  lemma ShiftExamples()
    ensures Shift([]) == []
    ensures Shift(["a"]) == []
    ensures Shift(["a", "b"]) == ["b"]
    ensures Shift(["a", "b", "c"]) == ["b", "c"]
  {
  }

  /**
   * parsePositionalArgs: walks the slots, copying a set one and filling an
   * empty one from the front of the remaining arguments.
   */
  method ParsePositionalArgs(args: seq<string>, vars: seq<string>) returns (result: seq<string>)
    ensures result == Resolve(args, vars)
  {
    var slots := new string[|vars|];
    var rest := args;
    for n := 0 to |vars|
      invariant slots[..n] + Resolve(rest, vars[n..]) == Resolve(args, vars)
    {
      ghost var done := slots[..n];
      ResolveStep(rest, vars[n..]);
      assert vars[n..][0] == vars[n] && vars[n..][1..] == vars[n + 1..];
      if vars[n] == "" && |rest| >= 1 {
        slots[n] := rest[0];
        rest := Shift(rest);
      } else {
        slots[n] := vars[n];
      }
      assert done + ([slots[n]] + Resolve(rest, vars[n + 1..])) == Resolve(args, vars);
      assert slots[..n + 1] == done + [slots[n]];
      ConcatAssoc(done, [slots[n]], Resolve(rest, vars[n + 1..]));
    }
    assert vars[|vars|..] == [];
    result := slots[..];
  }

  // ---------------------------------------------------------------------
  // Versions

  /** The numbers a parse spells, pre-release and build left behind. */
  function NumbersOf(p: Semver.Parsed): Version {
    Version(DecimalValue(p.major), DecimalValue(p.minor), DecimalValue(p.patch))
  }

  lemma TrimNoBuild(c: string, build: string)
    requires '+' !in c
    requires build == "" || build[0] == '+'
    ensures TrimSuffix(c, build) == c
  {
  }

  lemma TrimOwnSuffix(x: string, suffix: string)
    ensures TrimSuffix(x + suffix, suffix) == x
  {
    assert (x + suffix)[..|x|] == x;
    assert (x + suffix)[|x|..] == suffix;
  }

  lemma SplitNumbers(major: string, minor: string, patch: string)
    requires '.' !in major && '.' !in minor && '.' !in patch
    ensures Split(major + "." + minor + "." + patch, '.') == [major, minor, patch]
  {
    var tail := minor + ['.'] + patch;
    assert major + "." + minor + "." + patch == major + ['.'] + tail;
    SplitFirst(major, tail, '.');
    SplitFirst(minor, patch, '.');
    SplitWhole(patch, '.');
  }

  lemma NumberHasNoDot(s: string)
    requires Semver.IsNumber(s)
    ensures '.' !in s
  {
  }

  /**
   * The steps toVersion takes from a canonical form (whatever build it is
   * told to trim) to the pieces it converts: the three numbers.
   */
  lemma StripsToNumbers(q: Semver.Parsed, build: string)
    requires Semver.WellFormed(q)
    requires build == "" || build[0] == '+'
    ensures Split(TrimPrefix(TrimSuffix(TrimSuffix(Semver.CanonicalText(q), build), q.prerelease), "v"), '.')
            == [q.major, q.minor, q.patch]
  {
    var numbers := q.major + "." + q.minor + "." + q.patch;
    var c := Semver.CanonicalText(q);
    assert c == ("v" + numbers) + q.prerelease;
    Semver.NoPlusInPrerelease(q.prerelease);
    TrimNoBuild(c, build);
    TrimOwnSuffix("v" + numbers, q.prerelease);
    assert TrimPrefix("v" + numbers, "v") == numbers;
    NumberHasNoDot(q.major);
    NumberHasNoDot(q.minor);
    NumberHasNoDot(q.patch);
    SplitNumbers(q.major, q.minor, q.patch);
  }

  /**
   * toVersion: the numbers of a version string that already carries its
   * "v"; fails, quoting the input, exactly when the string is not a valid
   * version. Pre-release and build are dropped; a shorthand's missing minor
   * or patch is 0.
   */
  function ToVersion(s: string): (r: Result<Version, Error>)
    ensures r.Failure? <==> Semver.Canonical(s) == ""
    ensures r.Failure? ==> r.error == InvalidSemver(s)
    ensures r.Success? ==> Semver.IsValid(s) && r.value == NumbersOf(Semver.Parse(s).value)
  {
    var v := Semver.Canonical(s);
    if v == "" then Failure(InvalidSemver(s))
    else
      var v1 := TrimSuffix(v, Semver.Build(s));
      var v2 := TrimSuffix(v1, Semver.Prerelease(s));
      var split := Split(TrimPrefix(v2, "v"), '.');
      StripsToNumbers(Semver.Parse(s).value, Semver.Build(s));
      var major := Atoi(split[0]);
      var minor := Atoi(split[1]);
      var patch := Atoi(split[2]);
      if major.None? || minor.None? || patch.None? then
        // a panic in the source: the canonical form rules it out
        assert false; Failure(InvalidSemver(s))
      else Success(Version(major.value, minor.value, patch.value))
  }

  /** The canonical text of a version normalises back to that version. */
  lemma ToVersionOfText(v: Version)
    ensures ToVersion(VersionText(v)) == Success(v)
  {
    ToVersionDropsSuffixes(v, "", "");
    assert VersionText(v) + "" + "" == VersionText(v);
  }

  /** Normalising is idempotent: the text of a result normalises to that result. */
  lemma ToVersionIdempotent(s: string)
    requires ToVersion(s).Success?
    ensures ToVersion(VersionText(ToVersion(s).value)) == ToVersion(s)
  {
    ToVersionOfText(ToVersion(s).value);
  }

  /** toVersion never adds the "v" itself: input without it is rejected. */
  lemma ToVersionNeedsV(s: string)
    requires !HasPrefix(s, "v")
    ensures ToVersion(s) == Failure(InvalidSemver(s))
  {
  }

  /** toVersion of the text of a parse: its numbers. */
  lemma ToVersionOf(p: Semver.Parsed)
    requires Semver.WellFormed(p)
    ensures ToVersion(Semver.Text(p)) == Success(NumbersOf(p))
  {
    Semver.TextParse(p);
  }

  /** The invalid cases of the toVersion table in the command's tests. */
  lemma ToVersionRejects()
    ensures ToVersion("blah") == Failure(InvalidSemver("blah"))
    ensures ToVersion("") == Failure(InvalidSemver(""))
  {
  }

  lemma NumberText(n: nat)
    ensures Semver.IsNumber(NatToString(n)) && DecimalValue(NatToString(n)) == n
  {
    NatToStringLead(n);
    NatToStringValue(n);
  }

  /** A shorthand's missing minor and patch are 0 ("v1" and "v1.2" in the tests). */
  lemma ToVersionFillsShorthand(major: nat, minor: nat)
    ensures ToVersion("v" + NatToString(major)) == Success(Version(major, 0, 0))
    ensures ToVersion("v" + NatToString(major) + "." + NatToString(minor)) == Success(Version(major, minor, 0))
  {
    NumberText(major);
    NumberText(minor);
    assert DecimalValue("0") == 0;
    ToVersionOf(Semver.Parsed(NatToString(major), "0", "0", ".0.0", "", ""));
    ToVersionOf(Semver.Parsed(NatToString(major), NatToString(minor), "0", ".0", "", ""));
  }

  /**
   * Any pre-release and any build are dropped ("v1.2.4-dev3",
   * "v1.2.4-dev3+special" and "v1.2.4+special" in the tests).
   */
  lemma ToVersionDropsSuffixes(v: Version, pre: string, build: string)
    requires pre == "" || Semver.IsPrerelease(pre)
    requires build == "" || Semver.IsBuild(build)
    ensures ToVersion(VersionText(v) + pre + build) == Success(v)
  {
    NumberText(v.major);
    NumberText(v.minor);
    NumberText(v.patch);
    var p := Semver.Parsed(NatToString(v.major), NatToString(v.minor), NatToString(v.patch), "", pre, build);
    assert Semver.Text(p) == VersionText(v) + pre + build;
    ToVersionOf(p);
  }

  /** "-dev3" and "+special", the suffixes of the tests, are a pre-release and a build. */
  lemma TestSuffixes()
    ensures Semver.IsPrerelease("-dev3") && Semver.IsBuild("+special")
  {
    assert "-dev3"[1..] == "dev3";
    Semver.SingleIdent("dev3", true);
    assert "+special"[1..] == "special";
    Semver.SingleIdent("special", false);
  }

  // ---------------------------------------------------------------------
  // Requests

  /** The input with a "v" in front, unless it already starts with one. */
  function WithV(s: string): string {
    if HasPrefix(s, "v") then s else "v" + s
  }

  lemma WithVFirst(s: string)
    ensures WithV(s) == if s != "" && s[0] == 'v' then s else "v" + s
  {
    if s != "" {
      assert s[..1] == [s[0]];
    }
  }

  /**
   * encodePair: both operands must be non-empty; each gets its "v" and is
   * normalised, the first before the second, so that a bad first operand is
   * the one reported when both are bad.
   */
  function EncodePair(first: string, second: string): (r: Result<Pair, Error>)
    ensures first == "" || second == "" ==> r == Failure(MissingOperands)
    ensures first != "" && second != "" ==>
      (r.Success? <==> Semver.IsValid(WithV(first)) && Semver.IsValid(WithV(second)))
    ensures first != "" && second != "" && !Semver.IsValid(WithV(first)) ==>
      r == Failure(BadFirst(InvalidSemver(WithV(first))))
    ensures first != "" && second != "" && Semver.IsValid(WithV(first)) && !Semver.IsValid(WithV(second)) ==>
      r == Failure(BadSecond(InvalidSemver(WithV(second))))
    ensures r.Success? ==>
      Semver.IsValid(WithV(first)) && Semver.IsValid(WithV(second)) &&
      r.value == Pair(NumbersOf(Semver.Parse(WithV(first)).value), NumbersOf(Semver.Parse(WithV(second)).value))
  {
    if first == "" || second == "" then Failure(MissingOperands)
    else
      var first := WithV(first);
      var second := WithV(second);
      match ToVersion(first)
      case Failure(e) => Failure(BadFirst(e))
      case Success(v1) =>
        match ToVersion(second)
        case Failure(e) => Failure(BadSecond(e))
        case Success(v2) => Success(Pair(v1, v2))
  }

  /** "1.0.0" and "v1.0.0" are the same operand, in either place. */
  lemma EncodePairPrefixInsensitive(a: string, b: string)
    requires a != "" && !HasPrefix(a, "v")
    ensures EncodePair("v" + a, b) == EncodePair(a, b)
    ensures EncodePair(b, "v" + a) == EncodePair(b, a)
  {
    assert HasPrefix("v" + a, "v");
  }

  /** The cases of the encodePair table in the command's tests with an empty operand. */
  lemma EncodePairMissing()
    ensures EncodePair("", "") == Failure(MissingOperands)
    ensures EncodePair("", "v1.0.0") == Failure(MissingOperands)
    ensures EncodePair("v1.0.0", "") == Failure(MissingOperands)
  {
  }

  /** The cases of the encodePair table in the command's tests with an invalid operand. */
  lemma EncodePairInvalid()
    ensures EncodePair("blah", "v1.0.0") == Failure(BadFirst(InvalidSemver("vblah")))
    ensures EncodePair("v1.0.0", "blah") == Failure(BadSecond(InvalidSemver("vblah")))
    ensures EncodePair("foo", "blah") == Failure(BadFirst(InvalidSemver("vfoo")))
  {
    WithVFirst("blah");
    WithVFirst("foo");
    WithVFirst("v1.0.0");
    assert "v" + "blah" == "vblah" && "v" + "foo" == "vfoo";
    assert !Semver.IsValid("vblah") by {
      assert "vblah"[1..] == "blah";
    }
    assert !Semver.IsValid("vfoo") by {
      assert "vfoo"[1..] == "foo";
    }
    assert Semver.IsValid("v1.0.0") by {
      var p := Semver.Parsed("1", "0", "0", "", "", "");
      assert Semver.Text(p) == "v1.0.0";
      assert Semver.WellFormed(p);
      Semver.TextParse(p);
    }
  }

  /**
   * decodePair: the operand gets its "v", is normalised, and the library's
   * Decode (`unpair`) splits it. There is no separate check for an empty
   * operand: "" becomes "v", which is not a version.
   */
  function DecodePair(decode: string, unpair: Version -> Pair): (r: Result<Pair, Error>)
    ensures r.Success? <==> Semver.IsValid(WithV(decode))
    ensures r.Failure? ==> r.error == BadCombined(InvalidSemver(WithV(decode)))
    ensures r.Success? ==> r.value == unpair(NumbersOf(Semver.Parse(WithV(decode)).value))
  {
    var decode := WithV(decode);
    match ToVersion(decode)
    case Failure(e) => Failure(BadCombined(e))
    case Success(v) => Success(unpair(v))
  }

  /** An empty operand is refused, as the one "v" it becomes. */
  lemma DecodePairBlank(unpair: Version -> Pair)
    ensures DecodePair("", unpair) == Failure(BadCombined(InvalidSemver("v")))
  {
    assert WithV("") == "v" && "v"[1..] == "";
  }

  /** An operand without its "v", the empty one included, decodes as it does with it. */
  lemma DecodePairPrefixInsensitive(s: string, unpair: Version -> Pair)
    requires !HasPrefix(s, "v")
    ensures DecodePair("v" + s, unpair) == DecodePair(s, unpair)
  {
    assert HasPrefix("v" + s, "v");
  }
}
