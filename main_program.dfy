/**
 * main.go: the older single-binary front end. It carries its own copies of
 * toVersion, the two-slot parsePositionalArgs, encodePair and decodePair,
 * and chooses between decoding and encoding. Its shift is the same as
 * cli.go's and is modelled by Cli.Shift.
 */
module MainProgram {
  import opened Wrappers
  import opened GoStrings
  import Semver
  import opened Pairing
  import opened Errors
  import Cli

  /**
   * toVersion, main.go's copy: the input is replaced by its canonical form
   * first, so the suffixes are read off the canonical form and the error
   * quotes that (empty) form instead of the input.
   */
  function ToVersion(s: string): (r: Result<Version, Error>)
    ensures r.Failure? <==> Semver.Canonical(s) == ""
    ensures r.Failure? ==> r.error == InvalidSemver("")
    ensures r.Success? ==> Semver.IsValid(s) && r.value == Cli.NumbersOf(Semver.Parse(s).value)
  {
    var canonical := Semver.Canonical(s);
    if canonical == "" then Failure(InvalidSemver(canonical))
    else
      Semver.CanonicalParse(s);
      var c1 := TrimSuffix(canonical, Semver.Build(canonical));
      var c2 := TrimSuffix(c1, Semver.Prerelease(canonical));
      var split := Split(TrimPrefix(c2, "v"), '.');
      Cli.StripsToNumbers(Semver.Parse(canonical).value, Semver.Build(canonical));
      var major := Atoi(split[0]);
      var minor := Atoi(split[1]);
      var patch := Atoi(split[2]);
      if major.None? || minor.None? || patch.None? then
        // a panic in the source: the canonical form rules it out
        assert false; Failure(InvalidSemver(canonical))
      else Success(Version(major.value, minor.value, patch.value))
  }

  /** Both copies of toVersion accept the same strings and give the same numbers; only the message differs. */
  lemma ToVersionAgrees(s: string)
    ensures ToVersion(s).Success? <==> Cli.ToVersion(s).Success?
    ensures ToVersion(s).Success? ==> ToVersion(s).value == Cli.ToVersion(s).value
    ensures ToVersion(s).Failure? ==>
      ToVersion(s).error == InvalidSemver("") && Cli.ToVersion(s).error == InvalidSemver(s)
  {
  }

  /**
   * The message of main.go's toVersion never names the bad input: for any
   * non-empty invalid string, such as "blah", it reads "" was not a valid
   * semver string, where cli.go's copy quotes the string.
   */
  lemma ToVersionLosesInput(s: string)
    requires s != "" && !Semver.IsValid(s)
    ensures ToVersion(s) == Failure(InvalidSemver(""))
    ensures Cli.ToVersion(s) == Failure(InvalidSemver(s))
    ensures Message(ToVersion(s).error) != Message(Cli.ToVersion(s).error)
  {
    assert |Message(InvalidSemver(""))| < |Message(InvalidSemver(s))|;
  }

  /** "blah", the input of the tests, is such a string. */
  lemma BlahIsInvalid()
    ensures "blah" != "" && !Semver.IsValid("blah")
  {
    assert "blah"[0] == 'b';
  }

  /**
   * parsePositionalArgs, main.go's copy for exactly two slots: an empty
   * first takes the first argument, then an empty second the next one.
   */
  function ParsePositionalArgs(args: seq<string>, first: string, second: string): (r: (string, string))
    ensures first != "" ==> r.0 == first
    ensures second != "" ==> r.1 == second
    ensures first == "" && |args| >= 1 ==> r.0 == args[0]
  {
    var (first, args) := if first == "" && |args| >= 1 then (args[0], Cli.Shift(args)) else (first, args);
    var second := if second == "" && |args| >= 1 then args[0] else second;
    (first, second)
  }

  /** The two-slot copy agrees with cli.go's resolver applied to two slots. */
  lemma ParsePositionalArgsAgrees(args: seq<string>, first: string, second: string)
    ensures var r := ParsePositionalArgs(args, first, second);
      [r.0, r.1] == Cli.Resolve(args, [first, second])
  {
    assert [first, second][1..] == [second];
    if first == "" && |args| >= 1 {
      assert Cli.Resolve(args, [first, second]) == [args[0]] + Cli.Resolve(Cli.Shift(args), [second]);
    }
  }

  /** encodePair, main.go's copy: the same checks in the same order, over main.go's toVersion. */
  function EncodePair(first: string, second: string): (r: Result<Pair, Error>)
    ensures first == "" || second == "" ==> r == Failure(MissingOperands)
    ensures first != "" && second != "" ==>
      (r.Success? <==> Semver.IsValid(Cli.WithV(first)) && Semver.IsValid(Cli.WithV(second)))
    ensures first != "" && second != "" && !Semver.IsValid(Cli.WithV(first)) ==>
      r == Failure(BadFirst(InvalidSemver("")))
    ensures first != "" && second != "" && Semver.IsValid(Cli.WithV(first)) && !Semver.IsValid(Cli.WithV(second)) ==>
      r == Failure(BadSecond(InvalidSemver("")))
  {
    if first == "" || second == "" then Failure(MissingOperands)
    else
      var first := Cli.WithV(first);
      var second := Cli.WithV(second);
      match ToVersion(first)
      case Failure(e) => Failure(BadFirst(e))
      case Success(v1) =>
        match ToVersion(second)
        case Failure(e) => Failure(BadSecond(e))
        case Success(v2) => Success(Pair(v1, v2))
  }

  /** Both copies of encodePair succeed together with the same pair and fail at the same operand. */
  lemma EncodePairAgrees(first: string, second: string)
    ensures EncodePair(first, second).Success? <==> Cli.EncodePair(first, second).Success?
    ensures EncodePair(first, second).Success? ==> EncodePair(first, second).value == Cli.EncodePair(first, second).value
    ensures EncodePair(first, second).Failure? ==>
      var (e, f) := (EncodePair(first, second).error, Cli.EncodePair(first, second).error);
      (e == MissingOperands <==> f == MissingOperands) && (e.BadFirst? <==> f.BadFirst?) &&
      (e.BadSecond? <==> f.BadSecond?)
  {
    if first != "" && second != "" {
      ToVersionAgrees(Cli.WithV(first));
      ToVersionAgrees(Cli.WithV(second));
    }
  }

  /** decodePair, main.go's copy, over main.go's toVersion. */
  function DecodePair(decode: string, unpair: Version -> Pair): (r: Result<Pair, Error>)
    ensures r.Success? <==> Semver.IsValid(Cli.WithV(decode))
    ensures r.Failure? ==> r.error == BadCombined(InvalidSemver(""))
  {
    var decode := Cli.WithV(decode);
    match ToVersion(decode)
    case Failure(e) => Failure(BadCombined(e))
    case Success(v) => Success(unpair(v))
  }

  /** Both copies of decodePair give the same result when they succeed. */
  lemma DecodePairAgrees(decode: string, unpair: Version -> Pair)
    ensures DecodePair(decode, unpair).Success? <==> Cli.DecodePair(decode, unpair).Success?
    ensures DecodePair(decode, unpair).Success? ==> DecodePair(decode, unpair) == Cli.DecodePair(decode, unpair)
  {
    ToVersionAgrees(Cli.WithV(decode));
  }

  /** What main prints on success: the combined version, or the two versions it stands for. */
  datatype Output = Combined(version: Version) | Original(pair: Pair)

  /**
   * The decision main makes once the flags are parsed: resolve the
   * positional arguments into first and second, refuse --decode together
   * with either of them, then decode when --decode is set and encode
   * otherwise. `pair` and `unpair` are the library's Encode and Decode.
   */
  function Invocation(args: seq<string>, decode: string, first: string, second: string,
                      pair: Pair -> Version, unpair: Version -> Pair): (r: Result<Output, Error>)
    ensures var slots := Cli.Resolve(args, [first, second]);
      r == Failure(MutuallyExclusive) <==> decode != "" && (slots[0] != "" || slots[1] != "")
    ensures var slots := Cli.Resolve(args, [first, second]);
      r.Success? && r.value.Original? <==>
      decode != "" && slots[0] == "" && slots[1] == "" && Semver.IsValid(Cli.WithV(decode))
    ensures var slots := Cli.Resolve(args, [first, second]);
      r.Success? && r.value.Combined? <==> decode == "" && EncodePair(slots[0], slots[1]).Success?
    ensures r.Success? && r.value.Original? ==>
      r.value.pair == unpair(Cli.NumbersOf(Semver.Parse(Cli.WithV(decode)).value))
    ensures r.Success? && r.value.Combined? ==>
      r.value.version == pair(EncodePair(Cli.Resolve(args, [first, second])[0], Cli.Resolve(args, [first, second])[1]).value)
    ensures var slots := Cli.Resolve(args, [first, second]);
      decode != "" && slots[0] == "" && slots[1] == "" && !Semver.IsValid(Cli.WithV(decode)) ==>
      r == Failure(BadCombined(InvalidSemver("")))
    ensures var slots := Cli.Resolve(args, [first, second]);
      decode == "" && EncodePair(slots[0], slots[1]).Failure? ==> r == Failure(EncodePair(slots[0], slots[1]).error)
  {
    ParsePositionalArgsAgrees(args, first, second);
    DecodePairAgrees(decode, unpair);
    var (first, second) := ParsePositionalArgs(args, first, second);
    if decode != "" && (first != "" || second != "") then Failure(MutuallyExclusive)
    else if decode != "" then
      match DecodePair(decode, unpair)
      case Failure(e) => Failure(e)
      case Success(p) => Success(Original(p))
    else
      match EncodePair(first, second)
      case Failure(e) => Failure(e)
      case Success(p) => Success(Combined(pair(p)))
  }

  /** With --decode set, a non-empty positional argument is an operand to encode and is refused. */
  lemma DecodeRefusesPositional(args: seq<string>, decode: string, first: string, second: string,
                                pair: Pair -> Version, unpair: Version -> Pair)
    requires decode != "" && |args| >= 1 && args[0] != ""
    ensures Invocation(args, decode, first, second, pair, unpair) == Failure(MutuallyExclusive)
  {
    ParsePositionalArgsAgrees(args, first, second);
  }
}
