/**
 * cmd/semverpair/pkg/cli/encode.go and decode.go: the encode and decode
 * sub-commands. Each keeps the operands its flags were bound to as fields;
 * PreRun fills the empty ones from the positional arguments and Run hands
 * them to the request wrappers of Cli.
 */
module Commands {
  import opened Wrappers
  import opened Pairing
  import opened Errors
  import Cli

  /** The encode sub-command, with the values of --first and --second ("" when not given). */
  class EncodeCommand {
    var first: string
    var second: string

    constructor (first: string, second: string)
      ensures this.first == first && this.second == second
    {
      this.first := first;
      this.second := second;
    }

    /**
     * PreRun: `framework` is what the embedded framework command's own
     * PreRun returned. On any failure both fields are left as they were;
     * on success both are non-empty, a field its flag set is kept, and the
     * empty ones took the positional arguments in order.
     */
    method PreRun(args: seq<string>, framework: Option<Error>) returns (err: Option<Error>)
      modifies this
      ensures framework.Some? ==> err == framework
      ensures err.Some? ==> first == old(first) && second == old(second)
      ensures framework.None? ==>
        var slots := Cli.Resolve(args, [old(first), old(second)]);
        (err.None? <==> slots[0] != "" && slots[1] != "") &&
        (err.Some? ==> err == Some(FirstAndSecondRequired)) &&
        (err.None? ==> first == slots[0] && second == slots[1])
      ensures err.None? ==> first != "" && second != ""
      ensures err.None? && old(first) != "" ==> first == old(first)
      ensures err.None? && old(second) != "" ==> second == old(second)
      ensures err.None? && old(first) == "" ==> |args| >= 1 && first == args[0]
      ensures err.None? && old(first) != "" && old(second) == "" ==> |args| >= 1 && second == args[0]
      ensures err.None? && old(first) == "" && old(second) == "" ==> |args| >= 2 && second == args[1]
    {
      if framework.Some? {
        return framework;
      }
      var slots := Cli.ParsePositionalArgs(args, [first, second]);
      Cli.ResolveSlot(args, [first, second], 0);
      Cli.ResolveSlot(args, [first, second], 1);
      assert [first, second][..1] == [first];
      if slots[0] == "" || slots[1] == "" {
        return Some(FirstAndSecondRequired);
      }
      first := slots[0];
      second := slots[1];
      return None;
    }

    /**
     * Run: encodes the two operands with the library's Encode (`pair`) and
     * returns what is printed; an error from encodePair comes back wrapped
     * and nothing is printed. Once PreRun succeeded, encodePair's
     * empty-operand error cannot occur.
     */
    method Run(pair: Pair -> Version) returns (r: Result<Version, Error>)
      ensures r.Failure? <==> Cli.EncodePair(first, second).Failure?
      ensures r.Failure? ==> r.error == CouldNotEncode(Cli.EncodePair(first, second).error)
      ensures r.Success? ==> r.value == pair(Cli.EncodePair(first, second).value)
      ensures first != "" && second != "" ==> r != Failure(CouldNotEncode(MissingOperands))
    {
      var p := Cli.EncodePair(first, second);
      if p.Failure? {
        return Failure(CouldNotEncode(p.error));
      }
      return Success(pair(p.value));
    }
  }

  /** The decode sub-command, with the value of --version ("" when not given). */
  class DecodeCommand {
    var version: string

    constructor (version: string)
      ensures this.version == version
    {
      this.version := version;
    }

    /**
     * PreRun: on any failure the field is left as it was; a version set by
     * the flag is kept and every positional argument ignored; otherwise the
     * first positional argument is taken.
     */
    method PreRun(args: seq<string>, framework: Option<Error>) returns (err: Option<Error>)
      modifies this
      ensures framework.Some? ==> err == framework
      ensures err.Some? ==> version == old(version)
      ensures framework.None? ==>
        var slots := Cli.Resolve(args, [old(version)]);
        (err.None? <==> slots[0] != "") &&
        (err.Some? ==> err == Some(VersionRequired)) &&
        (err.None? ==> version == slots[0])
      ensures err.None? ==> version != ""
      ensures err.None? && old(version) != "" ==> version == old(version)
      ensures framework.None? && old(version) == "" && |args| >= 1 && args[0] != "" ==>
        err.None? && version == args[0]
      ensures framework.None? && old(version) == "" && (|args| == 0 || args[0] == "") ==>
        err == Some(VersionRequired)
    {
      if framework.Some? {
        return framework;
      }
      var slots := Cli.ParsePositionalArgs(args, [version]);
      if slots[0] == "" {
        return Some(VersionRequired);
      }
      version := slots[0];
      return None;
    }

    /**
     * Run: decodes the operand with the library's Decode (`unpair`) and
     * returns the pair that is printed; an error from decodePair comes
     * back wrapped and nothing is printed.
     */
    method Run(unpair: Version -> Pair) returns (r: Result<Pair, Error>)
      ensures r.Failure? <==> Cli.DecodePair(version, unpair).Failure?
      ensures r.Failure? ==> r.error == CouldNotDecode(Cli.DecodePair(version, unpair).error)
      ensures r.Success? ==> r.value == Cli.DecodePair(version, unpair).value
    {
      var p := Cli.DecodePair(version, unpair);
      if p.Failure? {
        return Failure(CouldNotDecode(p.error));
      }
      return Success(p.value);
    }
  }
}
