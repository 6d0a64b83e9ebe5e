# semverpair command core, in Dafny

A model of the command-line front end of `semverpair`, a tool that packs two
semantic versions into one combined version and unpacks it again. The
packing arithmetic belongs to the external library `github.com/bep/semverpair`
and is not modelled. What is modelled is the command's own logic:

- the **positional-argument resolver** (`parsePositionalArgs`, `shift`): flag
  values are kept, and empty slots are filled from the leftover arguments in order;
- the **version normaliser** (`toVersion`), over a model of Go's
  `golang.org/x/mod/semver` parser (`Canonical`, `Build`, `Prerelease`) for
  `"v" MAJOR ["." MINOR ["." PATCH [-PRE] [+BUILD]]]`;
- the **request wrappers** (`encodePair`, `decodePair`): the empty-operand check,
  the added `v`, first-before-second validation and error wrapping;
- the **sub-commands** `encode` and `decode`, as classes whose `PreRun` updates
  their operand fields in place and whose `Run` wraps the request's errors;
- the older **`main.go`** front end: its own copies of these functions and its
  choice between decoding and encoding.

Files: `wrappers.dfy` (Option, Result), `go_strings.dfy` (the Go `strings` and
`strconv` functions used), `semver.dfy` (the semver parser), `pairing.dfy`
(the library's `Version` and `Pair` types), `errors.dfy` (the error values
and their messages), `cli.dfy` (internal/pkg/cli/cli.go), `main_program.dfy`
(main.go), `commands.dfy` (cmd/semverpair/pkg/cli/encode.go and decode.go).

The library's `Encode` and `Decode` are passed in as function parameters
(`pair`, `unpair`), so they stay uninterpreted. The embedded framework's own
`PreRun` enters `PreRun` as its outcome (`framework`). Printing is modelled as
the value that would be printed.

`decodePair` has no empty-operand check of its own: an empty operand fails
only because `"v"` is not a valid version, and the error quotes `"v"`.

## Model

| member | source | states |
|---|---|---|
| Cli.Shift | internal/pkg/cli/cli.go:70-81 | an empty input comes back unchanged; otherwise the result is one shorter and holds the input's elements from the second on |
| Cli.ShiftExamples | cmd/semverpair/pkg/cli/cli_test.go:51-55 | the shift table of the tests |
| Cli.Resolve | internal/pkg/cli/cli.go:56-68 | the resolver never fails and returns exactly one entry per slot |
| Cli.ParsePositionalArgs | internal/pkg/cli/cli.go:55-68 | the loop that writes result[n] and shifts the arguments computes Resolve |
| Cli.ResolveSlot | internal/pkg/cli/cli.go:58-64 | slot n keeps its flag value if set; otherwise, if it is the k-th empty slot, it gets args[k] when that exists and "" when the arguments have run out |
| Cli.ResolveIgnoresSurplus | internal/pkg/cli/cli.go:58-65 | arguments beyond one per empty slot do not change the result |
| Cli.ResolveExamples | cmd/semverpair/pkg/cli/cli_test.go:18-33 | all sixteen rows of the parsePositionalArgs table of the tests |
| Cli.ToVersion | internal/pkg/cli/cli.go:126-159 | fails, quoting the input, exactly when canonicalisation yields ""; otherwise returns the three numbers the input spells, with pre-release and build dropped; the Atoi panics are proved unreachable |
| Cli.StripsToNumbers | internal/pkg/cli/cli.go:134-139 | trimming build and pre-release from the canonical form, dropping the "v" and splitting on "." leaves exactly major, minor and patch |
| Cli.ToVersionNeedsV | internal/pkg/cli/cli.go:127-132 | toVersion never adds the "v" itself: input without it is rejected |
| Cli.ToVersionRejects | cmd/semverpair/pkg/cli/cli_test.go:75-76 | "blah" and "" are rejected |
| Cli.ToVersionFillsShorthand | internal/pkg/cli/cli.go:129-158 | "vM" gives (M,0,0) and "vM.m" gives (M,m,0), for every M and m (tests at cli_test.go:77-78) |
| Cli.ToVersionDropsSuffixes | internal/pkg/cli/cli.go:133-158 | any valid pre-release and/or build after "vM.m.p" is discarded, giving (M,m,p) (tests at cli_test.go:79-82) |
| Cli.ToVersionOfText | internal/pkg/cli/cli.go:126-159 | the canonical text of a version normalises back to that version |
| Cli.ToVersionIdempotent | internal/pkg/cli/cli.go:126-159 | normalising the text of a normalised version gives the same version |
| Cli.EncodePair | internal/pkg/cli/cli.go:83-109 | an empty operand fails with "both ... must be set"; otherwise the operands with their "v" are checked first, then second, each failure wrapped with its operand's name; success exactly when both are valid versions, returning both normalised versions |
| Cli.EncodePairPrefixInsensitive | internal/pkg/cli/cli.go:90-96 | "1.0.0" and "v1.0.0" give the same result, in either position |
| Cli.EncodePairMissing | cmd/semverpair/pkg/cli/cli_test.go:144-146 | the empty-operand cases of the encodePair tests |
| Cli.EncodePairInvalid | cmd/semverpair/pkg/cli/cli_test.go:147-149 | the invalid-operand cases of the encodePair tests, with the first operand reported first |
| Cli.DecodePair | internal/pkg/cli/cli.go:111-124 | success exactly when the operand with its "v" is a valid version, returning Decode of its numbers; failure wrapped as "could not decode version" |
| Cli.DecodePairBlank | cmd/semverpair/pkg/cli/cli_test.go:110 | decodePair("") fails, on the "v" it becomes |
| Cli.DecodePairPrefixInsensitive | internal/pkg/cli/cli.go:113-116 | every operand without a leading "v", the empty one included, decodes as it does with one |
| Semver.Parse | internal/pkg/cli/cli.go:129 | every parse is well formed and spells out its input exactly |
| Semver.TextParse | internal/pkg/cli/cli.go:129 | every well-formed parse is what its text parses to, so parsing and Text are inverses |
| Semver.Canonical | internal/pkg/cli/cli.go:129 | "" exactly for invalid input; otherwise "v" + major + "." + minor + "." + patch + pre-release, with missing parts 0 and the build dropped |
| Semver.CanonicalParse | main.go:16-25 | the canonical form parses back with the same numbers and pre-release and no build |
| Semver.CanonicalIdempotent | main.go:16 | canonicalising twice is canonicalising once |
| MainProgram.ToVersion | main.go:14-48 | fails exactly when canonicalisation yields "", and then quotes the empty canonical string; otherwise returns the input's three numbers |
| MainProgram.ToVersionAgrees | main.go:14-48 | accepts the same inputs and gives the same triple as cli.go's toVersion, even though it reads the suffixes from the canonical string; only the message differs |
| MainProgram.ToVersionLosesInput | main.go:16-20 | for every non-empty invalid input (such as "blah", see MainProgram.BlahIsInvalid) the error quotes "" where cli.go's copy quotes the input, so the two messages differ |
| MainProgram.ParsePositionalArgs | main.go:62-73 | a non-empty first or second is kept; an empty first takes args[0] |
| MainProgram.ParsePositionalArgsAgrees | main.go:62-73 | the two-slot copy returns what cli.go's resolver returns for the two slots |
| MainProgram.EncodePair | main.go:75-100 | an empty operand fails; each operand gets its "v" when missing; the first is reported before the second |
| MainProgram.EncodePairAgrees | main.go:75-100 | succeeds with the same pair as cli.go's copy, and fails at the same operand |
| MainProgram.DecodePair | main.go:102-114 | success exactly when the operand with its "v" is a valid version |
| MainProgram.DecodePairAgrees | main.go:102-114 | the same result as cli.go's copy whenever either succeeds |
| MainProgram.Invocation | main.go:124-148 | the positional arguments are resolved first; --decode together with a non-empty first or second is refused; otherwise a non-empty --decode decodes and an empty one encodes; the chosen path's value is returned on success and its own error, unchanged, on failure |
| MainProgram.DecodeRefusesPositional | main.go:124-130 | with --decode set, a non-empty first positional argument gets the invocation refused |
| Commands.EncodeCommand.constructor | cmd/semverpair/pkg/cli/encode.go:12-17 | the command starts with the flag values as its operands |
| Commands.EncodeCommand.PreRun | cmd/semverpair/pkg/cli/encode.go:31-44 | a framework failure is returned as it is; "first and second version string are required" when a resolved slot is ""; on any failure both fields are unchanged; on success both are non-empty, flag values are kept, and the empty fields got args[0] and then args[1] |
| Commands.EncodeCommand.Run | cmd/semverpair/pkg/cli/encode.go:46-56 | fails exactly when encodePair fails, wrapped as "could not encode", and then prints nothing; with both operands set, the empty-operand error cannot arise |
| Commands.DecodeCommand.constructor | cmd/semverpair/pkg/cli/decode.go:11-15 | the command starts with the flag value as its operand |
| Commands.DecodeCommand.PreRun | cmd/semverpair/pkg/cli/decode.go:28-40 | a framework failure is returned as it is; "version string is required" when the resolved slot is ""; on any failure the field is unchanged; a flag value is kept and all arguments are ignored; an empty flag takes args[0] |
| Commands.DecodeCommand.Run | cmd/semverpair/pkg/cli/decode.go:42-52 | fails exactly when decodePair fails, wrapped as "could not decode", and then prints nothing; otherwise returns the decoded pair |

## Left out

- `Execute`, `rootCommand.Run` and the sub-commands' `Init`: these are command wiring and flag registration in the simplecobra/simplecommand framework. The constructors stand for the flag values they bind.
- internal/pkg/cli/version.go and cmd/semverpair/main.go: build-info printing and the process entry point.
- In main.go's `main`, the pflag parsing, the printing and `os.Exit` are I/O. `MainProgram.Invocation` returns the error or the value that would be printed.
- `semverpair.Encode` and `semverpair.Decode`: the library's packing arithmetic, passed in as uninterpreted function parameters. The end-to-end encode/decode round trip is therefore not stated.
- `Version.String` and the exact printed lines belong to the library and to output.
- `strconv.Atoi` is modelled on unsigned digit strings, and numbers are unbounded naturals. Go `int` overflow on very long digit strings, which would make the unreachable-looking panic reachable, is not modelled.
- `Cli.Shift`: Go's nil and empty slices are both the empty sequence here.
- `strings.Split` is modelled with a one-character separator, which is the only kind the source uses.
- MainProgram.DecodePair: its own contract does not give the decoded value; `MainProgram.DecodePairAgrees` ties it to `Cli.DecodePair`, whose contract does.
- MainProgram.EncodePair: its own contract does not give the encoded pair; `MainProgram.EncodePairAgrees` ties it to `Cli.EncodePair`, whose contract does.

## Findings

| source | as written | input that shows it | evidently intended | confidence | as-written member | corrected member |
|---|---|---|---|---|---|---|
| main.go:16-20 | the input is overwritten by its canonical form before the error is built, so the message quotes "" | "blah" (any non-empty invalid string) gives `"" was not a valid semver string` | quote the input, as internal/pkg/cli/cli.go:129-131 does | high (not executed) | MainProgram.ToVersionLosesInput | Cli.ToVersion |
