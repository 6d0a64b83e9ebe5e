/** The errors the command's functions return, with the message each one prints. */
module Errors {

  datatype Error =
    | InvalidSemver(input: string)      // toVersion: the string is not a version
    | MissingOperands                   // encodePair: an operand is empty
    | BadFirst(cause: Error)            // encodePair: the first operand is not a version
    | BadSecond(cause: Error)           // encodePair: the second operand is not a version
    | BadCombined(cause: Error)         // decodePair: the operand is not a version
    | CouldNotEncode(cause: Error)      // encode command, Run
    | CouldNotDecode(cause: Error)      // decode command, Run
    | FirstAndSecondRequired            // encode command, PreRun
    | VersionRequired                   // decode command, PreRun
    | MutuallyExclusive                 // main: --decode together with an operand to encode
    | Framework(message: string)        // the embedded command framework's own PreRun failed

  /** The text `fmt.Errorf` builds for each error; `%w` wraps the cause's text. */
  function Message(e: Error): string {
    match e
    case InvalidSemver(s) => "\"" + s + "\" was not a valid semver string"
    case MissingOperands => "both first and second versions must be set"
    case BadFirst(c) => "error decoding first version: " + Message(c)
    case BadSecond(c) => "error decoding second version: " + Message(c)
    case BadCombined(c) => "could not decode version: " + Message(c)
    case CouldNotEncode(c) => "could not encode: " + Message(c)
    case CouldNotDecode(c) => "could not decode: " + Message(c)
    case FirstAndSecondRequired => "first and second version string are required"
    case VersionRequired => "version string is required"
    case MutuallyExclusive => "decode, first and second options are mutually exclusive"
    case Framework(m) => m
  }
}
