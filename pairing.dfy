/**
 * The value types of the external pairing library (github.com/bep/semverpair)
 * that the command passes around. Its Encode and Decode are not modelled:
 * the operations that call them take them as function parameters.
 */
module Pairing {
  import opened GoStrings

  /** A version reduced to its three numbers; pre-release and build are gone. */
  datatype Version = Version(major: nat, minor: nat, patch: nat)

  /** The two versions that one combined version stands for. */
  datatype Pair = Pair(first: Version, second: Version)

  /** The canonical semantic-version text of a triple: "v" MAJOR "." MINOR "." PATCH. */
  function VersionText(v: Version): string {
    "v" + NatToString(v.major) + "." + NatToString(v.minor) + "." + NatToString(v.patch)
  }
}
