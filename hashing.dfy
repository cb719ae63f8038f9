/**
 * SHA-1 (FIPS 180-4) is not specified here: the operations receive it as a
 * function from the text it digests (already encoded to bytes) to its
 * hexadecimal digest, and know only that this digest is 40 lower-case
 * hexadecimal characters.
 */
module Hashing {

  const HexDigits: set<char> := {
    '0', '1', '2', '3', '4', '5', '6', '7', '8', '9', 'a', 'b', 'c', 'd', 'e', 'f'}

  predicate IsHexDigest(d: string)
  {
    |d| == 40 && forall i :: 0 <= i < |d| ==> d[i] in HexDigits
  }

  const ZeroDigest: string := "0000000000000000000000000000000000000000"

  /** `sha1(...).hexdigest()` left uninterpreted. */
  type Sha1 = f: string -> string | forall s :: IsHexDigest(f(s))
    witness (s: string) => ZeroDigest
}
