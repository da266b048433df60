/**
 SHA-256 is an arbitrary function `sha` from byte strings to 32 bytes, passed to everything that hashes.
 A soundness result therefore ends in "or here are two byte strings with one SHA-256 value", and the two
 strings are computed from the data by an executable function: that such strings exist would say nothing.
 */
module Hashing {
  import opened HexBytes

  type Sha256 = Hex -> Hash32

  /** The double SHA-256 used for block headers, transaction hashes and Merkle nodes. */
  function Hash256(sha: Sha256, text: Hex): Hash32 {
    sha(sha(text))
  }

  predicate IsCollision(sha: Sha256, pair: (Hex, Hex)) {
    pair.0 != pair.1 && sha(pair.0) == sha(pair.1)
  }

  /** Two strings with one SHA-256 value, found from two strings with one double SHA-256 value. */
  function CollisionFrom(sha: Sha256, x: Hex, y: Hex): (pair: (Hex, Hex))
    ensures x != y && Hash256(sha, x) == Hash256(sha, y) ==> IsCollision(sha, pair)
  {
    if sha(x) == sha(y) then (x, y) else (sha(x), sha(y))
  }
}
