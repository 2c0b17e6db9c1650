/** Hash functions as parameters: no property of a compressor depends on which one it uses. */
module Hashing {
  import opened Bytes

  /** Any hash of the bytes at a position. */
  type Hash = seq<byte> -> nat

  ghost predicate HashesInto(hash: Hash, size: nat) {
    forall s :: hash(s) < size
  }
}
