/** Digests as the node produces them.

    SHA-256 is modelled as a free constructor, one for each shape of preimage the
    repository hashes, so two digests are equal exactly when their preimages are.
    The remaining constructors stand for byte strings that are used where a digest
    is expected without being one.
 */
module Digests {

  /** A path or key in inflated form: one entry per bit, false for 0 and true for 1. */
  type Bits = seq<bool>

  datatype Digest =
    | NilSlice                                              // a nil byte slice
    | ZeroBytes                                             // thirty-two zero bytes
    | ShaBytes(content: seq<nat>)                           // the digest of plain bytes
    | ShaLeaf(value: Digest, path: Bits)                    // value hash, then path
    | ShaInner(left: Digest, right: Digest, path: Bits)     // child hashes, then path
    | ShaPair(lower: Digest, upper: Digest)                 // two digests

  datatype Option<+T> = None | Some(value: T)

  /** The digest of the empty byte string; a key with this value hash is absent. */
  const ZERO_VALUE: Digest := ShaBytes([])
}
