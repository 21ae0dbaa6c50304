/**
 The hashes of the log as free terms.

 Every SHA-256 value the log computes is one constructor below, one per kind of
 input: the prefixes 0x00, 0x01 and 0x10..0x12 and the context strings keep the
 inputs apart, so two values are equal exactly when they were built alike.
 `Foreign` stands for any other 32 bytes somebody may put in a proof.
 */
module Digests {

  /** A byte string, one character a byte. */
  type Bytes = string

  /** A label as its bits: bit 0 is the most significant bit of byte 0. */
  type Label = seq<bool>

  datatype LeafInput =
    | KtLeaf(lbl: Label, version: int, fp: Bytes, valueHash: Digest, ts: int)
    | HandleLeaf(lbl: Label, version: int, valueHash: Digest, ts: int)

  datatype Digest =
    | LogEmpty
    | LogLeaf(input: LeafInput)
    | LogNode(left: Digest, right: Digest)
    | MapEmpty
    | MapLeaf(lbl: Label, index: int, version: int)
    | MapNode(left: Digest, right: Digest)
    | ValueDigest(value: Bytes)
    | Foreign(bytes: Bytes)

  /** The number of node constructors in a digest. */
  function Weight(d: Digest): (w: nat) {
    match d
    case LogNode(l, r) => 1 + Weight(l) + Weight(r)
    case MapNode(l, r) => 1 + Weight(l) + Weight(r)
    case _ => 0
  }
}
