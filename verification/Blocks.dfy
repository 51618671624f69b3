/** Names that the modules about nodes and contents share. */
module Blocks {

  /** A content's SHA-256 digest; only its identity matters here. */
  type Hash = seq<bv8>

  type NodeId = nat

  type ContentType = string

  /** One block of one content. */
  datatype BlockRef = BlockRef(hash: Hash, index: nat)
}
