/**
 The message shape that producers hand to the outbox. Both the entry storage
 and the publisher fake accept batches of these.
 */
module Outbox {

  /** An opaque byte string (Go's `[]byte`). */
  type Bytes = seq<bv8>

  /** A message as supplied by a producer: a partitioning key and a payload. */
  datatype Message = Message(key: Bytes, payload: Bytes)
}
