/** The messenger protocol's value types: the data fields of the generated
    message structs, without the protobuf runtime's bookkeeping. */
module Api {

  /** Go's int64 and int32. */
  newtype int64 = x: int | -0x8000_0000_0000_0000 <= x < 0x8000_0000_0000_0000
  newtype int32 = x: int | -0x8000_0000 <= x < 0x8000_0000

  const NanosPerSecond: int := 1_000_000_000

  /** A message identifier, or the identifier prefix a delete request carries. */
  datatype UUID = UUID(id: string)

  /** The empty reply of a successful delete. */
  datatype Void = Void

  /** What a client publishes: who sends it and what it says. */
  datatype MessageBody = MessageBody(senderUsername: string, body: string)

  /** Seconds since the Unix epoch, and the non-negative nanosecond remainder. */
  datatype Timestamp = Timestamp(seconds: int64, nanos: int32)

  /** A stored message, with the identity and time the server gave it. */
  datatype Message = Message(id: string, body: MessageBody, sentAt: Timestamp)

  /** The range the field documentation demands of `nanos`. */
  predicate ValidNanos(t: Timestamp)
  {
    0 <= t.nanos as int < NanosPerSecond
  }
}
