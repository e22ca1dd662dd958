/** What the receivers hand to the workers (internal/pinger/pinger.go, Reply). */
module Echo {
  /** wireSeq is the 16-bit sequence number of the reply.  rtt is 0 when the
      payload's own timestamp could not be used. */
  datatype Reply = Reply(wireSeq: int, error: bool, rtt: int, ttl: int)
}
