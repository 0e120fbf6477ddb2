/** What every transport of the benchmark has in common. */
module Transport {
  /** A receive call that finds nothing gives up after this many nanoseconds. */
  const RECV_TIMEOUT: nat := 1_000_000_000
}
