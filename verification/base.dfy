// Types shared by the model: machine integers, addresses, branches and optional results.

module Base {
  const UINT64_LIMIT: int := 0x1_0000_0000_0000_0000
  const UINT32_LIMIT: int := 0x1_0000_0000

  type uint64 = x: int | 0 <= x < 0x1_0000_0000_0000_0000
  type uint32 = x: int | 0 <= x < 0x1_0000_0000

  datatype Option<+T> = None | Some(value: T)

  /** Counters of 64 and of 32 bits start again after these many increments. */
  lemma CounterWidths()
    ensures UINT64_LIMIT == 18446744073709551616 && UINT32_LIMIT == 4294967296
  {
  }

  /** A directed edge between two addresses; a branch record reduced to what the monitor keeps of it. */
  type Edge = (uint64, uint64)
}
