/**
 * The per-chain repack timeout table of src/timer.ts: a mutable map from
 * chain id to seconds with a default for chains it does not list.
 */
module Timer {
  import opened Records

  /** Seconds used for a chain the table does not list. */
  const DEFAULT_TIMEOUT: int := 60

  /** The table as the module starts out: Ethereum mainnet and the Polygon testnet. */
  const INITIAL_TIMEOUT: map<int, int> := map[1 := 60, 80001 := 60]

  /** The timeout of `chainId` in milliseconds, looked up in `table` with the default. */
  function TimeoutMs(table: map<int, int>, chainId: Option<int>): (ms: int)
    ensures chainId.Some? && chainId.value in table ==> ms == table[chainId.value] * 1000
    ensures chainId.None? || chainId.value !in table ==> ms == 60000
  {
    var seconds := if chainId.None? then DEFAULT_TIMEOUT
                   else if chainId.value in table then table[chainId.value]
                   else DEFAULT_TIMEOUT;
    seconds * 1000
  }

  /** The mutable module-level `TIMEOUT` dictionary. */
  class TimeoutTable {
    var table: map<int, int>

    constructor ()
      ensures table == INITIAL_TIMEOUT
      ensures GetTimeout(Some(1)) == 60000 && GetTimeout(Some(80001)) == 60000
    {
      table := INITIAL_TIMEOUT;
    }

    /** `getTimeout`: milliseconds; an undefined or unlisted chain gets `DEFAULT_TIMEOUT * 1000`. */
    function GetTimeout(chainId: Option<int>): (ms: int)
      reads this
      ensures chainId.Some? && chainId.value in table ==> ms == table[chainId.value] * 1000
      ensures chainId.None? || chainId.value !in table ==> ms == DEFAULT_TIMEOUT * 1000
    {
      TimeoutMs(table, chainId)
    }

    /** `__setTimeoutConfig`: overwrite one chain's entry in place. */
    method SetTimeoutConfig(chainId: int, time: int)
      modifies this
      ensures table == old(table)[chainId := time]
      ensures GetTimeout(Some(chainId)) == time * 1000
      ensures forall c :: c != Some(chainId) ==> GetTimeout(c) == TimeoutMs(old(table), c)
    {
      table := table[chainId := time];
    }
  }
}
