/**
 * src/confirmation.ts: a fixed per-chain table of confirmation thresholds and
 * a second, independent copy of the per-chain timeout table.
 */
module Confirmation {
  import opened Records
  import Timer

  /** Threshold used for a chain the table does not list. */
  const DEFAULT_CONFIRMATION: int := 200

  /** Ethereum mainnet and Goerli. */
  const CONFIRMATION: map<int, int> := map[1 := 60, 4 := 60]

  /** `getConfirmation`: 60 on chains 1 and 4, `DEFAULT_CONFIRMATION` for any other or an undefined chain. */
  function GetConfirmation(chainId: Option<int>): (n: int)
    ensures chainId == Some(1) || chainId == Some(4) ==> n == 60
    ensures chainId != Some(1) && chainId != Some(4) ==> n == DEFAULT_CONFIRMATION
  {
    if chainId.Some? && chainId.value in CONFIRMATION then CONFIRMATION[chainId.value]
    else DEFAULT_CONFIRMATION
  }

  /** The module's own `TIMEOUT` dictionary, separate from the one in src/timer.ts. */
  class ConfirmationConfig {
    var timeout: map<int, int>

    constructor ()
      ensures timeout == Timer.INITIAL_TIMEOUT
    {
      timeout := Timer.INITIAL_TIMEOUT;
    }

    /** `getTimeout`: the table value, or 60 seconds, in milliseconds. */
    function GetTimeout(chainId: Option<int>): (ms: int)
      reads this
      ensures chainId.Some? && chainId.value in timeout ==> ms == timeout[chainId.value] * 1000
      ensures chainId.None? || chainId.value !in timeout ==> ms == 60000
    {
      Timer.TimeoutMs(timeout, chainId)
    }

    /** `__setTimeoutConfig`: overwrites one timeout entry; the confirmation table is a constant, so no threshold changes. */
    method SetTimeoutConfig(chainId: int, time: int)
      modifies this
      ensures timeout == old(timeout)[chainId := time]
      ensures GetTimeout(Some(chainId)) == time * 1000
      ensures forall c :: c != Some(chainId) ==> GetTimeout(c) == Timer.TimeoutMs(old(timeout), c)
    {
      timeout := timeout[chainId := time];
    }
  }
}
