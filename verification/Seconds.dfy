/** Milliseconds rounded up to whole seconds. */
module Seconds {

  /** `Math.ceil(ms / 1000)` */
  function CeilSeconds(ms: int): (s: int)
    ensures (s - 1) * 1000 < ms <= s * 1000
  {
    (ms + 999) / 1000
  }
}
