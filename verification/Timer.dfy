/** Wrapping timer arithmetic (platforms/timer.h). */
module Timer {

  const TWO16: int := 0x1_0000
  const TWO31: int := 0x8000_0000
  const TWO32: int := 0x1_0000_0000

  /** `TIMER_DIFF_16`: subtraction in uint16_t. */
  function TimerDiff16(a: int, b: int): (r: nat)
    ensures r < TWO16
  {
    (a - b) % 0x1_0000
  }

  /** `TIMER_DIFF_32`: subtraction in uint32_t. */
  function TimerDiff32(a: int, b: int): (r: nat)
    ensures r < TWO32
  {
    (a - b) % 0x1_0000_0000
  }

  /** The cast `(int32_t)` applied to a uint32_t. */
  function AsInt32(x: nat): (r: int)
    requires x < TWO32
    ensures -TWO31 <= r < TWO31
    ensures (r - x) % 0x1_0000_0000 == 0
  {
    if x < TWO31 then x else x - TWO32
  }
}
