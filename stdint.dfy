/** The fixed-width integer types of <stdint.h> used by the planner state,
    as ranges of the unbounded integers. */
module StdInt {
  type uint8 = x: int | 0 <= x < 0x100
  type uint32 = x: int | 0 <= x < 0x1_0000_0000
  type int32 = x: int | -0x8000_0000 <= x < 0x8000_0000
}
