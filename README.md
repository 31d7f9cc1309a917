# Move planner queue of the Teacup firmware, in Dafny

This project models the fast-axis move planner state of `dda_planner.h`: the
`MOVE_PLANNER` record, its constants, and the two inline queue tests
`planner_empty` and `planner_full`.

The record is a Dafny datatype `DdaPlanner.MovePlanner`. Its fields keep the
C widths as subset types of the integers (`StdInt.uint8`, `uint32`, `int32`).
The two arrays `next_dc` and `next_n` become sequences of length
`PLANNER_QUEUE_SIZE` = 4. The one-bit `accel` field becomes a boolean.

The queue has no element counter. A step count of 0 marks a slot as free, and
the two tests look only at the slot under a cursor:
- `planner_empty` is true when the slot at `head` is free.
- `planner_full` is true when the slot at `tail` is still live.

Both tests return the C truth value (1 or 0) as a `uint8`. They are functions
of a planner value, so evaluating them cannot change any field.

A `uint8_t` cursor can hold values up to 255, but the arrays have four slots.
The model therefore requires `head < 4` and `tail < 4` through `Valid`. This
bound is a state invariant that the planner operations must keep.

To show what the two tests mean, the model adds a reference definition of
occupancy. `RingOf(p, n)` says that the `n` slots starting at `head` are live,
the other slots are free, and `tail` is the slot just after the last live one.
The comment at dda_planner.h:38 calls `tail` the index of the last movement.
The model reads it as the next slot to fill instead, because only that reading
lets `planner_full` (dda_planner.h:63) detect a full queue: the slot of the last
movement is live whenever the queue is not empty.
The lemmas then prove the following for any state of that shape:
- the tests agree with "no movement queued" and "four movements queued";
- `n` is the number of non-zero step counts;
- `n` can be recovered from `head`, `tail` and the sentinel alone.

## Model

| member | source | states |
|---|---|---|
| DdaPlanner.Quantum | dda_planner.h:9-10 | a quantum of twice the tick time is at least half a tick, at least one tick, and more than one tick for a positive tick time |
| DdaPlanner.PlannerEmpty | dda_planner.h:55-58 | the result is the C truth value 0 or 1, and it is 1 exactly when the step count at `head` is the free sentinel 0 |
| DdaPlanner.PlannerFull | dda_planner.h:61-64 | the result is the C truth value 0 or 1, and it is 1 exactly when the step count at `tail` is non-zero, i.e. that slot is still live |
| DdaPlanner.QueueTestsReadOnlyCursorsAndCounts | dda_planner.h:55-64 | the two tests depend only on `next_n`, `head` and `tail`: states that agree on these get the same answers |
| DdaPlanner.FreeSlotSentinel | dda_planner.h:36 | a slot holding step count 0 makes `planner_full` false when it is at `tail` and `planner_empty` true when it is at `head` |
| DdaPlanner.CursorsMeetEmptyXorFull | dda_planner.h:56-64 | when `head == tail`, exactly one of `planner_empty` and `planner_full` holds |
| DdaPlanner.CountLive | dda_planner.h:36 | the number of live slots is at most the array length; it is 0 exactly when every count is 0, and the full length exactly when none is |
| DdaPlanner.Occupancy | dda_planner.h:37-38 | the queue length derived from the cursors and the sentinel is at most 4; it is 0 exactly when `planner_empty` holds, and 4 exactly when the head slot is live and the cursors meet |
| DdaPlanner.RingOccupancy | dda_planner.h:35-38 | in a ring state holding `n` movements, `n` equals the occupancy derived from `head`, `tail` and the sentinel |
| DdaPlanner.RingDetermined | dda_planner.h:35-38 | a ring state has only one possible number of queued movements |
| DdaPlanner.RingEmpty | dda_planner.h:55-58 | in a ring state, `planner_empty` holds exactly when no movement is queued |
| DdaPlanner.RingFull | dda_planner.h:61-64 | in a ring state, `planner_full` holds exactly when all four slots hold movements |
| DdaPlanner.RingCursorsMeet | dda_planner.h:37-38 | in a ring state with `head == tail`, the queue holds either zero or four movements |
| DdaPlanner.RingLiveCount | dda_planner.h:17-36 | in a ring state holding `n` movements, exactly `n` entries of `next_n` are non-zero |
| DdaPlanner.RingDistance | dda_planner.h:17-38 | in a ring state, `tail - head` modulo 4 equals the number of live slots modulo 4 |

## Left out

- `planner_init`, `planner_get`, `planner_put`, `planner_begin_dda` and `planner_fill_queue`: the header declares them but does not define them (dda_planner.c is not part of this model). The model does not give them behaviour. So no lemma says that they keep `Valid` or the ring shape; `RingOf` states the shape they are meant to keep.
- The `accel_P` acceleration table and its Q8.24 fixed-point arithmetic: the table is an external constant whose contents and `axes_uint32_t` type are defined elsewhere. Only the constant `ACCEL_P_SHIFT` = 16 is carried, as `AccelPShift`.
- `TICK_TIME` comes from the firmware configuration. `Quantum` takes it as a parameter and does not model overflow of the C multiplication.
- The `DDA` descriptor and the `config_wrapper.h` and `dda.h` includes: they are defined outside this header.
- The handoff between producer and consumer under interrupts, and the order of the memory writes it depends on: no code for it appears here, and the model has no concurrency.
- The `PROGMEM` and `BSS` storage placement and `always_inline`: these only choose where the compiler puts code and data.
- `position`, `velocity`, `remainder`, `accel_per_tick`, `curr_c` and `end_c` are carried as fields with only their width constrained: no visible code operates on them.
- The global `planner` instance: the tests take the planner state as a parameter instead of reading a global.
