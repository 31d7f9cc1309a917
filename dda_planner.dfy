/** The fast-axis move planner of dda_planner.h: the MOVE_PLANNER record, its
    four-slot ring of pending movements, and the two queue tests.

    The queue keeps no element counter. A slot whose step count `nextN` is 0
    is free (the consumer zeroes it when it has taken the movement), so the
    consumer's cursor `head` sees an empty queue when its slot is free and the
    producer's cursor `tail` sees a full queue when its slot is still live. */
module DdaPlanner {
  import opened StdInt

  /** Number of slots in the movement queue. */
  const PlannerQueueSize: nat := 4

  /** Fractional bits of the acceleration table values actually used. */
  const AccelPShift: nat := 16

  /** The period over which a new velocity is calculated, as a function of the
      configured timer tick. It must be at least half a tick. */
  function Quantum(tickTime: nat): (q: nat)
    ensures 2 * q >= tickTime
    ensures q >= tickTime
    ensures tickTime > 0 ==> q > tickTime
  {
    tickTime * 2
  }

  /** A snapshot of the planner record. Fields keep the width of the C struct;
      the one-bit `accel` field is a boolean (true: accelerate; false:
      decelerate or cruise). */
  datatype MovePlanner = MovePlanner(
    position: uint32,
    velocity: uint32,
    remainder: uint32,
    accelPerTick: uint32,
    currC: uint32,
    endC: uint32,
    nextDc: seq<int32>,
    nextN: seq<uint32>,
    head: uint8,
    tail: uint8,
    accel: bool)

  /** The arrays have their declared length and both cursors index them.
      A uint8 cursor alone ranges up to 255, so this bound is a state
      invariant the planner operations must keep. */
  predicate Valid(p: MovePlanner)
  {
    |p.nextDc| == PlannerQueueSize && |p.nextN| == PlannerQueueSize &&
    p.head < PlannerQueueSize && p.tail < PlannerQueueSize
  }

  /** A slot is free when its step count holds the sentinel 0. */
  predicate SlotFree(p: MovePlanner, i: nat)
    requires Valid(p) && i < PlannerQueueSize
  {
    p.nextN[i] == 0
  }

  /** planner_empty: the C truth value (1 or 0) of "the head slot is free". */
  function PlannerEmpty(p: MovePlanner): (r: uint8)
    requires Valid(p)
    ensures r == 0 || r == 1
    ensures r == 1 <==> SlotFree(p, p.head)
  {
    if p.nextN[p.head] == 0 then 1 else 0
  }

  /** planner_full: the C truth value (1 or 0) of "the tail slot is still live". */
  function PlannerFull(p: MovePlanner): (r: uint8)
    requires Valid(p)
    ensures r == 0 || r == 1
    ensures r == 1 <==> !SlotFree(p, p.tail)
  {
    if p.nextN[p.tail] != 0 then 1 else 0
  }

  /** The two queue tests read only the step counts and the cursors: two
      planner states that agree on those give the same answers, whatever
      their speeds, deltas, position or acceleration flag. */
  lemma QueueTestsReadOnlyCursorsAndCounts(p: MovePlanner, q: MovePlanner)
    requires Valid(p) && Valid(q)
    requires p.nextN == q.nextN && p.head == q.head && p.tail == q.tail
    ensures PlannerEmpty(p) == PlannerEmpty(q)
    ensures PlannerFull(p) == PlannerFull(q)
  {
  }

  /** A slot holding the sentinel 0 is free from both sides: at `tail` it
      lets the producer in, at `head` it leaves the consumer nothing. */
  lemma FreeSlotSentinel(p: MovePlanner, i: nat)
    requires Valid(p) && i < PlannerQueueSize && p.nextN[i] == 0
    ensures i == p.tail ==> PlannerFull(p) == 0
    ensures i == p.head ==> PlannerEmpty(p) == 1
  {
  }

  /** When the cursors meet, the queue is empty or full, never both and never
      neither. */
  lemma CursorsMeetEmptyXorFull(p: MovePlanner)
    requires Valid(p) && p.head == p.tail
    ensures PlannerEmpty(p) + PlannerFull(p) == 1
  {
  }

  // ---------------------------------------------------------------------
  // The ring discipline, as a reference definition of occupancy.

  /** The slot `k` places after `head`, wrapping modulo the queue size. */
  function Offset(p: MovePlanner, k: nat): (i: nat)
    requires Valid(p)
    ensures i < PlannerQueueSize
  {
    (p.head + k) % PlannerQueueSize
  }

  /** The slot `k` places after `head` holds a live movement. */
  predicate LiveAt(p: MovePlanner, k: nat)
    requires Valid(p)
  {
    !SlotFree(p, Offset(p, k))
  }

  /** The queue holds `n` movements laid out as a ring: the `n` slots from
      `head` onwards are live, the others are free, and `tail` is the slot
      just after the last live one. The header's comment calls `tail` the
      index of the last movement; only the reading used here, the next slot
      to fill, lets planner_full detect a full queue, since the slot of the
      last movement is live whenever the queue is not empty. */
  predicate RingOf(p: MovePlanner, n: nat)
    requires Valid(p)
  {
    n <= PlannerQueueSize && p.tail == Offset(p, n) &&
    forall k: nat :: k < PlannerQueueSize ==> (LiveAt(p, k) <==> k < n)
  }

  /** Number of live slots in a step-count array. */
  function CountLive(s: seq<uint32>): (c: nat)
    ensures c <= |s|
    ensures c == 0 <==> forall i :: 0 <= i < |s| ==> s[i] == 0
    ensures c == |s| <==> forall i :: 0 <= i < |s| ==> s[i] != 0
  {
    if s == [] then 0
    else (if s[0] != 0 then 1 else 0) + CountLive(s[1..])
  }

  /** The number of queued movements recovered from the cursors and the
      sentinel alone, without a counter. */
  function Occupancy(p: MovePlanner): (n: nat)
    requires Valid(p)
    ensures n <= PlannerQueueSize
    ensures n == 0 <==> PlannerEmpty(p) == 1
    ensures n == PlannerQueueSize <==> PlannerEmpty(p) == 0 && p.head == p.tail
  {
    if PlannerEmpty(p) == 1 then 0
    else if p.head == p.tail then PlannerQueueSize
    else (p.tail - p.head) % PlannerQueueSize
  }

  /** In a ring of `n` movements the cursors and the sentinel determine `n`:
      the distance from head to tail, or 0 / 4 when they meet. */
  lemma RingOccupancy(p: MovePlanner, n: nat)
    requires Valid(p) && RingOf(p, n)
    ensures n == Occupancy(p)
  {
    assert LiveAt(p, 0) <==> 0 < n;
    assert Offset(p, 0) == p.head;
  }

  /** A ring state has exactly one occupancy. */
  lemma RingDetermined(p: MovePlanner, n: nat, m: nat)
    requires Valid(p) && RingOf(p, n) && RingOf(p, m)
    ensures n == m
  {
    RingOccupancy(p, n);
    RingOccupancy(p, m);
  }

  /** In a ring state, planner_empty holds exactly when no movement is queued. */
  lemma RingEmpty(p: MovePlanner, n: nat)
    requires Valid(p) && RingOf(p, n)
    ensures PlannerEmpty(p) == 1 <==> n == 0
  {
    RingOccupancy(p, n);
  }

  /** In a ring state, planner_full holds exactly when all four slots are
      queued. */
  lemma RingFull(p: MovePlanner, n: nat)
    requires Valid(p) && RingOf(p, n)
    ensures PlannerFull(p) == 1 <==> n == PlannerQueueSize
  {
    if n < PlannerQueueSize {
      assert !LiveAt(p, n);
    } else {
      assert Offset(p, n) == Offset(p, 0);
      assert LiveAt(p, 0);
    }
  }

  /** In a ring state where the cursors meet, the queue holds no movement or
      four movements, nothing in between. */
  lemma RingCursorsMeet(p: MovePlanner, n: nat)
    requires Valid(p) && RingOf(p, n) && p.head == p.tail
    ensures n == 0 || n == PlannerQueueSize
  {
  }

  /** The step-count array of a four-slot planner, counted slot by slot. */
  lemma CountLiveFour(s: seq<uint32>)
    requires |s| == 4
    ensures CountLive(s) ==
      (if s[0] != 0 then 1 else 0) + (if s[1] != 0 then 1 else 0) +
      (if s[2] != 0 then 1 else 0) + (if s[3] != 0 then 1 else 0)
  {
  }

  /** In a ring of `n` movements exactly `n` slots of the array are live:
      the occupancy of the ring is the number of non-zero step counts. */
  lemma RingLiveCount(p: MovePlanner, n: nat)
    requires Valid(p) && RingOf(p, n)
    ensures CountLive(p.nextN) == n
  {
    CountLiveFour(p.nextN);
    assert LiveAt(p, 0) <==> 0 < n;
    assert LiveAt(p, 1) <==> 1 < n;
    assert LiveAt(p, 2) <==> 2 < n;
    assert LiveAt(p, 3) <==> 3 < n;
  }

  /** In a ring state the cursors differ, modulo the queue size, by the
      number of live slots. */
  lemma RingDistance(p: MovePlanner, n: nat)
    requires Valid(p) && RingOf(p, n)
    ensures (p.tail - p.head) % PlannerQueueSize == CountLive(p.nextN) % PlannerQueueSize
  {
    RingLiveCount(p, n);
  }
}
